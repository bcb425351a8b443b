/**
 Exactly when the Fano search reaches full depth, told by a recursion on the code tree that
 knows no threshold, no visit counts and no budget.
 */
module FanoTree {
  import opened Bits
  import opened Fano

  // --- thresholds as whole numbers of steps ---

  function Grid(k: int, delta: real): real {
    k as real * delta
  }

  // The highest threshold a node meets, in steps.
  function Level(p: Problem, v: seq<bit>): int
    requires p.Valid() && |v| <= p.total
  {
    LevelOf(PathSum(p, v), p.delta)
  }

  function LevelOf(x: real, delta: real): int
    requires delta > 0.0
  {
    (x / delta).Floor
  }

  lemma {:induction false} GridMonotone(a: int, b: int, delta: real)
    requires delta > 0.0
    ensures Grid(a, delta) <= Grid(b, delta) <==> a <= b
  {
    ProductOrder(a as real, b as real, delta);
    ProductOrder(b as real, a as real, delta);
  }

  lemma {:induction false} ProductOrder(a: real, b: real, delta: real)
    requires delta > 0.0
    ensures a <= b ==> a * delta <= b * delta
    ensures a < b ==> a * delta < b * delta
  {
    assert a <= b ==> (b - a) * delta >= 0.0;
    assert a < b ==> (b - a) * delta > 0.0;
  }

  lemma {:induction false} LevelBounds(x: real, delta: real)
    requires delta > 0.0
    ensures Grid(LevelOf(x, delta), delta) <= x < Grid(LevelOf(x, delta) + 1, delta)
  {
    hide Grid;
    var q := x / delta;
    assert q * delta == x;
    GridBeside(x, q, q.Floor, delta);
    GridBeside(x, q, q.Floor + 1, delta);
  }

  lemma {:induction false} GridBeside(x: real, q: real, k: int, delta: real)
    requires delta > 0.0 && q * delta == x
    ensures k as real <= q ==> Grid(k, delta) <= x
    ensures q < k as real ==> x < Grid(k, delta)
  {
    var y := k as real;
    ProductOrder(y, q, delta);
    ProductOrder(q, y, delta);
  }

  // A metric meets a threshold exactly when its level does.
  lemma {:induction false} LevelMeets(x: real, k: int, delta: real)
    requires delta > 0.0
    ensures x >= Grid(k, delta) <==> LevelOf(x, delta) >= k
  {
    hide Grid, LevelOf;
    var l := LevelOf(x, delta);
    LevelBounds(x, delta);
    GridMonotone(k, l, delta);
    GridMonotone(l + 1, k, delta);
  }

  lemma {:induction false} GridNext(k: int, delta: real)
    ensures Grid(k, delta) + delta == Grid(k + 1, delta)
    ensures Grid(k, delta) - delta == Grid(k - 1, delta)
  {
  }

  // Raising the threshold at a node takes it to the node's level.
  lemma {:induction false} TightenToLevel(x: real, k: int, delta: real)
    requires delta > 0.0 && LevelOf(x, delta) >= k
    ensures Tighten(x, Grid(k, delta), delta) == Grid(LevelOf(x, delta), delta)
    decreases LevelOf(x, delta) - k
  {
    hide Grid, LevelOf;
    GridNext(k, delta);
    LevelMeets(x, k + 1, delta);
    if LevelOf(x, delta) > k {
      StepsFall(x, Grid(k, delta), delta);
      TightenToLevel(x, k + 1, delta);
    }
  }

  // --- the tree ---

  // The child of v the search tries first (n == 0) or second (n == 1).
  function Nth(p: Problem, v: seq<bit>, n: nat): (c: seq<bit>)
    requires p.Valid() && |v| < p.total
    ensures |c| == |v| + 1 && Parent(c) == v
  {
    v + [NthBest(p, PathReg(v), PathSum(p, v), |v|, n)]
  }

  function Parent(v: seq<bit>): seq<bit>
    requires v != []
  {
    v[..|v| - 1]
  }

  function Min(a: int, b: int): int {
    if a < b then a else b
  }

  // The threshold with which the search leaves a node for its parent.
  function Leave(p: Problem, v: seq<bit>): int
    requires p.Valid() && 0 < |v| <= p.total
  {
    Min(Level(p, v), Level(p, Parent(v)))
  }

  // The search goes below v on its first stay there.
  predicate Enters(p: Problem, v: seq<bit>)
    requires p.Valid() && |v| < p.total
  {
    v == [] || Level(p, Nth(p, v, 0)) >= Leave(p, v)
  }

  datatype Fate = Found(path: seq<bit>) | Back | Loop

  // What comes of the search once it has entered v.
  function Explore(p: Problem, v: seq<bit>): Fate
    requires p.Valid() && |v| <= p.total
    decreases p.total - |v|, 1
  {
    if |v| == p.total then Found(v)
    else if Enters(p, v) then Descend(p, v)
    else Back
  }

  function Descend(p: Problem, v: seq<bit>): Fate
    requires p.Valid() && |v| < p.total
    decreases p.total - |v|, 0
  {
    var first, second := Nth(p, v, 0), Nth(p, v, 1);
    match Explore(p, first)
    case Found(q) => Found(q)
    case Loop => Loop
    case Back =>
      if Level(p, second) < Leave(p, first) then Retreat(p, v, Leave(p, first))
      else
        match Explore(p, second)
        case Found(q) => Found(q)
        case Loop => Loop
        case Back => Retreat(p, v, Leave(p, second))
  }

  // With both children behind it the search goes up, or else starts over at v for ever.
  function Retreat(p: Problem, v: seq<bit>, k: int): Fate
    requires p.Valid() && |v| < p.total
  {
    if v != [] && Level(p, Parent(v)) >= k then Back else Loop
  }

  lemma {:induction false} ChildSum(p: Problem, v: seq<bit>, b: bit)
    requires p.Valid() && |v| < p.total
    ensures PathSum(p, v + [b]) == Child(p, PathReg(v), PathSum(p, v), |v|, b)
  {
    Extend(p, v, b);
  }

  lemma {:induction false} FirstIsBest(p: Problem, v: seq<bit>)
    requires p.Valid() && |v| < p.total
    ensures Level(p, Nth(p, v, 1)) <= Level(p, Nth(p, v, 0))
  {
    hide PathSum, PathReg, Child, LevelOf, Grid;
    ChildSum(p, v, 0);
    ChildSum(p, v, 1);
    var x, y := PathSum(p, Nth(p, v, 1)), PathSum(p, Nth(p, v, 0));
    assert x <= y;
    LevelBounds(x, p.delta);
    LevelMeets(y, LevelOf(x, p.delta), p.delta);
  }

  // --- the search on the tree ---

  // n visits from s on.
  function Go(p: Problem, s: Search, n: nat): (s': Search)
    requires p.Valid() && s.Sized(p)
    ensures s'.Sized(p)
  {
    if n == 0 then s
    else
      var r := Go(p, s, n - 1);
      if r.d == p.total then r else Visit(p, r)
  }

  lemma {:induction false} GoAdd(p: Problem, s: Search, m: nat, n: nat)
    requires p.Valid() && s.Sized(p)
    ensures Go(p, s, m + n) == Go(p, Go(p, s, m), n)
  {
    hide Visit;
    if n > 0 { GoAdd(p, s, m, n - 1); }
  }

  lemma {:induction false} GoFirst(p: Problem, s: Search, n: nat)
    requires p.Valid() && s.Sized(p) && s.d < p.total
    ensures Go(p, s, n + 1) == Go(p, Visit(p, s), n)
  {
    hide Visit;
    GoAdd(p, s, 1, n);
    assert Go(p, s, 1) == Visit(p, s);
  }

  lemma {:induction false} GoOne(p: Problem, s: Search)
    requires p.Valid() && s.Sized(p) && s.d < p.total
    ensures Go(p, s, 1) == Visit(p, s)
  {
    assert Go(p, s, 0) == s;
  }

  lemma {:induction false} AfterIsGo(p: Problem, n: nat)
    requires p.Valid()
    ensures After(p, n) == Go(p, Start(p), n)
  {
    hide Visit, Start;
    if n > 0 { AfterIsGo(p, n - 1); }
  }

  lemma {:induction false} GoStops(p: Problem, s: Search, n: nat)
    requires p.Valid() && s.Sized(p) && s.d == p.total
    ensures Go(p, s, n) == s
  {
    hide Visit;
    if n > 0 { GoStops(p, s, n - 1); }
  }

  // s stands at v with threshold level k.
  ghost predicate At(p: Problem, s: Search, v: seq<bit>, k: int)
    requires p.Valid()
  {
    Inv(p, s) && s.d == |v| && s.bits[..s.d] == v && s.t == Grid(k, p.delta)
  }

  lemma {:induction false} AtSums(p: Problem, s: Search, v: seq<bit>, k: int)
    requires p.Valid() && At(p, s, v, k)
    ensures s.reg[s.d] == PathReg(v) && s.mu[s.d] == PathSum(p, v) && Level(p, v) >= k
    ensures v != [] ==> s.mu[s.d - 1] == PathSum(p, Parent(v))
  {
    hide PathReg, PathSum, Grid, LevelOf, EdgeOk;
    assert NodeOk(p, s, s.d);
    LevelMeets(PathSum(p, v), k, p.delta);
    if v != [] {
      assert NodeOk(p, s, s.d - 1);
      assert s.bits[..s.d - 1] == Parent(v);
    }
  }

  // One visit: down to the next child, up to the parent, or the threshold down.
  lemma {:induction false} VisitMoves(p: Problem, s: Search, v: seq<bit>, k: int)
    requires p.Valid() && At(p, s, v, k) && |v| < p.total
    ensures var s', n := Visit(p, s), s.tried[s.d];
            if n < 2 && Level(p, Nth(p, v, n)) >= k then
              At(p, s', Nth(p, v, n), Level(p, Nth(p, v, n))) && s'.tried == s.tried[s.d := n + 1][s.d + 1 := 0]
            else if v != [] && Level(p, Parent(v)) >= k then
              At(p, s', Parent(v), k) && s'.tried == s.tried
            else
              At(p, s', v, k - 1) && s'.tried == s.tried[s.d := 0]
  {
    hide PathReg, PathSum, Grid, LevelOf, EdgeOk, NodeOk, Child, NthBest, Tighten, Inv;
    SizedInv(p, s);
    AtSums(p, s, v, k);
    VisitKeeps(p, s);
    GridNext(k, p.delta);
    var d, n := s.d, s.tried[s.d];
    var c := Nth(p, v, n);
    var b := NthBest(p, s.reg[d], s.mu[d], d, n);
    ChildSum(p, v, b);
    LevelMeets(PathSum(p, c), k, p.delta);
    if n < 2 && Level(p, c) >= k {
      TightenToLevel(PathSum(p, c), k, p.delta);
      assert Visit(p, s).bits[..d + 1] == s.bits[..d] + [b];
    } else if v != [] {
      LevelMeets(PathSum(p, Parent(v)), k, p.delta);
      assert s.bits[..d - 1] == Parent(v);
    }
  }

  lemma {:induction false} SizedInv(p: Problem, s: Search)
    requires p.Valid() && Inv(p, s)
    ensures s.Sized(p) && s.tried[s.d] <= 2
  {
  }

  // About to take the better branch below v, none being taken yet.
  ghost predicate Poised(p: Problem, s: Search, v: seq<bit>, k: int)
    requires p.Valid() && |v| < p.total
  {
    At(p, s, v, k) && s.tried[s.d] == 0 && Level(p, Nth(p, v, 0)) >= k
  }

  ghost predicate Ready(p: Problem, s: Search, v: seq<bit>)
    requires p.Valid() && |v| < p.total
  {
    exists k: int :: Poised(p, s, v, k)
  }

  // Just entered.
  ghost predicate Entered(p: Problem, s: Search, v: seq<bit>)
    requires p.Valid() && |v| <= p.total
  {
    At(p, s, v, Level(p, v)) && s.tried[s.d] == 0
  }

  // Poised for ever: from here the search comes back to such a state again and again.
  ghost predicate Stuck(p: Problem, s: Search)
    requires p.Valid()
  {
    exists v: seq<bit>, k: int :: |v| < p.total && Poised(p, s, v, k) && Enters(p, v) && Descend(p, v) == Loop
  }

  // Back at the parent of v, from where v was entered in s.
  ghost predicate Returned(p: Problem, s: Search, s': Search, v: seq<bit>)
    requires p.Valid() && 0 < |v| <= p.total && s.Sized(p)
  {
    At(p, s', Parent(v), Leave(p, v)) && s.d == |v| && s'.tried[..s'.d + 1] == s.tried[..s'.d + 1]
  }

  // What Explore and Descend foretell of the state s' that comes of s, which stands at v.
  ghost predicate Fulfilled(p: Problem, s: Search, s': Search, v: seq<bit>, fate: Fate)
    requires p.Valid() && |v| <= p.total && s.Sized(p)
  {
    match fate
    case Found(q) => s'.Sized(p) && s'.d == p.total && s'.bits == q
    case Loop => Stuck(p, s')
    case Back => v != [] && Returned(p, s, s', v)
  }

  // Lowering the threshold at v until the search can move; the depth stays.
  lemma {:induction false} Lowered(p: Problem, s: Search, v: seq<bit>, k: int) returns (n: nat)
    requires p.Valid() && At(p, s, v, k) && s.tried[s.d] == 0 && |v| < p.total
    requires v != [] ==> k >= Leave(p, v)
    ensures var s' := Go(p, s, n);
            && s'.d == s.d && s'.tried == s.tried
            && if Enters(p, v) then Ready(p, s', v)
               else At(p, s', v, Leave(p, v)) && Level(p, Nth(p, v, 0)) < Leave(p, v) <= Level(p, Parent(v))
    ensures forall i :: 0 <= i <= n ==> Go(p, s, i).d == s.d
    decreases k - Level(p, Nth(p, v, 0))
  {
    hide At, Level, Visit, Nth;
    SizedAt(p, s, v, k);
    if Level(p, Nth(p, v, 0)) >= k {
      n := 0;
      assert Poised(p, Go(p, s, n), v, k);
    } else if v != [] && Level(p, Parent(v)) >= k {
      n := 0;
      AtSums(p, s, v, k);
    } else {
      VisitMoves(p, s, v, k);
      var s1 := Visit(p, s);
      SizedAt(p, s1, v, k - 1);
      assert s1.tried == s.tried;
      var m := Lowered(p, s1, v, k - 1);
      n := m + 1;
      GoFirst(p, s, m);
      forall i | 0 <= i <= n ensures Go(p, s, i).d == s.d {
        if i > 0 { GoFirst(p, s, i - 1); }
      }
    }
  }

  lemma {:induction false} SizedAt(p: Problem, s: Search, v: seq<bit>, k: int)
    requires p.Valid() && At(p, s, v, k)
    ensures s.Sized(p) && s.d == |v| && s.tried[s.d] <= 2
  {
  }

  // From entering v on, the search does what Explore says.
  lemma {:induction false} Explored(p: Problem, s: Search, v: seq<bit>) returns (n: nat)
    requires p.Valid() && |v| <= p.total && Entered(p, s, v)
    ensures s.Sized(p) && Fulfilled(p, s, Go(p, s, n), v, Explore(p, v))
    decreases p.total - |v|, 2
  {
    hide At, Visit, Level, Nth, Stuck, Descend;
    SizedAt(p, s, v, Level(p, v));
    if |v| == p.total {
      n := 0;
      AllBits(p, s, v);
    } else {
      var m := Lowered(p, s, v, Level(p, v));
      var r := Go(p, s, m);
      if Enters(p, v) {
        var k :| Poised(p, r, v, k);
        var l := Descended(p, r, v, k);
        n := m + l;
        GoAdd(p, s, m, l);
      } else {
        VisitMoves(p, r, v, Leave(p, v));
        n := m + 1;
        SizedAt(p, Go(p, s, n), Parent(v), Leave(p, v));
      }
    }
  }

  lemma {:induction false} AllBits(p: Problem, s: Search, v: seq<bit>)
    requires p.Valid() && |v| == p.total && At(p, s, v, Level(p, v))
    ensures s.bits == v
  {
  }

  // From a state poised at v on, the search does what Descend says.
  lemma {:induction false} Descended(p: Problem, s: Search, v: seq<bit>, k: int) returns (n: nat)
    requires p.Valid() && |v| < p.total && Poised(p, s, v, k) && Enters(p, v)
    ensures n > 0 && s.Sized(p) && Fulfilled(p, s, Go(p, s, n), v, Descend(p, v))
    decreases p.total - |v|, 1
  {
    hide At, Visit, Level, Stuck, Explore, Retreat, Returned, NthBest, Go;
    SizedAt(p, s, v, k);
    FirstIsBest(p, v);
    var first, second := Nth(p, v, 0), Nth(p, v, 1);
    n := Stepped(p, s, v, k, 0);
    var s2 := Go(p, s, n);
    if Explore(p, first).Back? {
      if Level(p, second) < Leave(p, first) {
        var l := Retreated(p, s, s2, v, first);
        GoAdd(p, s, n, l);
        n := n + l;
      } else {
        SizedAt(p, s2, v, Leave(p, first));
        var l := Stepped(p, s2, v, Leave(p, first), 1);
        var s4 := Go(p, s2, l);
        GoAdd(p, s, n, l);
        n := n + l;
        if Explore(p, second).Back? {
          var j := Retreated(p, s, s4, v, second);
          GoAdd(p, s, n, j);
          n := n + j;
        }
      }
    }
  }

  // Into the next child of v, and what comes of it.
  lemma {:induction false} Stepped(p: Problem, s: Search, v: seq<bit>, k: int, i: nat) returns (n: nat)
    requires p.Valid() && |v| < p.total && At(p, s, v, k) && s.tried[s.d] == i < 2
    requires Level(p, Nth(p, v, i)) >= k
    ensures n > 0 && s.Sized(p)
    ensures var c, s' := Nth(p, v, i), Go(p, s, n);
            match Explore(p, c)
            case Found(q) => s'.d == p.total && s'.bits == q
            case Loop => Stuck(p, s')
            case Back => At(p, s', v, Leave(p, c)) && s'.tried[..|v|] == s.tried[..|v|] && s'.tried[|v|] == i + 1
    decreases p.total - |v|, 0
  {
    hide At, Visit, Level, Stuck, Explore, Go, NthBest, Leave;
    SizedAt(p, s, v, k);
    var c, s1 := Nth(p, v, i), Visit(p, s);
    VisitMoves(p, s, v, k);
    SizedAt(p, s1, c, Level(p, c));
    var m := Explored(p, s1, c);
    GoFirst(p, s, m);
    n := m + 1;
    if Explore(p, c).Back? {
      var s' := Go(p, s, n);
      SizedAt(p, s', v, Leave(p, c));
      assert s'.tried[..|v| + 1] == s1.tried[..|v| + 1];
      assert s'.tried[|v|] == s'.tried[..|v| + 1][|v|] == s1.tried[..|v| + 1][|v|];
      assert s'.tried[..|v|] == s'.tried[..|v| + 1][..|v|] == s1.tried[..|v|];
    }
  }

  // From child c back at v, with no other child to enter.
  lemma {:induction false} Retreated(p: Problem, s: Search, s2: Search, v: seq<bit>, c: seq<bit>) returns (n: nat)
    requires p.Valid() && |v| < p.total && s.Sized(p) && s.d == |v| && Enters(p, v)
    requires c == Nth(p, v, 0) || (c == Nth(p, v, 1) && (v == [] || Level(p, c) >= Leave(p, v)))
    requires At(p, s2, v, Leave(p, c)) && s2.tried[..|v|] == s.tried[..|v|]
    requires s2.tried[|v|] == 2 || (s2.tried[|v|] == 1 && Level(p, Nth(p, v, 1)) < Leave(p, c))
    requires Descend(p, v) == Retreat(p, v, Leave(p, c))
    ensures n > 0 && s2.Sized(p) && Fulfilled(p, s, Go(p, s2, n), v, Descend(p, v))
  {
    hide At, Visit, Level, Explore, Descend, Nth, Go;
    var k := Leave(p, c);
    SizedAt(p, s2, v, k);
    VisitMoves(p, s2, v, k);
    var s' := Visit(p, s2);
    n := 1;
    GoOne(p, s2);
    FirstIsBest(p, v);
    if v != [] && Level(p, Parent(v)) >= k {
      assert k == Leave(p, v);
      SizedAt(p, s', Parent(v), k);
    } else {
      SizedAt(p, s', v, k - 1);
      assert Poised(p, s', v, k - 1);
    }
  }

  lemma {:induction false} StuckStands(p: Problem, s: Search)
    requires p.Valid() && Stuck(p, s)
    ensures s.Sized(p) && s.d < p.total
  {
    hide Visit, Level, Enters, Descend, Nth;
  }

  // A stuck search stays below full depth.
  lemma {:induction false} StuckForEver(p: Problem, s: Search, m: nat)
    requires p.Valid() && Stuck(p, s)
    ensures s.Sized(p) && Go(p, s, m).d < p.total
    decreases m
  {
    hide At, Visit, Level, Enters, Descend, Nth, Leave, Returned, Go;
    var v: seq<bit>, k: int :| |v| < p.total && Poised(p, s, v, k) && Enters(p, v) && Descend(p, v) == Loop;
    SizedAt(p, s, v, k);
    var n := Descended(p, s, v, k);
    var s' := Go(p, s, n);
    if m >= n {
      StuckForEver(p, s', m - n);
      GoAdd(p, s, n, m - n);
    } else {
      StuckStands(p, s');
      GoAdd(p, s, m, n - m);
      if Go(p, s, m).d == p.total { GoStops(p, Go(p, s, m), n - m); }
    }
  }

  lemma {:induction false} StartEntered(p: Problem)
    requires p.Valid()
    ensures Entered(p, Start(p), []) && Start(p).Sized(p)
  {
    StartOk(p);
    LevelMeets(0.0, 0, p.delta);
    LevelMeets(0.0, 1, p.delta);
    assert Grid(0, p.delta) == 0.0 && Grid(1, p.delta) == p.delta;
    assert Start(p).bits[..0] == [];
  }

  /**
   The search reaches full depth, on some budget, if and only if the tree says so; the path it
   then holds is the one the tree names. Otherwise no budget is enough.
   */
  lemma {:induction false} Completes(p: Problem)
    requires p.Valid()
    ensures (exists n :: After(p, n).d == p.total) <==> Explore(p, []).Found?
    ensures forall n :: After(p, n).d == p.total ==> Explore(p, []) == Found(After(p, n).bits)
  {
    hide Explore, Visit, Start, At;
    StartEntered(p);
    var k := Explored(p, Start(p), []);
    AfterIsGo(p, k);
    forall n | After(p, n).d == p.total ensures Explore(p, []) == Found(After(p, n).bits) {
      AfterIsGo(p, n);
      AfterIsGo(p, n + k);
      GoAdd(p, Start(p), k, n);
      GoAdd(p, Start(p), n, k);
      GoStops(p, After(p, n), k);
      if Explore(p, []).Loop? {
        StuckForEver(p, After(p, k), n);
      } else {
        GoStops(p, After(p, k), n);
      }
    }
  }

  // --- without a step back ---

  // The path of better branches.
  function Greedy(p: Problem, j: nat): (v: seq<bit>)
    requires p.Valid() && j <= p.total
    ensures |v| == j
  {
    if j == 0 then [] else Nth(p, Greedy(p, j - 1), 0)
  }

  ghost predicate NoStepBack(p: Problem, n: nat)
    requires p.Valid()
  {
    forall m :: 0 <= m < n ==> After(p, m).d <= After(p, m + 1).d
  }

  lemma {:induction false} GreedyReached(p: Problem, j: nat) returns (n: nat)
    requires p.Valid() && j <= p.total
    requires forall i :: 0 <= i < j ==> Enters(p, Greedy(p, i))
    ensures Entered(p, After(p, n), Greedy(p, j)) && NoStepBack(p, n)
  {
    hide At, Level, Visit, Enters, Nth, After, Start;
    if j == 0 {
      n := 0;
      StartEntered(p);
      assert After(p, 0) == Start(p) by { AfterIsGo(p, 0); }
    } else {
      var m := GreedyReached(p, j - 1);
      var v := Greedy(p, j - 1);
      assert Enters(p, v);
      var s := After(p, m);
      var l := Waited(p, m, v);
      var k :| Poised(p, After(p, m + l), v, k);
      n := m + l + 1;
      SizedAt(p, After(p, m + l), v, k);
      VisitMoves(p, After(p, m + l), v, k);
      AfterNext(p, m + l);
      SizedAt(p, After(p, n), Greedy(p, j), Level(p, Greedy(p, j)));
    }
  }

  // Between entering v and moving on the depth stays.
  lemma {:induction false} Waited(p: Problem, n: nat, v: seq<bit>) returns (l: nat)
    requires p.Valid() && |v| < p.total && Entered(p, After(p, n), v) && NoStepBack(p, n)
    ensures NoStepBack(p, n + l) && After(p, n + l).d == |v|
    ensures if Enters(p, v) then Ready(p, After(p, n + l), v)
            else At(p, After(p, n + l), v, Leave(p, v)) && After(p, n + l).tried[|v|] == 0
                 && Level(p, Nth(p, v, 0)) < Leave(p, v) <= Level(p, Parent(v))
  {
    hide At, Level, Visit, Enters, Nth, After, Start;
    var s := After(p, n);
    SizedAt(p, s, v, Level(p, v));
    l := Lowered(p, s, v, Level(p, v));
    StartEntered(p);
    forall i | 0 <= i <= l ensures After(p, n + i) == Go(p, s, i) {
      AfterIsGo(p, n);
      AfterIsGo(p, n + i);
      GoAdd(p, Start(p), n, i);
    }
    forall m | 0 <= m < n + l ensures After(p, m).d <= After(p, m + 1).d {
      if m >= n {
        assert After(p, n + (m - n)) == Go(p, s, m - n) && After(p, n + (m + 1 - n)) == Go(p, s, m + 1 - n);
      }
    }
  }

  lemma {:induction false} AfterNext(p: Problem, n: nat)
    requires p.Valid() && After(p, n).d < p.total
    ensures After(p, n + 1) == Visit(p, After(p, n))
  {
  }

  // At the first node of the greedy path that is not entered the search steps back.
  lemma {:induction false} StepsBack(p: Problem, j: nat) returns (n: nat)
    requires p.Valid() && j < p.total && !Enters(p, Greedy(p, j))
    requires forall i :: 0 <= i < j ==> Enters(p, Greedy(p, i))
    ensures After(p, n + 1).d < After(p, n).d < p.total
  {
    hide At, Level, Visit, Nth, After, Start;
    var v := Greedy(p, j);
    n := GreedyReached(p, j);
    var l := Waited(p, n, v);
    n := n + l;
    SizedAt(p, After(p, n), v, Leave(p, v));
    VisitMoves(p, After(p, n), v, Leave(p, v));
    AfterNext(p, n);
    SizedAt(p, After(p, n + 1), Parent(v), Leave(p, v));
  }

  lemma {:induction false} FirstRefusal(p: Problem, n: nat) returns (j: nat)
    requires p.Valid() && n < p.total && !Enters(p, Greedy(p, n))
    ensures j <= n && !Enters(p, Greedy(p, j)) && forall i :: 0 <= i < j ==> Enters(p, Greedy(p, i))
  {
    hide Enters, Greedy;
    j := 0;
    while Enters(p, Greedy(p, j))
      invariant j <= n && forall i :: 0 <= i < j ==> Enters(p, Greedy(p, i))
      decreases n - j
    {
      j := j + 1;
    }
  }

  // The metric after j + 1 greedy branches is not below the lower of the two levels before it.
  predicate HoldsUp(p: Problem, j: nat)
    requires p.Valid() && 1 <= j < p.total
  {
    Level(p, Greedy(p, j + 1)) >= Min(Level(p, Greedy(p, j)), Level(p, Greedy(p, j - 1)))
  }

  lemma {:induction false} HoldsUpIsEnters(p: Problem, j: nat)
    requires p.Valid() && j < p.total
    ensures Enters(p, Greedy(p, j)) <==> j == 0 || HoldsUp(p, j)
  {
    hide Level, Nth;
  }

  /**
   The search goes straight to full depth if and only if the path of better branches never falls
   below both levels before it.
   */
  lemma {:induction false} StraightExactly(p: Problem)
    requires p.Valid()
    ensures (exists n :: After(p, n).d == p.total && NoStepBack(p, n))
            <==> forall j :: 1 <= j < p.total ==> HoldsUp(p, j)
  {
    hide At, Level, Visit, Nth, After, Start, HoldsUp, Enters, Greedy;
    forall j | 0 <= j < p.total ensures Enters(p, Greedy(p, j)) <==> j == 0 || HoldsUp(p, j) {
      HoldsUpIsEnters(p, j);
    }
    if forall j :: 0 <= j < p.total ==> Enters(p, Greedy(p, j)) {
      var n := GreedyReached(p, p.total);
      SizedAt(p, After(p, n), Greedy(p, p.total), Level(p, Greedy(p, p.total)));
    } else {
      var i :| 0 <= i < p.total && !Enters(p, Greedy(p, i));
      var j := FirstRefusal(p, i);
      var m := StepsBack(p, j);
      forall n | After(p, n).d == p.total ensures !NoStepBack(p, n) {
        if n <= m { Stays(p, n, m); }
      }
    }
  }
}
