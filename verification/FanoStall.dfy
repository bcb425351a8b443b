/**
 Inputs on which the Fano search cannot finish, whatever its budget.
 */
module FanoStall {
  import opened Bits
  import opened Fano
  import opened FanoTree

  // --- where the search stalls ---

  // The threshold only ever moves by whole deltas.
  ghost predicate OnGrid(t: real, delta: real) {
    exists k :: t == Grid(k, delta)
  }

  lemma {:induction false} GridStep(t: real, delta: real)
    requires delta > 0.0 && OnGrid(t, delta)
    ensures OnGrid(t - delta, delta) && OnGrid(t + delta, delta)
    ensures t > 0.0 ==> t - delta >= 0.0
    ensures t > -delta ==> t >= 0.0
  {
    var k :| t == Grid(k, delta);
    assert Grid(k - 1, delta) == t - delta && Grid(k + 1, delta) == t + delta;
    if k <= 0 { SignOfGrid(-k, delta); } else { SignOfGrid(k - 1, delta); }
    if k <= -1 { SignOfGrid(-k - 1, delta); }
  }

  lemma {:induction false} SignOfGrid(k: int, delta: real)
    requires k >= 0 && delta > 0.0
    ensures Grid(k, delta) >= 0.0 && Grid(-k, delta) == -Grid(k, delta)
    ensures Grid(-k - 1, delta) == -Grid(k, delta) - delta
  {
  }

  lemma {:induction false} TightenOnGrid(mu: real, t: real, delta: real)
    requires delta > 0.0 && OnGrid(t, delta)
    ensures OnGrid(Tighten(mu, t, delta), delta)
    decreases Steps(mu, t, delta)
  {
    hide OnGrid;
    if mu - t >= delta {
      StepsFall(mu, t, delta);
      GridStep(t, delta);
      TightenOnGrid(mu, t + delta, delta);
    }
  }

  // The better first branch does not lose.
  predicate GoodStart(p: Problem)
    requires p.Valid() && p.total > 0
  {
    Child(p, 0, 0.0, 0, NthBest(p, 0, 0.0, 0, 0)) >= 0.0
  }

  ghost predicate Above(p: Problem, s: Search)
    requires p.Valid() && s.Sized(p)
  {
    && OnGrid(s.t, p.delta)
    && (forall j :: 0 <= j <= s.d ==> s.mu[j] >= 0.0)
    && (s.t >= 0.0 || (s.d == 0 && s.t == -p.delta && s.tried[0] == 0))
  }

  lemma {:induction false} VisitAbove(p: Problem, s: Search)
    requires p.Valid() && Inv(p, s) && s.d < p.total && GoodStart(p) && Above(p, s)
    ensures Above(p, Visit(p, s))
  {
    hide Tighten, NthBest, Child, PathReg, PathSum, OnGrid, Grid;
    RootOk(p, s);
    var d := s.d;
    var b := NthBest(p, s.reg[d], s.mu[d], d, s.tried[d]);
    var cm := Child(p, s.reg[d], s.mu[d], d, b);
    GridStep(s.t, p.delta);
    if s.tried[d] < 2 && cm >= s.t {
      TightenOnGrid(cm, s.t, p.delta);
      TightenBelow(cm, s.t, p.delta);
      GridStep(Tighten(cm, s.t, p.delta), p.delta);
    }
  }

  lemma {:induction false} RootOk(p: Problem, s: Search)
    requires p.Valid() && Inv(p, s)
    ensures s.reg[0] == 0 && s.mu[0] == 0.0
  {
    assert NodeOk(p, s, 0);
    assert s.bits[..0] == [];
  }

  // After a first branch that does not lose, the search never stands on a node of negative metric:
  // each move forward pulls the threshold back up, so lowering it at the root is undone at once.
  lemma {:induction false} StaysAbove(p: Problem, n: nat)
    requires p.Valid() && p.total > 0 && GoodStart(p)
    ensures Above(p, After(p, n))
  {
    hide Visit, Above, Inv;
    if n == 0 {
      StartAbove(p);
    } else {
      StaysAbove(p, n - 1);
      Reachable(p, n - 1);
      var s := After(p, n - 1);
      if s.d < p.total { VisitAbove(p, s); }
    }
  }

  lemma {:induction false} StartAbove(p: Problem)
    requires p.Valid()
    ensures Above(p, Start(p))
  {
    assert 0.0 == Grid(0, p.delta);
  }

  // Some prefix of the path has lost.
  predicate Dips(p: Problem, path: seq<bit>)
    requires p.Valid() && |path| <= p.total
  {
    exists j :: 0 <= j <= |path| && PathSum(p, path[..j]) < 0.0
  }

  // So if every path of some depth dips below zero on its way, no budget takes the search that
  // deep, whichever path was sent.
  lemma {:induction false} Stalls(p: Problem, depth: nat, n: nat)
    requires p.Valid() && 0 < depth <= p.total && GoodStart(p)
    requires forall path: seq<bit> {:trigger Dips(p, path)} :: |path| == depth ==> Dips(p, path)
    ensures After(p, n).d < depth
  {
    hide After, Dips;
    PathHolds(p, n);
    var path := After(p, n).bits[..depth];
    assert |path| == depth && Dips(p, path);
  }

  lemma {:induction false} PathHolds(p: Problem, n: nat)
    requires p.Valid() && p.total > 0 && GoodStart(p)
    ensures var s := After(p, n);
            forall m :: 0 <= m <= s.d ==> !Dips(p, s.bits[..m])
  {
    hide PathSum, After;
    StaysAbove(p, n);
    Reachable(p, n);
    var s := After(p, n);
    forall m, j | 0 <= j <= m <= s.d ensures PathSum(p, s.bits[..m][..j]) >= 0.0 {
      assert NodeOk(p, s, j) && s.bits[..m][..j] == s.bits[..j];
    }
  }

  // An erased bit (LLR zero) has metric -1/2, any other at most 1/2. One good branch and then two
  // erased ones stall the search, for every code, threshold step and budget.
  lemma {:induction false} ErasuresStall(p: Problem, b: bit, n: nat)
    requires p.Valid() && p.total >= 3 && p.polys[0] % 2 == 1 && p.polys[1] % 2 == 1
    requires forall i :: 0 <= i < 2 ==> 0.0 <= p.metrics[i].Of(b) <= 0.5 && p.metrics[i].Of(1 - b) <= 0.5
    requires forall i :: 2 <= i < 6 ==> p.metrics[i] == BitMetric(-0.5, -0.5)
    ensures After(p, n).d < 3
  {
    hide After, Parity, PathReg;
    FirstSymbols(p.polys[0], b);
    FirstSymbols(p.polys[1], b);
    assert Child(p, 0, 0.0, 0, b) >= 0.0;
    forall path: seq<bit> | |path| == 3 ensures Dips(p, path) {
      assert path[..2][..1] == path[..1] && path[..1][..0] == [];
      assert PathSum(p, path[..1]) == p.Edge(0, PathReg(path[..1]));
      assert PathSum(p, path[..2]) == PathSum(p, path[..1]) + p.Edge(1, PathReg(path[..2]));
      assert path[..3] == path && PathSum(p, path[..3]) < 0.0;
    }
    Stalls(p, 3, n);
  }

  // --- a good transmission that stalls ---

  // The path is received with metric g for every bit sent and w for the other, but for the two
  // branches after the first, which are erased.
  function ErasedBurst(polys: seq<nat>, path: seq<bit>, delta: real, g: real, w: real): Problem
    requires |polys| == 2
  {
    Problem(polys, seq(2 * |path|, i requires 0 <= i < 2 * |path| =>
      if 2 <= i < 6 then BitMetric(-0.5, -0.5) else Received(Parity(PathReg(path[..i / 2 + 1]), polys[i % 2]), g, w)),
      |path|, delta)
  }

  function Received(c: bit, g: real, w: real): BitMetric {
    if c == 0 then BitMetric(g, w) else BitMetric(w, g)
  }

  lemma {:induction false} BurstEdge(polys: seq<nat>, path: seq<bit>, delta: real, g: real, w: real, j: nat)
    requires |polys| == 2 && delta > 0.0 && j < |path|
    ensures ErasedBurst(polys, path, delta, g, w).Valid()
    ensures ErasedBurst(polys, path, delta, g, w).Edge(j, PathReg(path[..j + 1])) == if 1 <= j < 3 then -1.0 else g + g
  {
    hide Parity, PathReg;
    var p := ErasedBurst(polys, path, delta, g, w);
    assert (2 * j) / 2 == j && (2 * j) % 2 == 0 && (2 * j + 1) / 2 == j && (2 * j + 1) % 2 == 1;
  }

  lemma {:induction false} BurstSum(polys: seq<nat>, path: seq<bit>, delta: real, g: real, w: real, j: nat)
    requires |polys| == 2 && delta > 0.0 && 3 <= j <= |path|
    ensures ErasedBurst(polys, path, delta, g, w).Valid()
    ensures PathSum(ErasedBurst(polys, path, delta, g, w), path[..j]) == Grid(j - 2, g + g) - 2.0
  {
    hide Parity, PathReg, ErasedBurst;
    var p := ErasedBurst(polys, path, delta, g, w);
    BurstEdge(polys, path, delta, g, w, j - 1);
    BurstShape(polys, path, delta, g, w);
    GridNext(j - 3, g + g);
    assert path[..j][..j - 1] == path[..j - 1];
    if j > 3 {
      BurstSum(polys, path, delta, g, w, j - 1);
    } else {
      BurstEdge(polys, path, delta, g, w, 1);
      BurstEdge(polys, path, delta, g, w, 0);
      assert path[..2][..1] == path[..1] && path[..1][..0] == [];
      assert Grid(0, g + g) == 0.0;
      assert PathSum(p, path[..1]) == p.Edge(0, PathReg(path[..1]));
      assert PathSum(p, path[..2]) == PathSum(p, path[..1]) + p.Edge(1, PathReg(path[..2]));
    }
  }

  lemma {:induction false} BurstShape(polys: seq<nat>, path: seq<bit>, delta: real, g: real, w: real)
    requires |polys| == 2
    ensures var p := ErasedBurst(polys, path, delta, g, w);
            p.polys == polys && p.total == |path| && p.delta == delta && |p.metrics| == 2 * |path|
  {
  }

  // Stalled input need not be hopeless: two erased branches stall the search for ever although every
  // other bit arrives well, and the metric of the path sent grows with its length.
  lemma {:induction false} GoodPathStalls(polys: seq<nat>, path: seq<bit>, delta: real, g: real, w: real, n: nat)
    requires |polys| == 2 && polys[0] % 2 == 1 && polys[1] % 2 == 1 && delta > 0.0
    requires |path| >= 3 && 0.0 <= g <= 0.5 && w <= g
    ensures var p := ErasedBurst(polys, path, delta, g, w);
            && p.Valid() && p.total == |path| && After(p, n).d < 3
            && PathSum(p, path) == Grid(|path| - 2, g + g) - 2.0
  {
    hide After, PathSum, ErasedBurst, Grid;
    var p := ErasedBurst(polys, path, delta, g, w);
    BurstSum(polys, path, delta, g, w, |path|);
    assert path[..|path|] == path;
    BurstShape(polys, path, delta, g, w);
    BurstMetrics(polys, path, delta, g, w);
    ErasuresStall(p, path[0], n);
  }

  lemma {:induction false} BurstMetrics(polys: seq<nat>, path: seq<bit>, delta: real, g: real, w: real)
    requires |polys| == 2 && polys[0] % 2 == 1 && polys[1] % 2 == 1 && |path| >= 3
    ensures var m := ErasedBurst(polys, path, delta, g, w).metrics;
            && |m| == 2 * |path|
            && m[0] == m[1] == Received(path[0], g, w)
            && forall i :: 2 <= i < 6 ==> m[i] == BitMetric(-0.5, -0.5)
  {
    hide Parity, U32;
    FirstSymbols(polys[0], path[0]);
    FirstSymbols(polys[1], path[0]);
    assert path[..1] == [] + [path[0]];
    RegPush([], path[0]);
    assert Reg([]) == 0;
  }

  // For instance any data sent with the 31-bit tail, received with metric 2/5 for every bit but
  // four: the path sent has a total of at least 21.
  lemma {:induction false} DataLost(data: seq<bit>, delta: real, n: nat)
    requires delta > 0.0
    ensures var p := ErasedBurst(CODE.polys, data + Zeros(TAIL), delta, 0.4, -4.0);
            && p.Valid() && p.total == |data| + TAIL && After(p, n).d < p.total
            && PathSum(p, data + Zeros(TAIL)) >= 21.0
  {
    hide After, PathSum, ErasedBurst, Zeros;
    DefaultCode();
    var path := data + Zeros(TAIL);
    GoodPathStalls(CODE.polys, path, delta, 0.4, -4.0, n);
    assert Grid(|path| - 2, 0.4 + 0.4) == (|path| - 2) as real * 0.8;
  }

  lemma {:induction false} FirstSymbols(poly: nat, b: bit)
    requires poly % 2 == 1
    ensures Parity(U32(b), poly) == b
  {
    AndStep(b, poly);
    AndNothing(poly / 2);
    OnesDouble(0, b);
  }
}
