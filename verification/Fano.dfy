/**
 The Fano sequential decoder: a backtracking search through the code tree of a 32-bit
 convolutional code, guided by a moving threshold and cut off by a visit budget. Branch
 metrics are given per code bit position.
 */
module Fano {
  import opened Bits
  import ConvSpec
  import Conv
  import ConvTheorems
  import opened Options

  const TAIL: nat := 31
  const CODE := ConvSpec.ConvCode(32, [0xf2d0_5351, 0xe461_3c47])

  // Metric of hypothesising code bit 0 or 1 at one position.
  datatype BitMetric = BitMetric(zero: real, one: real) {
    function Of(c: bit): real { if c == 0 then zero else one }
  }

  datatype Problem = Problem(polys: seq<nat>, metrics: seq<BitMetric>, total: nat, delta: real) {
    predicate Valid() {
      |polys| == 2 && |metrics| >= 2 * total && delta > 0.0
    }

    // Metric of the edge from depth d into the node with register nr.
    function Edge(d: nat, nr: nat): real
      requires Valid() && d < total
    {
      metrics[2 * d].Of(Parity(nr, polys[0])) + metrics[2 * d + 1].Of(Parity(nr, polys[1]))
    }
  }

  // The register after a path, and the metric collected along it.
  function PathReg(bits: seq<bit>): nat {
    U32(Reg(bits))
  }

  function PathSum(p: Problem, bits: seq<bit>): real
    requires p.Valid() && |bits| <= p.total
  {
    if bits == [] then 0.0
    else PathSum(p, bits[..|bits| - 1]) + p.Edge(|bits| - 1, PathReg(bits))
  }

  /**
   The path the search stands on, root to depth d: registers and metric sums of its nodes, how many
   of the two branches below each have been taken, and which one was taken last.
   */
  datatype Search = Search(reg: seq<nat>, mu: seq<real>, tried: seq<nat>, bits: seq<bit>, d: nat, t: real) {
    predicate Sized(p: Problem) {
      |reg| == |mu| == |tried| == p.total + 1 && |bits| == p.total && d <= p.total
    }
  }

  function Start(p: Problem): Search {
    Search(seq(p.total + 1, _ => 0), seq(p.total + 1, _ => 0.0), seq(p.total + 1, _ => 0), Zeros(p.total), 0, 0.0)
  }

  // Cumulative metric of child b of the node at depth d.
  function Child(p: Problem, reg: nat, mu: real, d: nat, b: bit): real
    requires p.Valid() && d < p.total
  {
    mu + p.Edge(d, U32(2 * reg + b))
  }

  // The first (n == 0) or second best child; the zero bit wins ties.
  function NthBest(p: Problem, reg: nat, mu: real, d: nat, n: nat): bit
    requires p.Valid() && d < p.total
  {
    var better: bit := if Child(p, reg, mu, d, 0) >= Child(p, reg, mu, d, 1) then 0 else 1;
    if n == 0 then better else 1 - better
  }

  // The threshold raised by whole deltas as far as mu allows.
  function Tighten(mu: real, t: real, delta: real): (t': real)
    requires delta > 0.0
    ensures t' >= t && (t' <= mu || t' == t)
    decreases Steps(mu, t, delta)
  {
    if mu - t >= delta then
      StepsFall(mu, t, delta);
      Tighten(mu, t + delta, delta)
    else t
  }

  function Steps(mu: real, t: real, delta: real): nat
    requires delta > 0.0
  {
    var n := ((mu - t) / delta).Floor;
    if n < 0 then 0 else n
  }

  lemma {:induction false} StepsFall(mu: real, t: real, delta: real)
    requires delta > 0.0 && mu - t >= delta
    ensures Steps(mu, t + delta, delta) < Steps(mu, t, delta)
  {
    var x := mu - t;
    var q, r := x / delta, (x - delta) / delta;
    assert q * delta == x && r * delta == x - delta;
    ZeroFactor(q - r - 1.0, delta);
    assert q < 1.0 ==> (1.0 - q) * delta > 0.0;
    assert mu - (t + delta) == x - delta;
  }

  lemma {:induction false} ZeroFactor(a: real, delta: real)
    requires delta > 0.0 && a * delta == 0.0
    ensures a == 0.0
  {
  }

  // One visit of a node short of full depth.
  function Visit(p: Problem, s: Search): (s': Search)
    requires p.Valid() && s.Sized(p) && s.d < p.total
    ensures s'.Sized(p)
  {
    var d, t := s.d, s.t;
    var b := NthBest(p, s.reg[d], s.mu[d], d, s.tried[d]);
    var cm := Child(p, s.reg[d], s.mu[d], d, b);
    if s.tried[d] < 2 && cm >= t then
      Search(s.reg[d + 1 := U32(2 * s.reg[d] + b)], s.mu[d + 1 := cm],
             s.tried[d := s.tried[d] + 1][d + 1 := 0], s.bits[d := b], d + 1, Tighten(cm, t, p.delta))
    else if d > 0 && s.mu[d - 1] >= t then s.(d := d - 1)
    else s.(t := t - p.delta, tried := s.tried[d := 0])
  }

  // The search after n visits; a search that has reached full depth stays there.
  function After(p: Problem, n: nat): (s: Search)
    requires p.Valid()
    ensures s.Sized(p)
  {
    if n == 0 then Start(p)
    else
      var s := After(p, n - 1);
      if s.d == p.total then s else Visit(p, s)
  }

  method RaiseThreshold(mu: real, start: real, delta: real) returns (t: real)
    requires delta > 0.0
    ensures t == Tighten(mu, start, delta)
  {
    t := start;
    while mu - t >= delta
      invariant Tighten(mu, t, delta) == Tighten(mu, start, delta)
      decreases Steps(mu, t, delta)
    {
      StepsFall(mu, t, delta);
      t := t + delta;
    }
  }

  method VisitNode(p: Problem, s: Search) returns (s': Search)
    requires p.Valid() && s.Sized(p) && s.d < p.total
    ensures s' == Visit(p, s)
  {
    hide Tighten, Steps, Parity;
    var d, t := s.d, s.t;
    var reg, mu, tried, bits := s.reg, s.mu, s.tried, s.bits;
    var cm0 := Child(p, reg[d], mu[d], d, 0);
    var cm1 := Child(p, reg[d], mu[d], d, 1);
    var betterBit: bit, betterCm, worseBit: bit, worseCm := 0, cm0, 1, cm1;
    if cm0 < cm1 {
      betterBit, betterCm, worseBit, worseCm := 1, cm1, 0, cm0;
    }
    if tried[d] < 2 {
      var b := if tried[d] == 0 then betterBit else worseBit;
      var childCm := if tried[d] == 0 then betterCm else worseCm;
      if childCm >= t {
        tried := tried[d := tried[d] + 1];
        bits := bits[d := b];
        reg := reg[d + 1 := U32(2 * reg[d] + b)];
        mu := mu[d + 1 := childCm];
        d := d + 1;
        tried := tried[d := 0];
        t := RaiseThreshold(mu[d], t, p.delta);
        return Search(reg, mu, tried, bits, d, t);
      }
    }
    if d > 0 && mu[d - 1] >= t {
      d := d - 1;
    } else {
      t := t - p.delta;
      tried := tried[d := 0];
    }
    s' := Search(reg, mu, tried, bits, d, t);
  }

  // Some path of full depth, or None when the budget runs out first; `nodes` counts visits.
  method FanoDecode(polys: seq<nat>, metrics: seq<BitMetric>, dataLen: nat, delta: real, budget: nat)
    returns (r: Option<seq<bit>>, nodes: nat)
    requires |polys| == 2
    ensures (|metrics| < 2 * (dataLen + TAIL) || delta <= 0.0) ==> r == None
    ensures |metrics| >= 2 * (dataLen + TAIL) && delta > 0.0 ==>
              var p := Problem(polys, metrics, dataLen + TAIL, delta);
              && nodes <= budget + 1
              && (r.Some? <==> budget > 0 && After(p, budget - 1).d == p.total)
              && (r.Some? ==> r.value == After(p, budget - 1).bits[..dataLen])
              && (r.Some? ==> nodes > 0 && After(p, nodes - 1).d == p.total)
              && forall n :: 0 <= n < nodes - 1 ==> After(p, n).d < p.total
  {
    hide Visit;
    var total := dataLen + TAIL;
    if |metrics| < 2 * total || delta <= 0.0 {
      return None, 0;
    }
    var p := Problem(polys, metrics, total, delta);
    var s := Start(p);
    nodes := 0;
    while true
      invariant nodes <= budget && s == After(p, nodes)
      invariant forall n :: 0 <= n < nodes ==> After(p, n).d < p.total
      decreases budget - nodes
    {
      nodes := nodes + 1;
      if nodes > budget {
        return None, nodes;
      }
      if s.d == total {
        Stays(p, nodes - 1, budget - 1);
        return Some(s.bits[..dataLen]), nodes;
      }
      s := VisitNode(p, s);
    }
  }

  // A finished search changes no more.
  lemma {:induction false} Stays(p: Problem, m: nat, n: nat)
    requires p.Valid() && m <= n && After(p, m).d == p.total
    ensures After(p, n) == After(p, m)
  {
    hide Visit, Start;
    if m < n { Stays(p, m, n - 1); }
  }

  // --- what holds in every reachable state ---

  ghost predicate NodeOk(p: Problem, s: Search, j: nat)
    requires p.Valid() && s.Sized(p) && j <= p.total
  {
    s.reg[j] == PathReg(s.bits[..j]) && s.mu[j] == PathSum(p, s.bits[..j])
  }

  ghost predicate EdgeOk(p: Problem, s: Search, j: nat)
    requires p.Valid() && s.Sized(p) && j < p.total
  {
    && 1 <= s.tried[j] <= 2
    && s.bits[j] == NthBest(p, s.reg[j], s.mu[j], j, s.tried[j] - 1)
  }

  ghost predicate Inv(p: Problem, s: Search)
    requires p.Valid()
  {
    && s.Sized(p)
    && s.mu[s.d] >= s.t && s.tried[s.d] <= 2
    && (forall j :: 0 <= j <= s.d ==> NodeOk(p, s, j))
    && (forall j :: 0 <= j < s.d ==> EdgeOk(p, s, j))
  }

  lemma {:induction false} Reachable(p: Problem, n: nat)
    requires p.Valid()
    ensures Inv(p, After(p, n))
  {
    hide Visit, Inv;
    if n == 0 {
      StartOk(p);
    } else {
      Reachable(p, n - 1);
      var s := After(p, n - 1);
      if s.d < p.total { VisitKeeps(p, s); }
    }
  }

  lemma {:induction false} StartOk(p: Problem)
    requires p.Valid()
    ensures Inv(p, Start(p))
  {
    assert Start(p).bits[..0] == [];
    assert NodeOk(p, Start(p), 0);
  }

  lemma {:induction false} TightenBelow(mu: real, t: real, delta: real)
    requires delta > 0.0 && mu >= t
    ensures Tighten(mu, t, delta) <= mu < Tighten(mu, t, delta) + delta
    decreases Steps(mu, t, delta)
  {
    if mu - t >= delta {
      StepsFall(mu, t, delta);
      TightenBelow(mu, t + delta, delta);
    }
  }

  lemma {:induction false} VisitKeeps(p: Problem, s: Search)
    requires p.Valid() && Inv(p, s) && s.d < p.total
    ensures Inv(p, Visit(p, s))
  {
    hide Tighten, NthBest, Child, PathReg, PathSum;
    var d := s.d;
    var b := NthBest(p, s.reg[d], s.mu[d], d, s.tried[d]);
    var cm := Child(p, s.reg[d], s.mu[d], d, b);
    if s.tried[d] < 2 && cm >= s.t {
      ForwardKeeps(p, s, b);
    } else {
      var s' := Visit(p, s);
      assert s'.bits == s.bits && s'.reg == s.reg && s'.mu == s.mu;
      forall j | 0 <= j <= s'.d ensures NodeOk(p, s', j) {
        assert NodeOk(p, s, j);
      }
      forall j | 0 <= j < s'.d ensures EdgeOk(p, s', j) {
        assert EdgeOk(p, s, j);
      }
      if s'.d < d { assert EdgeOk(p, s, d - 1); }
    }
  }

  lemma {:induction false} ForwardKeeps(p: Problem, s: Search, b: bit)
    requires p.Valid() && Inv(p, s) && s.d < p.total && s.tried[s.d] < 2
    requires b == NthBest(p, s.reg[s.d], s.mu[s.d], s.d, s.tried[s.d])
    requires Child(p, s.reg[s.d], s.mu[s.d], s.d, b) >= s.t
    ensures Inv(p, Visit(p, s))
  {
    hide Tighten, NthBest, Child, PathReg, PathSum;
    var d := s.d;
    var cm := Child(p, s.reg[d], s.mu[d], d, b);
    var s' := Visit(p, s);
    TightenBelow(cm, s.t, p.delta);
    forall j | 0 <= j <= d ensures NodeOk(p, s', j) {
      assert s'.bits[..j] == s.bits[..j];
      assert NodeOk(p, s, j);
    }
    assert s'.bits[..d + 1] == s.bits[..d] + [b];
    assert NodeOk(p, s, d);
    Extend(p, s.bits[..d], b);
    forall j | 0 <= j < d + 1 ensures EdgeOk(p, s', j) {
      if j < d { assert EdgeOk(p, s, j); }
    }
  }

  lemma {:induction false} Extend(p: Problem, bits: seq<bit>, b: bit)
    requires p.Valid() && |bits| < p.total
    ensures PathReg(bits + [b]) == U32(2 * PathReg(bits) + b)
    ensures PathSum(p, bits + [b]) == Child(p, PathReg(bits), PathSum(p, bits), |bits|, b)
  {
    hide U32, Parity;
    assert (bits + [b])[..|bits|] == bits;
    RegPush(bits, b);
    WordShift(Reg(bits), b);
  }

  // --- clean input ---

  // The code bit at each position of the path has a non-negative metric, above the other's.
  ghost predicate Clean(p: Problem, path: seq<bit>)
    requires p.Valid()
  {
    |path| == p.total && forall j :: 0 <= j < p.total ==> CleanStep(p, path, j)
  }

  ghost predicate CleanStep(p: Problem, path: seq<bit>, j: nat)
    requires p.Valid() && j < p.total == |path|
  {
    var nr := PathReg(path[..j + 1]);
    && CleanBit(p.metrics[2 * j], Parity(nr, p.polys[0]))
    && CleanBit(p.metrics[2 * j + 1], Parity(nr, p.polys[1]))
  }

  predicate CleanBit(m: BitMetric, c: bit) {
    m.Of(c) >= 0.0 && m.Of(c) > m.Of(1 - c)
  }

  lemma {:induction false} OtherChild(reg: nat, b: bit, poly: nat)
    requires poly % 2 == 1
    ensures Parity(U32(2 * reg + (1 - b)), poly) == 1 - Parity(U32(2 * reg + b), poly)
  {
    hide Parity;
    var x: nat := U32(2 * reg + b) / 2;
    WordEven(reg, 0);
    WordEven(reg, 1);
    FlipNewest(x, poly);
  }

  lemma {:induction false} WordEven(reg: nat, b: bit)
    ensures U32(2 * reg + b) % 2 == b && U32(2 * reg + b) / 2 == U32(2 * reg) / 2
  {
    var w := 0x1_0000_0000;
    var q := reg / 0x8000_0000;
    var r := reg % 0x8000_0000;
    assert 2 * reg + b == q * w + (2 * r + b);
    ModUnique(q, w, 2 * r + b);
    assert 2 * reg == q * w + 2 * r;
    ModUnique(q, w, 2 * r);
  }

  // At a node of the true path the true child is strictly best and not below the node.
  lemma {:induction false} TrueChildBest(p: Problem, path: seq<bit>, j: nat, mu: real)
    requires p.Valid() && p.polys[0] % 2 == 1 && p.polys[1] % 2 == 1
    requires Clean(p, path) && j < p.total
    ensures NthBest(p, PathReg(path[..j]), mu, j, 0) == path[j]
    ensures Child(p, PathReg(path[..j]), mu, j, path[j]) >= mu
  {
    hide U32, Parity;
    var reg, b := PathReg(path[..j]), path[j];
    assert CleanStep(p, path, j);
    assert path[..j + 1] == path[..j] + [b];
    Extend(p, path[..j], b);
    OtherChild(reg, b, p.polys[0]);
    OtherChild(reg, b, p.polys[1]);
  }

  lemma {:induction false} StraightDown(p: Problem, path: seq<bit>, n: nat)
    requires p.Valid() && p.polys[0] % 2 == 1 && p.polys[1] % 2 == 1
    requires Clean(p, path) && n <= p.total
    ensures After(p, n).d == n && After(p, n).bits[..n] == path[..n] && After(p, n).tried[n] == 0
  {
    hide Visit, Clean, NodeOk, EdgeOk;
    if n > 0 {
      StraightDown(p, path, n - 1);
      Reachable(p, n - 1);
      VisitStraight(p, path, n - 1, After(p, n - 1));
    }
  }

  lemma {:induction false} VisitStraight(p: Problem, path: seq<bit>, n: nat, s: Search)
    requires p.Valid() && p.polys[0] % 2 == 1 && p.polys[1] % 2 == 1
    requires Clean(p, path) && n < p.total && Inv(p, s)
    requires s.d == n && s.bits[..n] == path[..n] && s.tried[n] == 0
    ensures var s' := Visit(p, s);
            s'.d == n + 1 && s'.bits[..n + 1] == path[..n + 1] && s'.tried[n + 1] == 0
  {
    hide NthBest, Child, Tighten, PathReg;
    assert NodeOk(p, s, n);
    TrueChildBest(p, path, n, s.mu[n]);
    assert s.bits[n := path[n]][..n + 1] == s.bits[..n] + [path[n]] == path[..n + 1];
  }

  // Clean metrics for the encoding of `data`: the search visits the path once, and returns the
  // data exactly when the budget allows dataLen + 32 visits.
  lemma {:induction false} CleanSearch(polys: seq<nat>, metrics: seq<BitMetric>, data: seq<bit>, delta: real,
                                       budget: nat)
    requires |polys| == 2 && polys[0] % 2 == 1 && polys[1] % 2 == 1
    requires |metrics| >= 2 * (|data| + TAIL) && delta > 0.0
    requires Clean(Problem(polys, metrics, |data| + TAIL, delta), data + Zeros(TAIL))
    ensures var p := Problem(polys, metrics, |data| + TAIL, delta);
            && (forall n :: 0 <= n < p.total ==> After(p, n).d < p.total)
            && (budget > 0 && After(p, budget - 1).d == p.total <==> budget >= |data| + 32)
            && (budget >= |data| + 32 ==> After(p, budget - 1).bits[..|data|] == data)
  {
    hide Clean, After;
    var p := Problem(polys, metrics, |data| + TAIL, delta);
    var path := data + Zeros(TAIL);
    forall n | 0 <= n <= p.total ensures After(p, n).d == n {
      StraightDown(p, path, n);
    }
    StraightDown(p, path, p.total);
    if budget >= |data| + 32 {
      Stays(p, p.total, budget - 1);
      assert After(p, p.total).bits[..p.total][..|data|] == path[..p.total][..|data|] == data;
    }
  }

  // The default code meets the parity condition.
  lemma {:induction false} DefaultCode()
    ensures CODE.Encodes() && |CODE.polys| == 2 && CODE.polys[0] % 2 == 1 && CODE.polys[1] % 2 == 1
  {
  }

  method Encode(data: seq<nat>) returns (out: seq<bit>)
    ensures out == ConvSpec.Stream(CODE.polys, Conv.LowBits(data) + Zeros(TAIL))
  {
    DefaultCode();
    out := Conv.Encode(CODE, data);
  }

  // The better child comes first, and the zero bit on a tie.
  lemma {:induction false} ZeroWinsTies(p: Problem, reg: nat, mu: real, d: nat)
    requires p.Valid() && d < p.total
    ensures NthBest(p, reg, mu, d, 0) == 0 <==> Child(p, reg, mu, d, 0) >= Child(p, reg, mu, d, 1)
    ensures NthBest(p, reg, mu, d, 1) != NthBest(p, reg, mu, d, 0)
    ensures Child(p, reg, mu, d, NthBest(p, reg, mu, d, 0)) >= Child(p, reg, mu, d, NthBest(p, reg, mu, d, 1))
  {
    hide Child;
  }

  // The sum of the metrics of the first n code bits.
  function CodeMetric(c: seq<bit>, metrics: seq<BitMetric>, n: nat): real
    requires n <= |c| && n <= |metrics|
  {
    if n == 0 then 0.0
    else CodeMetric(c, metrics, n - 1) + (if c[n - 1] == 0 then metrics[n - 1].zero else metrics[n - 1].one)
  }

  // A path's metric is that of the code bits the encoder puts out for it.
  lemma {:induction false} PathSumIsCodeMetric(p: Problem, path: seq<bit>, j: nat)
    requires p.Valid() && ConvSpec.Words(p.polys) && j <= |path| <= p.total
    ensures |ConvSpec.Stream(p.polys, path)| >= 2 * j
    ensures PathSum(p, path[..j]) == CodeMetric(ConvSpec.Stream(p.polys, path), p.metrics, 2 * j)
  {
    hide PathReg, Parity, ConvSpec.Stream;
    if j > 0 {
      PathSumIsCodeMetric(p, path, j - 1);
      PathSymbols(p.polys, path, j - 1);
      assert path[..j][..j - 1] == path[..j - 1];
      var c := ConvSpec.Stream(p.polys, path);
      assert CodeMetric(c, p.metrics, 2 * j)
          == CodeMetric(c, p.metrics, 2 * j - 1) + p.metrics[2 * j - 1].Of(c[2 * j - 1]);
      assert CodeMetric(c, p.metrics, 2 * j - 1)
          == CodeMetric(c, p.metrics, 2 * (j - 1)) + p.metrics[2 * (j - 1)].Of(c[2 * (j - 1)]);
    }
  }

  // The symbols the search compares with are those of the encoder.
  lemma {:induction false} PathSymbols(polys: seq<nat>, path: seq<bit>, j: nat)
    requires ConvSpec.Words(polys) && |polys| == 2 && j < |path|
    ensures |ConvSpec.Stream(polys, path)| >= 2 * j + 2
    ensures Parity(PathReg(path[..j + 1]), polys[0]) == ConvSpec.Stream(polys, path)[2 * j]
    ensures Parity(PathReg(path[..j + 1]), polys[1]) == ConvSpec.Stream(polys, path)[2 * j + 1]
  {
    hide U32, Parity, ConvSpec.Stream, Reg;
    var reg := Reg(path[..j + 1]);
    ConvTheorems.StreamAt(polys, path, j, 0);
    ConvTheorems.StreamAt(polys, path, j, 1);
    CellsIsProduct(j, 2);
    Conv.SymbolsOfWord(polys, reg);
    assert ConvSpec.Symbols(polys, U32(reg))[0] == ConvSpec.Symbols(polys, reg)[0];
    assert ConvSpec.Symbols(polys, U32(reg))[1] == ConvSpec.Symbols(polys, reg)[1];
  }

  // Metrics that favour every bit of the encoder's output are clean.
  lemma {:induction false} CleanCodeword(p: Problem, path: seq<bit>)
    requires p.Valid() && ConvSpec.Words(p.polys) && |path| == p.total
    requires var c := ConvSpec.Stream(p.polys, path);
             forall i :: 0 <= i < |c| && i < |p.metrics| ==> CleanBit(p.metrics[i], c[i])
    ensures Clean(p, path)
  {
    hide PathReg, Parity, CleanBit, ConvSpec.Stream;
    forall j | 0 <= j < p.total ensures CleanStep(p, path, j) {
      PathSymbols(p.polys, path, j);
    }
  }
}
