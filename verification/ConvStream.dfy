/**
 The endless-stream decoder: a ring of `depth` survivor rows, metrics renormalised at every
 step. `history` is every soft value ever pushed; all of its contracts speak of the paths
 through that whole history.
 */
module ConvStream {
  import opened Bits
  import opened ConvSpec
  import opened Conv
  import opened ConvSurvivors
  import opened Options

  // p is an input string of length t that no other of that length beats on h.
  ghost predicate Best(code: ConvCode, t: nat, h: Blocks, p: seq<bit>)
    requires code.Valid() && Sized(h, t, |code.polys|)
  {
    && |p| == t
    && forall q: seq<bit> {:trigger PathMetric(code.polys, q, h)} ::
         |q| == t ==> PathMetric(code.polys, q, h) <= PathMetric(code.polys, p, h)
  }

  method LargestMetric(metric: seq<Metric>) returns (best: Metric)
    ensures forall s :: 0 <= s < |metric| ==> !Greater(metric[s], best)
    ensures best.Fin? ==> best in metric
  {
    best := NegInf;
    for s := 0 to |metric|
      invariant forall i :: 0 <= i < s ==> !Greater(metric[i], best)
      invariant best.Fin? ==> best in metric
    {
      if Greater(metric[s], best) { best := metric[s]; }
    }
  }

  // The last state with a largest metric.
  method BestState(metric: seq<Metric>) returns (s: nat)
    requires |metric| > 0
    ensures s < |metric| && forall i :: 0 <= i < |metric| ==> !Greater(metric[i], metric[s])
    ensures forall i :: s < i < |metric| ==> Greater(metric[s], metric[i])
  {
    s := 0;
    for i := 1 to |metric|
      invariant s < i && forall j :: 0 <= j < i ==> !Greater(metric[j], metric[s])
      invariant forall j :: s < j < i ==> Greater(metric[s], metric[j])
    {
      if !Greater(metric[s], metric[i]) { s := i; }
    }
  }

  method RingBack(ring: nat, depth: nat) returns (r: nat)
    requires ring < depth
    ensures r == if ring == 0 then depth - 1 else ring - 1
  {
    ModRange(ring + depth - 1, depth);
    r := (ring + depth - 1) % depth;
  }

  // Two of the last `depth` steps never share a ring row.
  lemma {:induction false} RingDistinct(x: nat, y: nat, depth: nat)
    requires depth > 0 && x < y < x + depth
    ensures RingPos(x, depth) != RingPos(y, depth)
    ensures RingPos(y, depth) == RingPos(x, depth) + (y - x)
            || RingPos(y, depth) == RingPos(x, depth) + (y - x) - depth
  {
    if y > x + 1 { RingDistinct(x, y - 1, depth); }
  }

  // Row `RingPos(i)` of the ring holds step i.
  ghost predicate RingRow(hist: seq<Paths>, bits: seq<bit>, prevs: seq<nat>, depth: nat, states: nat, i: nat)
    requires depth > 0 && i + 1 < |hist|
  {
    Linked(hist[i], hist[i + 1], Row(bits, states, RingPos(i, depth)), Row(prevs, states, RingPos(i, depth)))
  }

  // Every step still in the ring is recorded there.
  ghost predicate Recorded(hist: seq<Paths>, bits: seq<bit>, prevs: seq<nat>, depth: nat, states: nat, t: nat) {
    && depth > 0 && |bits| == |prevs| == Cells(depth, states) && |hist| == t + 1
    && forall i :: 0 <= i < t < i + 1 + depth ==> RingRow(hist, bits, prevs, depth, states, i)
  }

  lemma {:induction false} RecordedSizes(hist: seq<Paths>, bits: seq<bit>, prevs: seq<nat>, depth: nat, states: nat,
                                         t: nat)
    requires Recorded(hist, bits, prevs, depth, states, t)
    ensures depth > 0 && |bits| == |prevs| == Cells(depth, states) && |hist| == t + 1
  {
  }

  lemma {:induction false} RingGrows(hist: seq<Paths>, paths: Paths, bits: seq<bit>, prevs: seq<nat>,
                                     bits': seq<bit>, prevs': seq<nat>, depth: nat, states: nat, t: nat)
    requires Recorded(hist, bits, prevs, depth, states, t) && |bits'| == |prevs'| == |bits|
    requires Linked(hist[t], paths, Row(bits', states, RingPos(t, depth)), Row(prevs', states, RingPos(t, depth)))
    requires forall i :: 0 <= i < depth && i != RingPos(t, depth) ==> SameRow(bits, bits', states, i)
    requires forall i :: 0 <= i < depth && i != RingPos(t, depth) ==> SameRow(prevs, prevs', states, i)
    ensures Recorded(hist + [paths], bits', prevs', depth, states, t + 1)
  {
    forall i | 0 <= i < t + 1 < i + 1 + depth
      ensures RingRow(hist + [paths], bits', prevs', depth, states, i)
    {
      if i < t {
        assert RingRow(hist, bits, prevs, depth, states, i);
        RingDistinct(i, t, depth);
        assert SameRow(bits, bits', states, RingPos(i, depth)) && SameRow(prevs, prevs', states, RingPos(i, depth));
      }
    }
  }

  // Follow the survivor p of state s back through the ring and return its oldest bit.
  method WalkBack(bitAt: array<bit>, prevAt: array<nat>, depth: nat, states: nat, pos: nat, s: nat,
                  ghost hist: seq<Paths>, ghost t: nat, ghost p: seq<bit>)
    returns (oldest: bit)
    requires Recorded(hist, bitAt[..], prevAt[..], depth, states, t) && t >= depth && pos == RingPos(t, depth)
    requires |p| == t && s < states == |hist[t]| && hist[t][s] == Some(p)
    ensures oldest == p[t - depth]
  {
    var ring := RingBack(pos, depth);
    var state: nat := s;
    oldest := 0;
    assert p[..t] == p;
    for i := 0 to depth
      invariant state < states == |hist[t - i]| && hist[t - i][state] == Some(p[..t - i])
      invariant i < depth ==> ring == RingPos(t - 1 - i, depth)
      invariant i > 0 ==> oldest == p[t - i]
    {
      assert RingRow(hist, bitAt[..], prevAt[..], depth, states, t - 1 - i);
      FollowBack(hist[t - 1 - i], hist[t - i], bitAt[..], prevAt[..], states, ring, depth, state, p, t - 1 - i);
      var idx := Cells(ring, states) + state;
      oldest := bitAt[idx];
      state := prevAt[idx];
      ring := RingBack(ring, depth);
    }
  }

  class StreamingViterbi {
    const code: ConvCode
    const states: nat
    const depth: nat
    var metric: seq<Metric>
    const bitAt: array<bit>
    const prevAt: array<nat>
    var pos: nat
    var filled: nat
    var totalMetric: real
    ghost var history: Blocks
    ghost var t: nat // steps pushed
    ghost var hist: seq<Paths>

    ghost predicate Valid()
      reads this, bitAt, prevAt
    {
      && code.Valid() && states == code.States() && depth >= 1
      && bitAt.Length == prevAt.Length == Cells(depth, states)
      && pos == RingPos(t, depth) && filled == (if t < depth then t else depth)
      && Sized(history, t, |code.polys|)
      && Recorded(hist, bitAt[..], prevAt[..], depth, states, t)
      && Survivors(code, t, history, metric, totalMetric, hist[t])
      && Fin(0.0) in metric && (forall s :: 0 <= s < |metric| ==> !Greater(metric[s], Fin(0.0)))
    }

    constructor (code: ConvCode, traceback: nat)
      requires code.Valid()
      ensures Valid() && this.code == code && depth == (if traceback > 1 then traceback else 1)
      ensures t == 0 && history == [] && fresh(bitAt) && fresh(prevAt)
    {
      var states := code.States();
      var depth := if traceback > 1 then traceback else 1;
      this.code, this.states, this.depth := code, states, depth;
      var metric := seq(states, s => if s == 0 then Fin(0.0) else NegInf);
      this.metric := metric;
      bitAt := new bit[Cells(depth, states)](_ => 0);
      prevAt := new nat[Cells(depth, states)](_ => 0);
      pos, filled, totalMetric := 0, 0, 0.0;
      history, t := [], 0;
      ghost var start: Paths := seq(states, s => if s == 0 then Some([]) else None);
      hist := [start];
      SurvivorsStart(code, metric, start);
      assert metric[0] == Fin(0.0);
    }

    // The confidence score is the metric of the best of all paths, whatever was subtracted on the way.
    lemma {:induction false} TotalMetricIsBest()
      requires Valid()
      ensures exists p :: Best(code, t, history, p) && totalMetric == PathMetric(code.polys, p, history)
      ensures forall p :: Best(code, t, history, p) ==> totalMetric == PathMetric(code.polys, p, history)
    {
      var s :| 0 <= s < |metric| && metric[s] == Fin(0.0);
      var p := BestSurvivor(code, t, history, metric, totalMetric, hist[t], s);
      assert Best(code, t, history, p);
    }

    // Enter the new metrics and advance the ring.
    method Commit(next: seq<Metric>, best: real, ghost l: seq<real>, ghost paths: Paths)
      requires code.Valid() && states == code.States() && depth > 0
      requires pos == RingPos(t, depth) && filled == (if t < depth then t else depth)
      requires Sized(history + [l], t + 1, |code.polys|) && |hist| == t + 1
      requires Recorded(hist + [paths], bitAt[..], prevAt[..], depth, states, t + 1)
      requires Survivors(code, t + 1, history + [l], next, totalMetric + best, paths)
      requires Fin(0.0) in next && forall s :: 0 <= s < |next| ==> !Greater(next[s], Fin(0.0))
      modifies this
      ensures Valid() && t == old(t) + 1 && history == old(history) + [l]
    {
      hide Survivors, Recorded, Cells;
      ghost var bits, prevs := bitAt[..], prevAt[..];
      RecordedSizes(hist + [paths], bits, prevs, depth, states, t + 1);
      pos := RingForward(pos, depth);
      metric, totalMetric := next, totalMetric + best;
      filled := if filled + 1 < depth then filled + 1 else depth;
      history, t, hist := history + [l], t + 1, hist + [paths];
      assert bitAt[..] == bits && prevAt[..] == prevs && hist[t] == paths;
    }

    // Add, compare, select, renormalise, and advance the ring.
    method Absorb(llrs: seq<real>)
      requires Valid() && |llrs| == |code.polys|
      modifies this, bitAt, prevAt
      ensures Valid() && t == old(t) + 1 && history == old(history) + [llrs]
    {
      ghost var bits: seq<bit> := bitAt[..];
      ghost var prevs: seq<nat> := prevAt[..];
      var next, best;
      ghost var paths;
      next, paths := TrellisStep(code, metric, llrs, bitAt, prevAt, pos, depth, t, history, totalMetric, hist[t]);
      RingGrows(hist, paths, bits, prevs, bitAt[..], prevAt[..], depth, states, t);
      next, best := Renormalise(code, next, t + 1, history + [llrs], totalMetric, paths);
      Commit(next, best, llrs, paths);
    }

    method Push(llrs: seq<real>) returns (r: Option<bit>)
      requires Valid() && |llrs| == |code.polys|
      modifies this, bitAt, prevAt
      ensures Valid() && t == old(t) + 1 && history == old(history) + [llrs]
      ensures r.None? <==> t < depth
      ensures r.Some? ==> exists p :: Best(code, t, history, p) && r.value == p[t - depth]
    {
      Absorb(llrs);
      if filled < depth {
        return None;
      }
      var s := BestState(metric);
      ghost var p := BestSurvivor(code, t, history, metric, totalMetric, hist[t], s);
      var oldest := WalkBack(bitAt, prevAt, depth, states, pos, s, hist, t, p);
      r := Some(oldest);
    }
  }

  lemma {:induction false} SomeStateReached(code: ConvCode, t: nat, h: Blocks, metric: seq<Metric>, off: real,
                                            paths: Paths)
    requires code.Valid() && Sized(h, t, |code.polys|)
    requires Survivors(code, t, h, metric, off, paths)
    ensures exists s :: 0 <= s < |metric| && metric[s].Fin?
  {
    assert NotAbove(code, Zeros(t), h, metric, off);
  }

  // Subtract the largest metric from every finite one. Some state is always reached, so it is finite.
  method Renormalise(code: ConvCode, next: seq<Metric>,
                     ghost t: nat, ghost h: Blocks, ghost off: real, ghost paths: Paths)
    returns (metric: seq<Metric>, best: real)
    requires code.Valid() && Sized(h, t, |code.polys|) && Survivors(code, t, h, next, off, paths)
    ensures Survivors(code, t, h, metric, off + best, paths)
    ensures Fin(0.0) in metric && forall s :: 0 <= s < |metric| ==> !Greater(metric[s], Fin(0.0))
  {
    var top := LargestMetric(next);
    SomeStateReached(code, t, h, next, off, paths);
    best := top.v;
    metric := seq(|next|, s requires 0 <= s < |next| => if next[s].Fin? then Fin(next[s].v - best) else NegInf);
    SurvivorsRenormalise(code, t, h, next, off, paths, best, metric);
    ghost var s :| 0 <= s < |next| && next[s] == top;
    assert metric[s] == Fin(0.0);
  }

  // The survivor of a state with the largest metric is a best path of all.
  lemma {:induction false} BestSurvivor(code: ConvCode, t: nat, h: Blocks, metric: seq<Metric>, off: real,
                                        paths: Paths, s: nat)
    returns (p: seq<bit>)
    requires code.Valid() && Sized(h, t, |code.polys|)
    requires Survivors(code, t, h, metric, off, paths)
    requires s < |metric| && forall i :: 0 <= i < |metric| ==> !Greater(metric[i], metric[s])
    ensures metric[s].Fin? && paths[s] == Some(p)
    ensures Best(code, t, h, p) && PathMetric(code.polys, p, h) == metric[s].v + off
  {
    SomeStateReached(code, t, h, metric, off, paths);
    assert Reaches(code, t, h, s, metric[s], off, paths[s]);
    p := paths[s].value;
    forall q: seq<bit> | |q| == t
      ensures PathMetric(code.polys, q, h) <= PathMetric(code.polys, p, h)
    {
      assert NotAbove(code, q, h, metric, off);
    }
  }
}
