/**
 The zero-terminated block decoder.
 */
module ConvBlock {
  import opened Bits
  import opened ConvSpec
  import opened Conv
  import opened ConvSurvivors
  import opened Options

  // No block of the same length correlates better with the soft values than `out` does.
  ghost predicate MaximumLikelihood(code: ConvCode, llrs: seq<real>, out: seq<bit>)
    requires code.Valid() && |llrs| == Cells(|out| + code.k - 1, |code.polys|)
  {
    forall d: seq<bit> {:trigger Codeword(code, d)} :: |d| == |out| ==>
      Corr(Codeword(code, d), llrs) <= Corr(Codeword(code, out), llrs)
  }

  // The first t rows of the tables record how each survivor extends an earlier one.
  ghost predicate Chain(hist: seq<Paths>, bits: seq<bit>, prevs: seq<nat>, states: nat, t: nat) {
    && |hist| == t + 1
    && forall i :: 0 <= i < t ==> ChainLink(hist, bits, prevs, states, i)
  }

  ghost predicate ChainLink(hist: seq<Paths>, bits: seq<bit>, prevs: seq<nat>, states: nat, i: nat)
    requires i + 1 < |hist|
  {
    Linked(hist[i], hist[i + 1], Row(bits, states, i), Row(prevs, states, i))
  }

  lemma {:induction false} ChainGrows(hist: seq<Paths>, paths: Paths, bits: seq<bit>, prevs: seq<nat>,
                                      bits': seq<bit>, prevs': seq<nat>,
                                      states: nat, t: nat)
    requires Chain(hist, bits, prevs, states, t)
    requires Linked(hist[t], paths, Row(bits', states, t), Row(prevs', states, t))
    requires forall i :: 0 <= i < t ==> SameRow(bits, bits', states, i) && SameRow(prevs, prevs', states, i)
    ensures Chain(hist + [paths], bits', prevs', states, t + 1)
  {
    forall i | 0 <= i < t + 1
      ensures ChainLink(hist + [paths], bits', prevs', states, i)
    {
      if i < t {
        assert ChainLink(hist, bits, prevs, states, i);
        assert SameRow(bits, bits', states, i) && SameRow(prevs, prevs', states, i);
      }
    }
  }

  // Follow the recorded predecessors back from state 0.
  method TraceBack(states: nat, steps: nat, bitAt: array<bit>, prevAt: array<nat>, ghost hist: seq<Paths>)
    returns (out: seq<bit>)
    requires states > 0 && bitAt.Length == prevAt.Length == Cells(steps, states)
    requires Chain(hist, bitAt[..], prevAt[..], states, steps)
    requires |hist[steps]| == states && hist[steps][0].Some? && |hist[steps][0].value| == steps
    ensures out == hist[steps][0].value
  {
    ghost var best := hist[steps][0].value;
    assert best[..steps] == best;
    out := seq(steps, _ => 0);
    var s: nat := 0;
    var t: nat := steps;
    while t > 0
      invariant 0 <= t <= steps && |out| == steps && s < states
      invariant |hist[t]| == states && hist[t][s] == Some(best[..t])
      invariant out[t..] == best[t..]
    {
      t := t - 1;
      assert ChainLink(hist, bitAt[..], prevAt[..], states, t);
      FollowBack(hist[t], hist[t + 1], bitAt[..], prevAt[..], states, t, steps, s, best, t);
      out := out[t := bitAt[Cells(t, states) + s]];
      s := prevAt[Cells(t, states) + s];
    }
    assert out[0..] == out && best[0..] == best;
  }

  // Run the trellis over all steps, filling one row of the tables at each.
  method Sweep(code: ConvCode, llrs: seq<real>, steps: nat, bitAt: array<bit>, prevAt: array<nat>)
    returns (metric: seq<Metric>, ghost hist: seq<Paths>)
    requires code.Valid() && |llrs| == Cells(steps, |code.polys|)
    requires bitAt.Length == prevAt.Length == Cells(steps, code.States())
    modifies bitAt, prevAt
    ensures Chain(hist, bitAt[..], prevAt[..], code.States(), steps)
    ensures Survivors(code, steps, Chunks(llrs, |code.polys|, steps), metric, 0.0, hist[steps])
  {
    var n := |code.polys|;
    var states := code.States();
    metric := seq(states, s => if s == 0 then Fin(0.0) else NegInf);
    hist := [seq(states, s => if s == 0 then Some([]) else None)];
    SurvivorsStart(code, metric, hist[0]);
    for t := 0 to steps
      invariant Cells(t, n) <= |llrs|
      invariant Chain(hist, bitAt[..], prevAt[..], states, t)
      invariant Survivors(code, t, Chunks(llrs, n, t), metric, 0.0, hist[t])
    {
      CellsMonotone(t + 1, steps, n);
      ghost var bits: seq<bit> := bitAt[..];
      ghost var prevs: seq<nat> := prevAt[..];
      var l := llrs[Cells(t, n)..Cells(t, n) + n];
      ghost var paths;
      metric, paths := TrellisStep(code, metric, l, bitAt, prevAt, t, steps, t, Chunks(llrs, n, t), 0.0, hist[t]);
      ChainGrows(hist, paths, bits, prevs, bitAt[..], prevAt[..], states, t);
      hist := hist + [paths];
    }
  }

  method ViterbiDecode(code: ConvCode, llrs: seq<real>, dataLen: nat) returns (out: seq<bit>)
    requires code.Valid() && |llrs| == Cells(dataLen + code.k - 1, |code.polys|)
    ensures |out| == dataLen && MaximumLikelihood(code, llrs, out)
  {
    var states := code.States();
    var steps := dataLen + code.k - 1;
    var bitAt := new bit[Cells(steps, states)](_ => 0);
    var prevAt := new nat[Cells(steps, states)](_ => 0);
    var metric;
    ghost var hist;
    metric, hist := Sweep(code, llrs, steps, bitAt, prevAt);
    ZeroStateReached(code, dataLen, Chunks(llrs, |code.polys|, steps), metric, hist[steps]);
    var path := TraceBack(states, steps, bitAt, prevAt, hist);
    out := path[..dataLen];
    BestBlock(code, dataLen, llrs, metric, hist[steps]);
  }

  // The zero tail leads every block back to state 0.
  lemma {:induction false} TailEndsInZero(code: ConvCode, d: seq<bit>)
    requires code.Valid()
    ensures StateOf(code, d + Zeros(code.k - 1)) == 0
  {
    ZeroTailClears(d, code.k - 1);
  }

  lemma {:induction false} ZeroStateReached(code: ConvCode, dataLen: nat, h: Blocks, metric: seq<Metric>, paths: Paths)
    requires code.Valid() && Sized(h, dataLen + code.k - 1, |code.polys|)
    requires Survivors(code, dataLen + code.k - 1, h, metric, 0.0, paths)
    ensures paths[0].Some? && |paths[0].value| == dataLen + code.k - 1
  {
    var q := Zeros(dataLen) + Zeros(code.k - 1);
    TailEndsInZero(code, Zeros(dataLen));
    assert NotAbove(code, q, h, metric, 0.0);
    assert Reaches(code, dataLen + code.k - 1, h, 0, metric[0], 0.0, paths[0]);
  }

  // The survivor of state 0 is a data block with its zero tail, and no block correlates better.
  lemma {:induction false} BestBlock(code: ConvCode, dataLen: nat, llrs: seq<real>, metric: seq<Metric>, paths: Paths)
    requires code.Valid() && |llrs| == Cells(dataLen + code.k - 1, |code.polys|)
    requires Survivors(code, dataLen + code.k - 1, Chunks(llrs, |code.polys|, dataLen + code.k - 1), metric, 0.0, paths)
    requires paths[0].Some? && |paths[0].value| == dataLen + code.k - 1
    ensures MaximumLikelihood(code, llrs, paths[0].value[..dataLen])
  {
    hide Corr, Stream, Low, Reg, Symbols;
    var h := Chunks(llrs, |code.polys|, dataLen + code.k - 1);
    assert Reaches(code, dataLen + code.k - 1, h, 0, metric[0], 0.0, paths[0]);
    SurvivorIsBlock(code, dataLen, paths[0].value);
    BlockCorrelation(code, paths[0].value[..dataLen], llrs);
    forall d: seq<bit> | |d| == dataLen
      ensures Corr(Codeword(code, d), llrs) <= metric[0].v
    {
      BlockNotAbove(code, d, llrs, metric, paths);
    }
  }

  lemma {:induction false} BlockNotAbove(code: ConvCode, d: seq<bit>, llrs: seq<real>, metric: seq<Metric>,
                                         paths: Paths)
    requires code.Valid() && |llrs| == Cells(|d| + code.k - 1, |code.polys|)
    requires Survivors(code, |d| + code.k - 1, Chunks(llrs, |code.polys|, |d| + code.k - 1), metric, 0.0, paths)
    ensures metric[0].Fin? && Corr(Codeword(code, d), llrs) <= metric[0].v
  {
    hide Corr, Stream, Low, Reg, Symbols;
    TailEndsInZero(code, d);
    BlockCorrelation(code, d, llrs);
    assert NotAbove(code, d + Zeros(code.k - 1), Chunks(llrs, |code.polys|, |d| + code.k - 1), metric, 0.0);
  }

  lemma {:induction false} SurvivorIsBlock(code: ConvCode, dataLen: nat, p: seq<bit>)
    requires code.Valid() && |p| == dataLen + code.k - 1 && StateOf(code, p) == 0
    ensures p == p[..dataLen] + Zeros(code.k - 1)
  {
    ZeroTail(p, code.k - 1);
  }

  lemma {:induction false} BlockCorrelation(code: ConvCode, d: seq<bit>, llrs: seq<real>)
    requires code.Valid() && |llrs| == Cells(|d| + code.k - 1, |code.polys|)
    ensures PathMetric(code.polys, d + Zeros(code.k - 1), Chunks(llrs, |code.polys|, |d| + code.k - 1))
            == Corr(Codeword(code, d), llrs)
  {
    PathMetricIsCorrelation(code.polys, d + Zeros(code.k - 1), llrs);
    assert llrs[..|llrs|] == llrs;
  }
}
