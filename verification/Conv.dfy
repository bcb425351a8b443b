/**
 The convolutional coder and the two Viterbi decoders: one for zero-terminated blocks,
 one for an endless stream (ring of survivors, renormalised metrics).
 */
module Conv {
  import opened Bits
  import opened ConvSpec

  // A path metric, or the "minus infinity" of a state no path reaches.
  datatype Metric = NegInf | Fin(v: real)

  predicate Greater(a: Metric, b: Metric) {
    a.Fin? && (b.NegInf? || a.v > b.v)
  }

  // --- encoders ---

  method PushSymbols(polys: seq<nat>, reg: nat, out: seq<bit>) returns (r: seq<bit>)
    ensures r == out + Symbols(polys, reg)
  {
    r := out;
    for j := 0 to |polys|
      invariant r == out + Symbols(polys, reg)[..j]
    {
      r := r + [Parity(reg, polys[j])];
    }
  }

  lemma {:induction false} SymbolsOfWord(polys: seq<nat>, reg: nat)
    requires Words(polys)
    ensures Symbols(polys, U32(reg)) == Symbols(polys, reg)
  {
    var word: nat :| word == 32;
    Pow2Of32(word);
    forall j | 0 <= j < |polys|
      ensures Parity(U32(reg), polys[j]) == Parity(reg, polys[j])
    {
      AndWord(reg, polys[j], word);
    }
  }

  // The codes of the decoders are among them.
  lemma {:induction false} ValidEncodes(code: ConvCode)
    requires code.Valid()
    ensures code.Encodes()
  {
    var word: nat :| word == 32;
    Pow2Monotone(code.k, word);
    Pow2Of32(word);
  }

  lemma {:induction false} NoInput()
    ensures U32(Reg([])) == 0
  {
  }

  function LowBits(data: seq<nat>): (r: seq<bit>)
    ensures |r| == |data|
  {
    seq(|data|, i requires 0 <= i < |data| => data[i] % 2)
  }

  method Encode(code: ConvCode, data: seq<nat>) returns (out: seq<bit>)
    requires code.Encodes()
    ensures out == Codeword(code, LowBits(data))
    ensures (forall i :: 0 <= i < |data| ==> data[i] < 2) ==> out == Codeword(code, data)
  {
    hide Parity, U32;
    var reg := 0;
    out := [];
    var flushed := data + seq(code.k - 1, _ => 0);
    ghost var input := LowBits(data) + Zeros(code.k - 1);
    assert reg == U32(Reg(input[..0])) by { NoInput(); }
    for i := 0 to |flushed|
      invariant reg == U32(Reg(input[..i]))
      invariant out == Stream(code.polys, input[..i])
    {
      var b: bit := flushed[i] % 2;
      assert input[..i + 1][..i] == input[..i] && input[i] == b;
      WordShift(Reg(input[..i]), b);
      reg := U32(2 * reg + b);
      SymbolsOfWord(code.polys, Reg(input[..i + 1]));
      out := PushSymbols(code.polys, reg, out);
    }
    assert input[..|flushed|] == input;
    if forall i :: 0 <= i < |data| ==> data[i] < 2 { BitsAreLow(data); }
  }

  lemma {:induction false} BitsAreLow(d: seq<bit>)
    ensures LowBits(d) == d
  {
  }

  /** The streaming encoder: one bit at a time, never terminated. */
  class ConvEncoder {
    const code: ConvCode
    var reg: nat
    ghost var input: seq<bit> // everything encoded since the last reset

    ghost predicate Valid()
      reads this
    {
      Words(code.polys) && reg == U32(Reg(input))
    }

    constructor (code: ConvCode)
      requires Words(code.polys)
      ensures Valid() && this.code == code && input == []
    {
      this.code, reg, input := code, 0, [];
    }

    method Encode(b: nat, out: seq<bit>) returns (r: seq<bit>)
      requires Valid()
      modifies this
      ensures Valid() && input == old(input) + [b % 2]
      ensures out == Stream(code.polys, old(input)) ==> r == Stream(code.polys, input)
      ensures r == out + Symbols(code.polys, Reg(input))
    {
      hide U32, Parity, Symbols;
      WordShift(Reg(input), b % 2);
      reg := U32(2 * reg + b % 2);
      input := input + [b % 2];
      assert input[..|input| - 1] == old(input);
      SymbolsOfWord(code.polys, Reg(input));
      r := PushSymbols(code.polys, reg, out);
    }

    method Reset()
      requires Valid()
      modifies this
      ensures Valid() && input == []
    {
      reg, input := 0, [];
    }
  }

  // --- one trellis step ---

  method BranchMetric(code: ConvCode, r: nat, llrs: seq<real>) returns (branch: real)
    requires |llrs| == |code.polys|
    ensures branch == Branch(code.polys, r, llrs)
  {
    branch := 0.0;
    var n := |code.polys|;
    ghost var sym := Symbols(code.polys, r);
    for j := 0 to n
      invariant branch == Corr(sym[..j], llrs[..j])
    {
      var codeBit := Parity(r, code.polys[j]);
      branch := branch + (if codeBit == 0 then llrs[j] else -llrs[j]);
      assert sym[..j + 1][..j] == sym[..j] && llrs[..j + 1][..j] == llrs[..j];
    }
    assert sym[..n] == sym && llrs[..n] == llrs;
  }

  // Every live edge r is considered, and each state's new metric is won by the recorded edge.
  ghost predicate Selected(code: ConvCode, metric: seq<Metric>, llrs: seq<real>, limit: nat,
                           next: seq<Metric>, bits: seq<bit>, prevs: seq<nat>)
    requires code.Valid() && |llrs| == |code.polys|
    requires |metric| == |next| == |bits| == |prevs| == code.States()
    requires limit <= 2 * code.States()
  {
    && (forall r :: 0 <= r < limit ==> Covered(code, metric, llrs, next, r))
    && (forall ns :: 0 <= ns < |next| && next[ns].Fin? ==>
          Wins(code, metric, llrs, limit, next[ns].v, ns, prevs[ns], bits[ns]))
  }

  // The candidate of edge r, if its state is live, does not beat what it competes for.
  ghost predicate Covered(code: ConvCode, metric: seq<Metric>, llrs: seq<real>, next: seq<Metric>, r: nat)
    requires code.Valid() && |llrs| == |code.polys| && |metric| == |next| == code.States()
    requires r < 2 * code.States()
  {
    metric[r / 2].Fin? ==>
      !Greater(Fin(metric[r / 2].v + Branch(code.polys, r, llrs)), next[code.Into(r)])
  }

  ghost predicate Wins(code: ConvCode, metric: seq<Metric>, llrs: seq<real>, limit: nat,
                       v: real, ns: nat, prev: nat, b: bit)
    requires code.Valid() && |llrs| == |code.polys| && |metric| == code.States()
  {
    && prev < code.States()
    && 2 * prev + b < limit
    && code.Into(2 * prev + b) == ns
    && metric[prev].Fin?
    && v == metric[prev].v + Branch(code.polys, 2 * prev + b, llrs)
  }

  // One edge of the trellis: state s, input bit b.
  method Consider(code: ConvCode, metric: seq<Metric>, llrs: seq<real>, s: nat, b: bit, next: seq<Metric>,
                  bitAt: array<bit>, prevAt: array<nat>, base: nat)
    returns (next': seq<Metric>)
    requires code.Valid() && |llrs| == |code.polys| && |metric| == |next| == code.States()
    requires bitAt.Length == prevAt.Length && base + code.States() <= bitAt.Length
    requires s < code.States() && metric[s].Fin?
    requires Selected(code, metric, llrs, 2 * s + b, next,
                      bitAt[base..base + code.States()], prevAt[base..base + code.States()])
    modifies bitAt, prevAt
    ensures |next'| == |next|
    ensures Selected(code, metric, llrs, 2 * s + b + 1, next',
                     bitAt[base..base + code.States()], prevAt[base..base + code.States()])
    ensures var ns, cand := code.Into(2 * s + b), Fin(metric[s].v + Branch(code.polys, 2 * s + b, llrs));
            if Greater(cand, next[ns]) then
              && next' == next[ns := cand]
              && bitAt[..] == old(bitAt[..])[base + ns := b] && prevAt[..] == old(prevAt[..])[base + ns := s]
            else next' == next && bitAt[..] == old(bitAt[..]) && prevAt[..] == old(prevAt[..])
  {
    ghost var bits: seq<bit> := bitAt[base..base + code.States()];
    ghost var prevs: seq<nat> := prevAt[base..base + code.States()];
    var reg := 2 * s + b;
    var ns := code.Into(reg);
    var branch := BranchMetric(code, reg, llrs);
    var cand := Fin(metric[s].v + branch);
    if Greater(cand, next[ns]) {
      Improve(code, metric, llrs, s, b, next, bits, prevs);
      next' := next[ns := cand];
      bitAt[base + ns] := b;
      prevAt[base + ns] := s;
      assert bitAt[base..base + code.States()] == bits[ns := b];
      assert prevAt[base..base + code.States()] == prevs[ns := s];
    } else {
      Keep(code, metric, llrs, s, b, next, bits, prevs);
      next' := next;
    }
  }

  method AddCompareSelect(code: ConvCode, metric: seq<Metric>, llrs: seq<real>,
                          bitAt: array<bit>, prevAt: array<nat>, base: nat)
    returns (next: seq<Metric>)
    requires code.Valid() && |llrs| == |code.polys| && |metric| == code.States()
    requires bitAt.Length == prevAt.Length && base + code.States() <= bitAt.Length
    modifies bitAt, prevAt
    ensures |next| == |metric|
    ensures Selected(code, metric, llrs, 2 * code.States(), next,
                     bitAt[base..base + code.States()], prevAt[base..base + code.States()])
    ensures forall i :: 0 <= i < bitAt.Length && !(base <= i < base + code.States()) ==>
              bitAt[i] == old(bitAt[i]) && prevAt[i] == old(prevAt[i])
  {
    var states := code.States();
    next := seq(states, _ => NegInf);
    for s := 0 to states
      invariant |next| == states
      invariant Selected(code, metric, llrs, 2 * s, next, bitAt[base..base + states], prevAt[base..base + states])
      invariant forall i :: 0 <= i < bitAt.Length && !(base <= i < base + states) ==>
                  bitAt[i] == old(bitAt[i]) && prevAt[i] == old(prevAt[i])
    {
      if metric[s].NegInf? {
        SkipState(code, metric, llrs, s, next, bitAt[base..base + states], prevAt[base..base + states]);
      } else {
        next := Consider(code, metric, llrs, s, 0, next, bitAt, prevAt, base);
        next := Consider(code, metric, llrs, s, 1, next, bitAt, prevAt, base);
      }
    }
  }

  lemma {:induction false} SkipState(code: ConvCode, metric: seq<Metric>, llrs: seq<real>, s: nat,
                                     next: seq<Metric>, bits: seq<bit>, prevs: seq<nat>)
    requires code.Valid() && |llrs| == |code.polys|
    requires |metric| == |next| == |bits| == |prevs| == code.States()
    requires s < code.States() && metric[s].NegInf?
    requires Selected(code, metric, llrs, 2 * s, next, bits, prevs)
    ensures Selected(code, metric, llrs, 2 * s + 2, next, bits, prevs)
  {
    hide Corr, Low, Symbols;
    assert Covered(code, metric, llrs, next, 2 * s) && Covered(code, metric, llrs, next, 2 * s + 1);
    forall ns | 0 <= ns < |next| && next[ns].Fin?
      ensures Wins(code, metric, llrs, 2 * s + 2, next[ns].v, ns, prevs[ns], bits[ns])
    {
      assert Wins(code, metric, llrs, 2 * s, next[ns].v, ns, prevs[ns], bits[ns]);
    }
  }

  lemma {:induction false} Keep(code: ConvCode, metric: seq<Metric>, llrs: seq<real>, s: nat, b: bit,
                                next: seq<Metric>, bits: seq<bit>, prevs: seq<nat>)
    requires code.Valid() && |llrs| == |code.polys|
    requires |metric| == |next| == |bits| == |prevs| == code.States()
    requires s < code.States() && metric[s].Fin?
    requires Selected(code, metric, llrs, 2 * s + b, next, bits, prevs)
    requires !Greater(Fin(metric[s].v + Branch(code.polys, 2 * s + b, llrs)), next[code.Into(2 * s + b)])
    ensures Selected(code, metric, llrs, 2 * s + b + 1, next, bits, prevs)
  {
    hide Corr, Low, Symbols;
    assert Covered(code, metric, llrs, next, 2 * s + b);
    forall ns | 0 <= ns < |next| && next[ns].Fin?
      ensures Wins(code, metric, llrs, 2 * s + b + 1, next[ns].v, ns, prevs[ns], bits[ns])
    {
      assert Wins(code, metric, llrs, 2 * s + b, next[ns].v, ns, prevs[ns], bits[ns]);
    }
  }

  lemma {:induction false} RaiseKeepsCovered(code: ConvCode, metric: seq<Metric>, llrs: seq<real>, next: seq<Metric>,
                                             ns: nat, m: Metric, r: nat)
    requires code.Valid() && |llrs| == |code.polys| && |metric| == |next| == code.States()
    requires r < 2 * code.States() && ns < |next|
    requires Covered(code, metric, llrs, next, r) && Greater(m, next[ns])
    ensures Covered(code, metric, llrs, next[ns := m], r)
  {
  }

  lemma {:induction false} Improve(code: ConvCode, metric: seq<Metric>, llrs: seq<real>, s: nat, b: bit,
                                   next: seq<Metric>, bits: seq<bit>, prevs: seq<nat>)
    requires code.Valid() && |llrs| == |code.polys|
    requires |metric| == |next| == |bits| == |prevs| == code.States()
    requires s < code.States() && metric[s].Fin?
    requires Selected(code, metric, llrs, 2 * s + b, next, bits, prevs)
    requires Greater(Fin(metric[s].v + Branch(code.polys, 2 * s + b, llrs)), next[code.Into(2 * s + b)])
    ensures var ns := code.Into(2 * s + b);
            Selected(code, metric, llrs, 2 * s + b + 1,
                     next[ns := Fin(metric[s].v + Branch(code.polys, 2 * s + b, llrs))], bits[ns := b], prevs[ns := s])
  {
    hide Corr, Low, Symbols;
    var edge := 2 * s + b;
    var ns := code.Into(edge);
    var next' := next[ns := Fin(metric[s].v + Branch(code.polys, edge, llrs))];
    assert Covered(code, metric, llrs, next', edge);
    forall r | 0 <= r < edge
      ensures Covered(code, metric, llrs, next', r)
    {
      RaiseKeepsCovered(code, metric, llrs, next, ns, next'[ns], r);
    }
    forall m | 0 <= m < |next'| && next'[m].Fin?
      ensures Wins(code, metric, llrs, edge + 1, next'[m].v, m, prevs[ns := s][m], bits[ns := b][m])
    {
      if m != ns {
        assert Wins(code, metric, llrs, edge, next[m].v, m, prevs[m], bits[m]);
      }
    }
  }
}
