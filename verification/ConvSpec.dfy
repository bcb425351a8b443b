/**
 The reference meaning of a rate-1/n convolutional code: code symbols as parities of an
 unbounded shift register, and the correlation of a code word with soft values.
 */
module ConvSpec {
  import opened Bits

  /** `k` is the constraint length, `polys` the generator masks. */
  datatype ConvCode = ConvCode(k: nat, polys: seq<nat>) {
    // Any masks of 32 bits; longer constraint lengths only lengthen the tail.
    predicate Encodes() {
      k >= 1 && Words(polys)
    }

    // Masks fit the k-bit shift register, which fits a u32.
    predicate Valid() {
      1 <= k <= 32 && forall i :: 0 <= i < |polys| ==> polys[i] < Pow2(k)
    }

    function States(): (r: nat)
      requires k >= 1
      ensures r > 0
    {
      Pow2(k - 1)
    }

    // The state the register leads to: reg & (states - 1).
    function Into(reg: nat): (s: nat)
      requires k >= 1
      ensures s < States()
    {
      LowBound(reg, k - 1);
      Low(reg, k - 1)
    }
  }

  predicate Words(polys: seq<nat>) {
    forall i :: 0 <= i < |polys| ==> polys[i] < 0x1_0000_0000
  }

  // The n code bits put out when the register holds `reg`.
  function Symbols(polys: seq<nat>, reg: nat): (r: seq<bit>)
    ensures |r| == |polys|
  {
    seq(|polys|, j requires 0 <= j < |polys| => Parity(reg, polys[j]))
  }

  // The code stream of an input, with no termination.
  function Stream(polys: seq<nat>, bits: seq<bit>): (r: seq<bit>)
    ensures |r| == Cells(|bits|, |polys|)
  {
    if bits == [] then []
    else Stream(polys, bits[..|bits| - 1]) + Symbols(polys, Reg(bits))
  }

  // The zero-terminated code word of a block.
  function Codeword(code: ConvCode, data: seq<bit>): (r: seq<bit>)
    requires code.k >= 1
    ensures |r| == Cells(|data| + code.k - 1, |code.polys|)
  {
    Stream(code.polys, data + Zeros(code.k - 1))
  }

  // Soft values are positive for code bit 0.
  function Signed(c: bit, l: real): real {
    if c == 0 then l else -l
  }

  function Corr(code: seq<bit>, llrs: seq<real>): real
    requires |code| == |llrs|
  {
    if code == [] then 0.0
    else Corr(code[..|code| - 1], llrs[..|code| - 1]) + Signed(code[|code| - 1], llrs[|code| - 1])
  }

  /** Soft values arrive as one block of n per trellis step. */
  type Blocks = seq<seq<real>>

  ghost predicate Sized(h: Blocks, t: nat, n: nat) {
    |h| == t && forall i :: 0 <= i < t ==> |h[i]| == n
  }

  function Branch(polys: seq<nat>, reg: nat, llrs: seq<real>): real
    requires |llrs| == |polys|
  {
    Corr(Symbols(polys, reg), llrs)
  }

  // The correlation an input string collects along its path through the trellis.
  ghost function PathMetric(polys: seq<nat>, bits: seq<bit>, h: Blocks): real
    requires Sized(h, |bits|, |polys|)
  {
    if bits == [] then 0.0
    else
      var t := |bits| - 1;
      PathMetric(polys, bits[..t], h[..t]) + Branch(polys, Reg(bits), h[t])
  }

  // The t blocks of n values at the start of a flat vector.
  ghost function Chunks(llrs: seq<real>, n: nat, t: nat): (h: Blocks)
    requires Cells(t, n) <= |llrs|
    ensures Sized(h, t, n)
    decreases t
  {
    if t == 0 then [] else Chunks(llrs, n, t - 1) + [llrs[Cells(t - 1, n)..Cells(t, n)]]
  }

  lemma {:induction false} CorrConcat(a: seq<bit>, c: seq<bit>, x: seq<real>, y: seq<real>)
    requires |a| == |x| && |c| == |y|
    ensures Corr(a + c, x + y) == Corr(a, x) + Corr(c, y)
  {
    if c == [] {
      assert a + c == a && x + y == x;
    } else {
      var n := |c| - 1;
      assert (a + c)[..|a + c| - 1] == a + c[..n];
      assert (x + y)[..|a + c| - 1] == x + y[..n];
      CorrConcat(a, c[..n], x, y[..n]);
    }
  }

  // The path metric is the correlation of the code stream with the soft values.
  lemma {:induction false} PathMetricIsCorrelation(polys: seq<nat>, bits: seq<bit>, llrs: seq<real>)
    requires Cells(|bits|, |polys|) <= |llrs|
    ensures PathMetric(polys, bits, Chunks(llrs, |polys|, |bits|))
            == Corr(Stream(polys, bits), llrs[..Cells(|bits|, |polys|)])
  {
    hide Parity, Symbols;
    if bits != [] {
      var t, n := |bits| - 1, |polys|;
      var from, to := Cells(t, n), Cells(t + 1, n);
      PathMetricIsCorrelation(polys, bits[..t], llrs);
      CorrConcat(Stream(polys, bits[..t]), Symbols(polys, Reg(bits)), llrs[..from], llrs[from..to]);
      assert llrs[..to] == llrs[..from] + llrs[from..to];
      assert Chunks(llrs, n, t + 1)[..t] == Chunks(llrs, n, t);
    }
  }

  // One more trellis step adds the branch metric of the symbols it puts out.
  lemma {:induction false} PathStep(polys: seq<nat>, bits: seq<bit>, b: bit, h: Blocks, l: seq<real>)
    requires Sized(h, |bits|, |polys|) && |l| == |polys|
    ensures Sized(h + [l], |bits + [b]|, |polys|)
    ensures PathMetric(polys, bits + [b], h + [l])
            == PathMetric(polys, bits, h) + Branch(polys, Reg(bits + [b]), l)
  {
    assert (bits + [b])[..|bits|] == bits && (h + [l])[..|bits|] == h;
  }

  // The trellis state an input leads to: the last k-1 bits.
  function StateOf(code: ConvCode, bits: seq<bit>): (s: nat)
    requires code.Valid()
    ensures s < code.States()
  {
    code.Into(Reg(bits))
  }

  // Edge r = 2s+b leaves state s on bit b, enters state r mod 2^(k-1), and puts out Symbols(r).
  lemma {:induction false} TrellisEdge(code: ConvCode, bits: seq<bit>, b: bit)
    requires code.Valid()
    ensures var r := 2 * StateOf(code, bits) + b;
            && r < 2 * code.States()
            && StateOf(code, bits + [b]) == code.Into(r)
            && Symbols(code.polys, r) == Symbols(code.polys, Reg(bits + [b]))
  {
    assert (bits + [b])[..|bits + [b]| - 1] == bits;
    var x := Reg(bits);
    ShiftLow(x, b, code.k - 1);
    forall j | 0 <= j < |code.polys|
      ensures Parity(2 * StateOf(code, bits) + b, code.polys[j]) == Parity(2 * x + b, code.polys[j])
    {
      AndLow(2 * x + b, code.polys[j], code.k);
    }
  }

  // A register whose low j bits are clear was last fed j zeros.
  lemma {:induction false} ZeroTail(bits: seq<bit>, j: nat)
    requires j <= |bits| && Low(Reg(bits), j) == 0
    ensures bits[|bits| - j..] == Zeros(j)
  {
    if j > 0 {
      var init, b := bits[..|bits| - 1], bits[|bits| - 1];
      ShiftLow(Reg(init), b, j - 1);
      ZeroTail(init, j - 1);
      assert bits[|bits| - j..] == init[|init| - (j - 1)..] + [b];
    }
  }

  // Feeding j zeros clears the low j bits.
  lemma {:induction false} ZeroTailClears(data: seq<bit>, j: nat)
    ensures Low(Reg(data + Zeros(j)), j) == 0
  {
    if j > 0 {
      var bits := data + Zeros(j);
      assert bits[..|bits| - 1] == data + Zeros(j - 1);
      ZeroTailClears(data, j - 1);
      ShiftLow(Reg(data + Zeros(j - 1)), 0, j - 1);
    }
  }

  // Inputs under the ones of mask p: the sum of p_k * b_k over the last n inputs, newest first.
  function Taps(p: nat, bits: seq<bit>, n: nat): nat {
    if n == 0 then 0
    else Taps(p, bits, n - 1) + (if n <= |bits| && p / Pow2(n - 1) % 2 == 1 then bits[|bits| - n] else 0)
  }

  lemma {:induction false} TapsAreOverlap(p: nat, bits: seq<bit>, n: nat)
    ensures Taps(p, bits, n) == Overlap(Reg(bits), p, n)
  {
    hide Pow2, BitAt, Reg;
    if n > 0 {
      TapsAreOverlap(p, bits, n - 1);
      BitAtIsQuotient(p, n - 1);
      RegAt(bits, n - 1);
      assert BitAt(Reg(bits), n - 1) * BitAt(p, n - 1) == if BitAt(p, n - 1) == 1 then BitAt(Reg(bits), n - 1) else 0;
    }
  }

  // Code bit j after the given inputs is their convolution with generator j, modulo two.
  lemma {:induction false} SymbolIsConvolution(polys: seq<nat>, bits: seq<bit>, j: nat, k: nat)
    requires j < |polys| && polys[j] < Pow2(k)
    ensures Symbols(polys, Reg(bits))[j] == Taps(polys[j], bits, k) % 2
  {
    ParityIsOverlap(Reg(bits), polys[j], k);
    TapsAreOverlap(polys[j], bits, k);
  }
}
