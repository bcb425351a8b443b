/**
 What maximum likelihood buys: error correction up to half the minimum distance for blocks,
 and exact, delayed recovery of a clean stream for every traceback depth.
 */
module ConvTheorems {
  import opened Bits
  import opened ConvSpec
  import Conv
  import opened ConvBlock
  import opened ConvStream

  const K7R12 := ConvCode(7, [0x79, 0x5b]) // octal 171, 133
  const THOR_K7 := ConvCode(7, [0x6d, 0x4f])
  const THOR_K15 := ConvCode(15, [0x49dd, 0x662f]) // octal 44735, 63057

  // Some output depends on the newest bit.
  predicate SeesNewest(polys: seq<nat>) {
    exists j :: 0 <= j < |polys| && polys[j] % 2 == 1
  }

  lemma {:induction false} StandardCodes()
    ensures K7R12.Valid() && SeesNewest(K7R12.polys) && SeesBothEnds(K7R12)
    ensures THOR_K7.Valid() && SeesNewest(THOR_K7.polys) && SeesBothEnds(THOR_K7)
    ensures THOR_K15.Valid() && SeesNewest(THOR_K15.polys) && SeesBothEnds(THOR_K15)
    ensures |K7R12.polys| == |THOR_K7.polys| == |THOR_K15.polys| == 2
    ensures K7R12.Encodes() && THOR_K7.Encodes() && THOR_K15.Encodes()
  {
    assert Pow2(6) == 64 && Pow2(7) == 128;
    Pow2Add(7, 7);
    assert Pow2(15) == 2 * Pow2(14);
    Conv.ValidEncodes(K7R12);
    Conv.ValidEncodes(THOR_K7);
    Conv.ValidEncodes(THOR_K15);
    assert K7R12.polys[0] % 2 == 1 && THOR_K7.polys[0] % 2 == 1 && THOR_K15.polys[0] % 2 == 1;
  }

  // --- distances ---

  function Hamming(a: seq<bit>, b: seq<bit>): (r: nat)
    requires |a| == |b|
  {
    if a == [] then 0
    else
      var n := |a| - 1;
      Hamming(a[..n], b[..n]) + (if a[n] != b[n] then 1 else 0)
  }

  lemma {:induction false} Triangle(a: seq<bit>, b: seq<bit>, c: seq<bit>)
    requires |a| == |b| == |c|
    ensures Hamming(a, c) <= Hamming(a, b) + Hamming(b, c)
    ensures Hamming(a, b) == Hamming(b, a)
  {
    if a != [] { Triangle(a[..|a| - 1], b[..|a| - 1], c[..|a| - 1]); }
  }

  lemma {:induction false} DifferSomewhere(a: seq<bit>, b: seq<bit>, i: nat)
    requires |a| == |b| && i < |a| && a[i] != b[i]
    ensures Hamming(a, b) >= 1
  {
    if i < |a| - 1 { DifferSomewhere(a[..|a| - 1], b[..|a| - 1], i); }
  }

  // Hard decisions of one confidence.
  function Hard(r: seq<bit>, a: real): (l: seq<real>)
    ensures |l| == |r|
  {
    seq(|r|, i requires 0 <= i < |r| => if r[i] == 0 then a else -a)
  }

  lemma {:induction false} CorrOfHard(c: seq<bit>, r: seq<bit>, a: real)
    requires |c| == |r|
    ensures Corr(c, Hard(r, a)) == Scaled(a, |c| - 2 * Hamming(c, r))
  {
    if c != [] {
      var n := |c| - 1;
      CorrOfHard(c[..n], r[..n], a);
      assert Hard(r, a)[..n] == Hard(r[..n], a);
      ScaledStep(a, n - 2 * Hamming(c[..n], r[..n]));
    }
  }

  function Scaled(a: real, n: int): real {
    a * n as real
  }

  lemma {:induction false} ScaledStep(a: real, n: int)
    ensures Scaled(a, n + 1) == Scaled(a, n) + a
    ensures Scaled(a, n - 1) == Scaled(a, n) - a
  {
    var x := n as real;
    assert a * (x + 1.0) == a * x + a && a * (x - 1.0) == a * x - a;
  }

  lemma {:induction false} ScaledOrder(a: real, m: int, n: int)
    requires a > 0.0 && Scaled(a, m) <= Scaled(a, n)
    ensures m <= n
  {
    var x, y := m as real, n as real;
    assert a * (y - x) >= 0.0;
    assert y - x >= 0.0;
  }

  ghost predicate MinDistance(code: ConvCode, len: nat, dmin: nat)
    requires code.Valid()
  {
    forall a: seq<bit>, b: seq<bit> {:trigger Codeword(code, a), Codeword(code, b)} ::
      |a| == |b| == len && a != b ==> Hamming(Codeword(code, a), Codeword(code, b)) >= dmin
  }

  // Fewer than dmin/2 flipped code bits decode back to the data.
  lemma {:induction false} CorrectsErrors(code: ConvCode, d: seq<bit>, r: seq<bit>, a: real, dmin: nat, out: seq<bit>)
    requires code.Valid() && MinDistance(code, |d|, dmin)
    requires |r| == Cells(|d| + code.k - 1, |code.polys|) && a > 0.0
    requires 2 * Hamming(r, Codeword(code, d)) < dmin
    requires |out| == |d| && MaximumLikelihood(code, Hard(r, a), out)
    ensures out == d
  {
    var cd, co := Codeword(code, d), Codeword(code, out);
    Nearest(cd, co, r, a);
    Triangle(cd, r, co);
    Triangle(r, co, r);
  }

  // A word that correlates at least as well with hard decisions is at least as near to them.
  lemma {:induction false} Nearest(c: seq<bit>, c': seq<bit>, r: seq<bit>, a: real)
    requires |c| == |c'| == |r| && a > 0.0
    requires Corr(c, Hard(r, a)) <= Corr(c', Hard(r, a))
    ensures Hamming(c', r) <= Hamming(c, r)
    ensures Hamming(r, c') <= Hamming(r, c)
  {
    CorrOfHard(c, r, a);
    CorrOfHard(c', r, a);
    ScaledOrder(a, |c| - 2 * Hamming(c, r), |c'| - 2 * Hamming(c', r));
    Triangle(c, r, c);
    Triangle(c', r, c');
  }

  // --- the code stream determines the input ---

  lemma {:induction false} FirstDifference(a: seq<bit>, b: seq<bit>) returns (i: nat)
    requires |a| == |b| && a != b
    ensures i < |a| && a[..i] == b[..i] && a[i] != b[i]
  {
    var n := |a| - 1;
    if a[..n] == b[..n] {
      assert a == a[..n] + [a[n]] && b == b[..n] + [b[n]];
      i := n;
    } else {
      i := FirstDifference(a[..n], b[..n]);
      assert a[..n][..i] == a[..i] && b[..n][..i] == b[..i];
    }
  }

  // Where two inputs first differ, so do the symbols.
  lemma {:induction false} SymbolsDiffer(polys: seq<nat>, a: seq<bit>, b: seq<bit>, i: nat) returns (j: nat)
    requires SeesNewest(polys) && i < |a| == |b| && a[..i] == b[..i] && a[i] != b[i]
    ensures j < |polys| && Symbols(polys, Reg(a[..i + 1]))[j] != Symbols(polys, Reg(b[..i + 1]))[j]
  {
    j :| 0 <= j < |polys| && polys[j] % 2 == 1;
    assert a[..i + 1][..i] == a[..i] && b[..i + 1][..i] == b[..i];
    FlipNewest(Reg(a[..i]), polys[j]);
  }

  lemma {:induction false} StreamAt(polys: seq<nat>, bits: seq<bit>, i: nat, j: nat)
    requires i < |bits| && j < |polys|
    ensures Cells(i, |polys|) + j < |Stream(polys, bits)|
    ensures Stream(polys, bits)[Cells(i, |polys|) + j] == Symbols(polys, Reg(bits[..i + 1]))[j]
    decreases |bits|
  {
    CellsMonotone(i + 1, |bits|, |polys|);
    if i + 1 == |bits| {
      assert bits[..i + 1] == bits;
    } else {
      var init := bits[..|bits| - 1];
      StreamAt(polys, init, i, j);
      assert init[..i + 1] == bits[..i + 1];
    }
  }

  // Bit j of step i of a code word: the inputs up to i and the zeros before them, convolved with
  // generator j.
  lemma {:induction false} CodewordBit(code: ConvCode, d: seq<bit>, i: nat, j: nat)
    requires code.Valid() && i < |d| + code.k - 1 && j < |code.polys|
    ensures Cells(i, |code.polys|) + j < |Codeword(code, d)|
    ensures Codeword(code, d)[Cells(i, |code.polys|) + j]
            == Taps(code.polys[j], (d + Zeros(code.k - 1))[..i + 1], code.k) % 2
  {
    hide Parity, Taps;
    StreamAt(code.polys, d + Zeros(code.k - 1), i, j);
    SymbolIsConvolution(code.polys, (d + Zeros(code.k - 1))[..i + 1], j, code.k);
  }

  lemma {:induction false} DistinctCodewords(code: ConvCode, len: nat)
    requires code.Valid() && SeesNewest(code.polys)
    ensures MinDistance(code, len, 1)
  {
    hide Codeword, Hamming, SeesNewest;
    forall a: seq<bit>, b: seq<bit> | |a| == |b| == len && a != b
      ensures Hamming(Codeword(code, a), Codeword(code, b)) >= 1
    {
      CodewordsDiffer(code, a, b);
    }
  }

  lemma {:induction false} CodewordsDiffer(code: ConvCode, a: seq<bit>, b: seq<bit>)
    requires code.Valid() && SeesNewest(code.polys) && |a| == |b| && a != b
    ensures Hamming(Codeword(code, a), Codeword(code, b)) >= 1
  {
    hide Reg, Symbols, Stream, Hamming;
    var a', b' := a + Zeros(code.k - 1), b + Zeros(code.k - 1);
    var i := FirstDifference(a, b);
    assert a'[..i] == a[..i] && b'[..i] == b[..i];
    var j := SymbolsDiffer(code.polys, a', b', i);
    StreamAt(code.polys, a', i, j);
    StreamAt(code.polys, b', i, j);
    DifferSomewhere(Codeword(code, a), Codeword(code, b), Cells(i, |code.polys|) + j);
  }

  // --- flipped code bits ---

  // Every output depends on the newest and on the oldest bit in the register.
  predicate SeesBothEnds(code: ConvCode) {
    && code.k >= 2
    && forall j :: 0 <= j < |code.polys| ==> code.polys[j] % 2 == 1 && code.polys[j] >= Pow2(code.k - 1)
  }

  lemma {:induction false} FlipOldest(r: seq<bit>, p: nat)
    requires Pow2(|r|) <= p < Pow2(|r| + 1)
    ensures Parity(Reg([0] + r), p) == 1 - Parity(Reg([1] + r), p)
  {
    hide Parity, Reg;
    if r == [] {
      OneBitParity(p);
      assert [0] + r == [0] && [1] + r == [1];
    } else {
      var n := |r| - 1;
      var c := r[n];
      FlipOldest(r[..n], p / 2);
      assert [0] + r == ([0] + r[..n]) + [c] && [1] + r == ([1] + r[..n]) + [c];
      PushParity([0] + r[..n], c, p);
      PushParity([1] + r[..n], c, p);
    }
  }

  lemma {:induction false} OneBitParity(p: nat)
    requires Pow2(0) <= p < Pow2(1)
    ensures Parity(Reg([0]), p) == 0 && Parity(Reg([1]), p) == 1
  {
  }

  lemma {:induction false} PushParity(r: seq<bit>, c: bit, p: nat)
    ensures Parity(Reg(r + [c]), p) == (Parity(Reg(r), p / 2) + (if c == 1 && p % 2 == 1 then 1 else 0)) % 2
  {
    hide And, CountOnes, Reg;
    RegPush(r, c);
    AndStep(2 * Reg(r) + c, p);
    OnesDouble(And(Reg(r), p / 2), if c == 1 && p % 2 == 1 then 1 else 0);
  }

  lemma {:induction false} LastDifference(a: seq<bit>, b: seq<bit>) returns (i: nat)
    requires |a| == |b| && a != b
    ensures i < |a| && a[i] != b[i] && a[i + 1..] == b[i + 1..]
  {
    if a[1..] == b[1..] {
      assert a == [a[0]] + a[1..] && b == [b[0]] + b[1..];
      i := 0;
    } else {
      i := LastDifference(a[1..], b[1..]);
      i := i + 1;
    }
  }

  // A mask of k bits sees the last k bits of the input.
  lemma {:induction false} ParityOfWindow(bits: seq<bit>, k: nat, p: nat)
    requires k <= |bits| && p < Pow2(k)
    ensures Parity(Reg(bits), p) == Parity(Reg(bits[|bits| - k..]), p)
  {
    AndLow(Reg(bits), p, k);
    LowOfReg(bits, k);
  }

  // When the last difference reaches the oldest place, every symbol differs once more.
  lemma {:induction false} OldestDiffers(code: ConvCode, a: seq<bit>, b: seq<bit>, j: nat)
    requires code.Valid() && SeesBothEnds(code) && j < |code.polys|
    requires |a| == |b| >= code.k
    requires a[|a| - code.k] != b[|a| - code.k] && a[|a| - code.k + 1..] == b[|a| - code.k + 1..]
    ensures Parity(Reg(a), code.polys[j]) != Parity(Reg(b), code.polys[j])
  {
    hide Parity, Reg;
    var i := |a| - code.k;
    var rest := a[i + 1..];
    assert a[i..] == [a[i]] + rest && b[i..] == [b[i]] + rest;
    ParityOfWindow(a, code.k, code.polys[j]);
    ParityOfWindow(b, code.k, code.polys[j]);
    FlipOldest(rest, code.polys[j]);
  }

  lemma {:induction false} HammingSplit(x: seq<bit>, y: seq<bit>, m: nat)
    requires |x| == |y| && m <= |x|
    ensures Hamming(x, y) == Hamming(x[..m], y[..m]) + Hamming(x[m..], y[m..])
  {
    var n := |x| - 1;
    if m == |x| {
      assert x[..m] == x && y[..m] == y;
    } else {
      HammingSplit(x[..n], y[..n], m);
      assert x[..n][..m] == x[..m] && y[..n][..m] == y[..m];
      assert x[..n][m..] == x[m..][..n - m] && y[..n][m..] == y[m..][..n - m];
    }
  }

  lemma {:induction false} RunDiffers(x: seq<bit>, y: seq<bit>, from: nat, n: nat)
    requires |x| == |y| && from + n <= |x| && forall i :: from <= i < from + n ==> x[i] != y[i]
    ensures Hamming(x, y) >= n
  {
    if n > 0 {
      var e := |x| - 1;
      RunDiffers(x[..e], y[..e], from, if from + n == |x| then n - 1 else n);
    }
  }

  lemma {:induction false} RowDiffers(polys: seq<nat>, a: seq<bit>, b: seq<bit>, i: nat)
    requires i < |a| == |b|
    requires forall j :: 0 <= j < |polys| ==> Parity(Reg(a[..i + 1]), polys[j]) != Parity(Reg(b[..i + 1]), polys[j])
    ensures Cells(i, |polys|) + |polys| <= |Stream(polys, a)|
    ensures forall x :: Cells(i, |polys|) <= x < Cells(i, |polys|) + |polys| ==>
              Stream(polys, a)[x] != Stream(polys, b)[x]
  {
    hide Parity, Reg, Stream;
    CellsMonotone(i + 1, |a|, |polys|);
    forall x | Cells(i, |polys|) <= x < Cells(i, |polys|) + |polys| ensures Stream(polys, a)[x] != Stream(polys, b)[x] {
      StreamAt(polys, a, i, x - Cells(i, |polys|));
      StreamAt(polys, b, i, x - Cells(i, |polys|));
    }
  }

  // Two blocks differ in every symbol of two steps: where they first differ, and k - 1 steps after
  // they last do.
  lemma {:induction false} FarApart(code: ConvCode, len: nat)
    requires code.Valid() && SeesBothEnds(code)
    ensures MinDistance(code, len, 2 * |code.polys|)
  {
    hide Codeword, Hamming, SeesBothEnds;
    forall a: seq<bit>, b: seq<bit> | |a| == |b| == len && a != b
      ensures Hamming(Codeword(code, a), Codeword(code, b)) >= 2 * |code.polys|
    {
      TwoRows(code, a, b);
    }
  }

  lemma {:induction false} TwoRows(code: ConvCode, a: seq<bit>, b: seq<bit>)
    requires code.Valid() && SeesBothEnds(code) && |a| == |b| && a != b
    ensures Hamming(Codeword(code, a), Codeword(code, b)) >= 2 * |code.polys|
  {
    hide Parity, Reg, Stream, Hamming;
    var n, k := |code.polys|, code.k;
    var a', b' := a + Zeros(k - 1), b + Zeros(k - 1);
    var i := FirstDifference(a, b);
    var l := LastDifference(a, b);
    FirstRow(code, a, b, i);
    LastRow(code, a, b, l);
    RowDiffers(code.polys, a', b', i);
    RowDiffers(code.polys, a', b', l + k - 1);
    CellsMonotone(i + 1, l + k - 1, n);
    var x, y, m := Codeword(code, a), Codeword(code, b), Cells(l + k - 1, n);
    HammingSplit(x, y, m);
    RunDiffers(x[..m], y[..m], Cells(i, n), n);
    RunDiffers(x[m..], y[m..], 0, n);
  }

  lemma {:induction false} FirstRow(code: ConvCode, a: seq<bit>, b: seq<bit>, i: nat)
    requires code.Valid() && SeesBothEnds(code) && i < |a| == |b| && a[..i] == b[..i] && a[i] != b[i]
    ensures var a', b' := a + Zeros(code.k - 1), b + Zeros(code.k - 1);
            forall j :: 0 <= j < |code.polys| ==>
              Parity(Reg(a'[..i + 1]), code.polys[j]) != Parity(Reg(b'[..i + 1]), code.polys[j])
  {
    hide Parity, Reg;
    var a', b' := a + Zeros(code.k - 1), b + Zeros(code.k - 1);
    assert a'[..i + 1] == a[..i] + [a[i]] && b'[..i + 1] == a[..i] + [b[i]];
    RegPush(a[..i], a[i]);
    RegPush(a[..i], b[i]);
    forall j | 0 <= j < |code.polys|
      ensures Parity(Reg(a'[..i + 1]), code.polys[j]) != Parity(Reg(b'[..i + 1]), code.polys[j])
    {
      FlipNewest(Reg(a[..i]), code.polys[j]);
    }
  }

  lemma {:induction false} LastRow(code: ConvCode, a: seq<bit>, b: seq<bit>, l: nat)
    requires code.Valid() && SeesBothEnds(code) && l < |a| == |b| && a[l] != b[l] && a[l + 1..] == b[l + 1..]
    ensures var a', b', m := a + Zeros(code.k - 1), b + Zeros(code.k - 1), l + code.k - 1;
            && m < |a'|
            && forall j :: 0 <= j < |code.polys| ==>
                 Parity(Reg(a'[..m + 1]), code.polys[j]) != Parity(Reg(b'[..m + 1]), code.polys[j])
  {
    hide Parity, Reg;
    var a', b', m := a + Zeros(code.k - 1), b + Zeros(code.k - 1), l + code.k - 1;
    assert a' == a[..l + 1] + (a[l + 1..] + Zeros(code.k - 1)) && b' == b[..l + 1] + (a[l + 1..] + Zeros(code.k - 1));
    assert a'[..m + 1][l + 1..] == b'[..m + 1][l + 1..];
    forall j | 0 <= j < |code.polys|
      ensures Parity(Reg(a'[..m + 1]), code.polys[j]) != Parity(Reg(b'[..m + 1]), code.polys[j])
    {
      OldestDiffers(code, a'[..m + 1], b'[..m + 1], j);
    }
  }

  // A rate-1/n code whose generators all see both ends corrects any n - 1 flipped code bits.
  lemma {:induction false} CorrectsFlips(code: ConvCode, d: seq<bit>, r: seq<bit>, a: real, out: seq<bit>)
    requires code.Valid() && SeesBothEnds(code) && a > 0.0
    requires |r| == Cells(|d| + code.k - 1, |code.polys|)
    requires Hamming(r, Codeword(code, d)) < |code.polys|
    requires |out| == |d| && MaximumLikelihood(code, Hard(r, a), out)
    ensures out == d
  {
    FarApart(code, |d|);
    CorrectsErrors(code, d, r, a, 2 * |code.polys|, out);
  }

  lemma {:induction false} OneFlip(code: ConvCode, d: seq<bit>, r: seq<bit>, a: real, out: seq<bit>)
    requires code == K7R12 || code == THOR_K7 || code == THOR_K15
    requires code.Valid() && a > 0.0 && |r| == Cells(|d| + code.k - 1, |code.polys|)
    requires Hamming(r, Codeword(code, d)) <= 1
    requires |out| == |d| && MaximumLikelihood(code, Hard(r, a), out)
    ensures out == d
  {
    hide Pow2, Codeword;
    StandardCodes();
    CorrectsFlips(code, d, r, a, out);
  }

  // --- a clean stream ---

  function SymbolsAt(polys: seq<nat>, q: seq<bit>, i: nat): (r: seq<bit>)
    requires i < |q|
    ensures |r| == |polys|
  {
    Symbols(polys, Reg(q[..i + 1]))
  }

  // Every soft value agrees in sign with the code bit sent, at whatever confidence.
  ghost predicate Clean(polys: seq<nat>, d: seq<bit>, h: Blocks) {
    && Sized(h, |d|, |polys|)
    && forall i :: 0 <= i < |d| ==> CleanBlock(SymbolsAt(polys, d, i), h[i])
  }

  predicate CleanBlock(c: seq<bit>, l: seq<real>) {
    |c| == |l| && forall j :: 0 <= j < |c| ==> Signed(c[j], l[j]) > 0.0
  }

  lemma {:induction false} CleanCorrelation(c: seq<bit>, x: seq<bit>, l: seq<real>)
    requires CleanBlock(c, l) && |x| == |c|
    ensures Corr(x, l) <= Corr(c, l)
    ensures x != c ==> Corr(x, l) < Corr(c, l)
  {
    if c != [] {
      var n := |c| - 1;
      assert x == x[..n] + [x[n]] && c == c[..n] + [c[n]];
      CleanCorrelation(c[..n], x[..n], l[..n]);
    }
  }

  // A block whose soft values all agree in sign with its code word, each at any confidence,
  // decodes to its data.
  lemma {:induction false} RoundTrip(code: ConvCode, d: seq<bit>, l: seq<real>, out: seq<bit>)
    requires code.Valid() && SeesNewest(code.polys) && CleanBlock(Codeword(code, d), l)
    requires |out| == |d| && MaximumLikelihood(code, l, out)
    ensures out == d
  {
    hide Corr, Stream;
    var c, c' := Codeword(code, d), Codeword(code, out);
    assert Corr(c, l) <= Corr(c', l);
    CleanCorrelation(c, c', l);
    if out != d {
      DistinctCodewords(code, |d|);
      assert Hamming(c, c') >= 1;
      NoDistance(c);
    }
  }

  lemma {:induction false} NoDistance(c: seq<bit>)
    ensures Hamming(c, c) == 0
  {
    if c != [] { NoDistance(c[..|c| - 1]); }
  }

  // Over a clean stream no path beats the true one, and a path that ever puts out
  // other symbols falls behind.
  lemma {:induction false} CleanPath(polys: seq<nat>, d: seq<bit>, q: seq<bit>, h: Blocks, t: nat)
    requires Clean(polys, d, h) && |q| == |d| && t <= |d|
    ensures PathMetric(polys, q[..t], h[..t]) <= PathMetric(polys, d[..t], h[..t])
    ensures forall i :: 0 <= i < t && SymbolsAt(polys, q, i) != SymbolsAt(polys, d, i)
              ==> PathMetric(polys, q[..t], h[..t]) < PathMetric(polys, d[..t], h[..t])
  {
    hide Corr, PathMetric, SymbolsAt, CleanBlock;
    if t > 0 {
      CleanPath(polys, d, q, h, t - 1);
      PathPrefix(polys, d, h, t - 1);
      PathPrefix(polys, q, h, t - 1);
      assert CleanBlock(SymbolsAt(polys, d, t - 1), h[t - 1]);
      CleanCorrelation(SymbolsAt(polys, d, t - 1), SymbolsAt(polys, q, t - 1), h[t - 1]);
    }
  }

  lemma {:induction false} PathPrefix(polys: seq<nat>, q: seq<bit>, h: Blocks, t: nat)
    requires Sized(h, |q|, |polys|) && t < |q|
    ensures PathMetric(polys, q[..t + 1], h[..t + 1])
            == PathMetric(polys, q[..t], h[..t]) + Corr(SymbolsAt(polys, q, t), h[t])
  {
    assert q[..t + 1] == q[..t] + [q[t]] && h[..t + 1] == h[..t] + [h[t]];
    PathStep(polys, q[..t], q[t], h[..t], h[t]);
  }

  // The input sent is then the only best path, so what Push emits at step t is bit t - depth
  // of the input, whatever the traceback depth.
  lemma {:induction false} CleanStreamRecovered(code: ConvCode, d: seq<bit>, h: Blocks, p: seq<bit>)
    requires code.Valid() && SeesNewest(code.polys) && Clean(code.polys, d, h)
    requires Best(code, |d|, h, p)
    ensures p == d
  {
    if p != d { OthersFallBehind(code.polys, d, p, h); }
  }

  lemma {:induction false} OthersFallBehind(polys: seq<nat>, d: seq<bit>, q: seq<bit>, h: Blocks)
    requires SeesNewest(polys) && Clean(polys, d, h) && |q| == |d| && q != d
    ensures PathMetric(polys, q, h) < PathMetric(polys, d, h)
  {
    var i := FirstDifference(q, d);
    var j := SymbolsDiffer(polys, q, d, i);
    assert SymbolsAt(polys, q, i)[j] != SymbolsAt(polys, d, i)[j];
    CleanPath(polys, d, q, h, |d|);
    assert q[..|d|] == q && d[..|d|] == d && h[..|d|] == h;
  }
}
