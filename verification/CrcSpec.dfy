/**
 Cyclic redundancy checks as polynomial arithmetic over bits. A register of width w is a
 bit string of length w, most significant bit first.
 */
module CrcSpec {
  import opened Bits

  function XorBit(a: bit, b: bit): bit {
    if a == b then 0 else 1
  }

  function XorSeq(a: seq<bit>, b: seq<bit>): (r: seq<bit>)
    requires |a| == |b|
    ensures |r| == |a|
  {
    seq(|a|, i requires 0 <= i < |a| => XorBit(a[i], b[i]))
  }

  // f times the polynomial.
  function Gate(f: bit, poly: seq<bit>): (r: seq<bit>)
    ensures |r| == |poly|
  {
    if f == 1 then poly else Zeros(|poly|)
  }

  // One step of the serial register: shift in a zero, and subtract the generator when the
  // bit that falls out differs from the message bit.
  function Step(poly: seq<bit>, r: seq<bit>, b: bit): (r': seq<bit>)
    requires |r| == |poly| > 0
    ensures |r'| == |r|
  {
    XorSeq(r[1..] + [0], Gate(XorBit(r[0], b), poly))
  }

  function Feed(poly: seq<bit>, r: seq<bit>, bits: seq<bit>): (r': seq<bit>)
    requires |r| == |poly| > 0
    ensures |r'| == |r|
    decreases |bits|
  {
    if bits == [] then r else Feed(poly, Step(poly, r, bits[0]), bits[1..])
  }

  // Remainder of a under long division by x^w + poly, w == |poly|.
  function PolyMod(a: seq<bit>, poly: seq<bit>): (r: seq<bit>)
    requires |a| >= |poly|
    ensures |r| == |poly|
    decreases |a|
  {
    if |a| == |poly| then a
    else PolyMod(XorSeq(a[1..], Gate(a[0], poly) + Zeros(|a| - 1 - |poly|)), poly)
  }

  // --- algebra of strings ---

  lemma {:induction false} XorConcat(a: seq<bit>, b: seq<bit>, c: seq<bit>, d: seq<bit>)
    requires |a| == |c| && |b| == |d|
    ensures XorSeq(a + b, c + d) == XorSeq(a, c) + XorSeq(b, d)
  {
  }

  lemma {:induction false} XorZero(a: seq<bit>)
    ensures XorSeq(a, Zeros(|a|)) == a && XorSeq(Zeros(|a|), a) == a
  {
  }

  lemma {:induction false} XorSwap(a: seq<bit>, b: seq<bit>, c: seq<bit>, d: seq<bit>)
    requires |a| == |b| == |c| == |d|
    ensures XorSeq(XorSeq(a, b), XorSeq(c, d)) == XorSeq(XorSeq(a, c), XorSeq(b, d))
  {
  }

  lemma {:induction false} XorCancel(a: seq<bit>, b: seq<bit>)
    requires |a| == |b|
    ensures XorSeq(a, b) == Zeros(|a|) <==> a == b
  {
    if XorSeq(a, b) == Zeros(|a|) {
      forall i | 0 <= i < |a| ensures a[i] == b[i] {
        assert XorSeq(a, b)[i] == 0;
      }
    }
  }

  lemma {:induction false} GateXor(f: bit, g: bit, poly: seq<bit>)
    ensures XorSeq(Gate(f, poly), Gate(g, poly)) == Gate(XorBit(f, g), poly)
  {
  }

  lemma {:induction false} ZerosSplit(m: nat, n: nat)
    ensures Zeros(m + n) == Zeros(m) + Zeros(n)
  {
  }

  // --- the serial register is linear ---

  lemma {:induction false} StepLinear(poly: seq<bit>, r: seq<bit>, s: seq<bit>, b: bit, c: bit)
    requires |r| == |s| == |poly| > 0
    ensures Step(poly, XorSeq(r, s), XorBit(b, c)) == XorSeq(Step(poly, r, b), Step(poly, s, c))
  {
    hide XorSeq, Gate;
    var f, g := XorBit(r[0], b), XorBit(s[0], c);
    ShiftXor(r, s);
    GateXor(f, g, poly);
    XorSwap(r[1..] + [0], s[1..] + [0], Gate(f, poly), Gate(g, poly));
  }

  lemma {:induction false} ShiftXor(r: seq<bit>, s: seq<bit>)
    requires |r| == |s| > 0
    ensures XorSeq(r, s)[1..] + [0] == XorSeq(r[1..] + [0], s[1..] + [0])
    ensures XorSeq(r, s)[0] == XorBit(r[0], s[0])
  {
  }

  lemma {:induction false} FeedLinear(poly: seq<bit>, r: seq<bit>, s: seq<bit>, b: seq<bit>, c: seq<bit>)
    requires |r| == |s| == |poly| > 0 && |b| == |c|
    ensures Feed(poly, XorSeq(r, s), XorSeq(b, c)) == XorSeq(Feed(poly, r, b), Feed(poly, s, c))
    decreases |b|
  {
    hide Step;
    if b != [] {
      StepLinear(poly, r, s, b[0], c[0]);
      assert XorSeq(b, c)[0] == XorBit(b[0], c[0]) && XorSeq(b, c)[1..] == XorSeq(b[1..], c[1..]);
      FeedLinear(poly, Step(poly, r, b[0]), Step(poly, s, c[0]), b[1..], c[1..]);
    }
  }

  lemma {:induction false} FeedConcat(poly: seq<bit>, r: seq<bit>, a: seq<bit>, b: seq<bit>)
    requires |r| == |poly| > 0
    ensures Feed(poly, r, a + b) == Feed(poly, Feed(poly, r, a), b)
    decreases |a|
  {
    hide Step;
    if a == [] {
      assert a + b == b;
    } else {
      assert (a + b)[0] == a[0] && (a + b)[1..] == a[1..] + b;
      FeedConcat(poly, Step(poly, r, a[0]), a[1..], b);
    }
  }

  // Placing the message bits on top of the register before the shifts does the same as
  // comparing them one at a time: this is what lets the code take whole bytes.
  lemma {:induction false} StepOfLoaded(poly: seq<bit>, r: seq<bit>, b: seq<bit>)
    requires |r| == |poly| && 0 < |b| <= |r|
    ensures Step(poly, XorSeq(r, b + Zeros(|r| - |b|)), 0)
            == XorSeq(Step(poly, r, b[0]), b[1..] + Zeros(|r| - |b| + 1))
  {
    hide XorSeq, Gate, Step;
    var s := b + Zeros(|r| - |b|);
    StepLinear(poly, r, s, b[0], b[0]);
    StepOfTop(poly, b);
    assert XorBit(b[0], b[0]) == 0;
  }

  lemma {:induction false} StepOfTop(poly: seq<bit>, b: seq<bit>)
    requires 0 < |b| <= |poly|
    ensures Step(poly, b + Zeros(|poly| - |b|), b[0]) == b[1..] + Zeros(|poly| - |b| + 1)
  {
    var s := b + Zeros(|poly| - |b|);
    assert s[1..] + [0] == b[1..] + Zeros(|poly| - |b| + 1);
    XorZero(s[1..] + [0]);
  }

  lemma {:induction false} FeedLoaded(poly: seq<bit>, r: seq<bit>, b: seq<bit>, i: nat)
    requires |r| == |poly| > 0 && i <= |b| <= |r|
    ensures Feed(poly, XorSeq(r, b + Zeros(|r| - |b|)), Zeros(i))
            == XorSeq(Feed(poly, r, b[..i]), b[i..] + Zeros(|r| - |b| + i))
    decreases i
  {
    hide XorSeq, Step;
    if i == 0 {
      assert b[..0] == [] && b[0..] == b;
    } else {
      assert Zeros(i)[1..] == Zeros(i - 1);
      StepOfLoaded(poly, r, b);
      FeedLoaded(poly, Step(poly, r, b[0]), b[1..], i - 1);
      assert b[..i][0] == b[0] && b[..i][1..] == b[1..][..i - 1] && b[1..][i - 1..] == b[i..];
    }
  }

  // --- the serial register computes the remainder ---

  // The register after message m, started at r, is (m * x^w + r * x^|m|) mod (x^w + poly).
  lemma {:induction false} FeedIsRemainder(poly: seq<bit>, r: seq<bit>, m: seq<bit>)
    requires |r| == |poly| > 0
    ensures Feed(poly, r, m) == PolyMod(XorSeq(m + Zeros(|r|), r + Zeros(|m|)), poly)
    decreases |m|
  {
    hide XorSeq, Step, Gate;
    if m == [] {
      assert m + Zeros(|r|) == Zeros(|r|) && r + Zeros(0) == r;
      XorZero(r);
    } else {
      var a := XorSeq(m + Zeros(|r|), r + Zeros(|m|));
      DivideOnce(poly, r, m);
      FeedIsRemainder(poly, Step(poly, r, m[0]), m[1..]);
    }
  }

  lemma {:induction false} DivideOnce(poly: seq<bit>, r: seq<bit>, m: seq<bit>)
    requires |r| == |poly| > 0 && m != []
    ensures var a := XorSeq(m + Zeros(|r|), r + Zeros(|m|));
            && |a| - 1 - |poly| == |m| - 1
            && XorSeq(a[1..], Gate(a[0], poly) + Zeros(|m| - 1))
               == XorSeq(m[1..] + Zeros(|r|), Step(poly, r, m[0]) + Zeros(|m| - 1))
  {
    var a := XorSeq(m + Zeros(|r|), r + Zeros(|m|));
    var x := XorSeq(a[1..], Gate(a[0], poly) + Zeros(|m| - 1));
    var y := XorSeq(m[1..] + Zeros(|r|), Step(poly, r, m[0]) + Zeros(|m| - 1));
    assert a[0] == XorBit(r[0], m[0]);
    forall i | 0 <= i < |x| ensures x[i] == y[i] {
      assert a[i + 1] == XorBit((m + Zeros(|r|))[i + 1], (r + Zeros(|m|))[i + 1]);
      assert (r + Zeros(|m|))[i + 1] == if i < |r| then (r[1..] + [0])[i] else 0;
    }
  }

  // --- bursts ---

  // Run backwards, a register that ends at zero held exactly the bits it was fed.
  lemma {:induction false} EndsInZero(poly: seq<bit>, d: seq<bit>, b: seq<bit>)
    requires |d| == |poly| > 0 && |b| <= |d| && poly[|poly| - 1] == 1
    requires Feed(poly, d, b) == Zeros(|d|)
    ensures d == b + Zeros(|d| - |b|)
    decreases |b|
  {
    if b == [] {
      assert b + Zeros(|d|) == Zeros(|d|);
    } else {
      EndsInZero(poly, Step(poly, d, b[0]), b[1..]);
      UndoStep(poly, d, b);
    }
  }

  lemma {:induction false} UndoStep(poly: seq<bit>, d: seq<bit>, b: seq<bit>)
    requires |d| == |poly| && 0 < |b| <= |d| && poly[|poly| - 1] == 1
    requires Step(poly, d, b[0]) == b[1..] + Zeros(|d| - |b| + 1)
    ensures d == b + Zeros(|d| - |b|)
  {
    var n, f := |d|, XorBit(d[0], b[0]);
    var d' := Step(poly, d, b[0]);
    assert d'[n - 1] == XorBit((d[1..] + [0])[n - 1], Gate(f, poly)[n - 1]);
    assert f == 0;
    XorZero(d[1..] + [0]);
    assert d' == d[1..] + [0];
    forall i | 0 <= i < n ensures d[i] == (b + Zeros(n - |b|))[i] {
      if i > 0 {
        assert d[i] == d'[i - 1];
      }
    }
  }

  // Zeros keep a nonzero register nonzero: the odd generator makes each step one-to-one.
  lemma {:induction false} StaysNonzero(poly: seq<bit>, d: seq<bit>, n: nat)
    requires |d| == |poly| > 0 && poly[|poly| - 1] == 1
    requires d != Zeros(|d|)
    ensures Feed(poly, d, Zeros(n)) != Zeros(|d|)
    decreases n
  {
    hide Step;
    if n > 0 {
      assert Zeros(n)[1..] == Zeros(n - 1);
      StepStaysNonzero(poly, d);
      StaysNonzero(poly, Step(poly, d, 0), n - 1);
    }
  }

  lemma {:induction false} StepStaysNonzero(poly: seq<bit>, d: seq<bit>)
    requires |d| == |poly| > 0 && poly[|poly| - 1] == 1
    requires d != Zeros(|d|)
    ensures Step(poly, d, 0) != Zeros(|d|)
  {
    hide Step;
    ZerosSplit(1, |d| - 1);
    assert [0] == Zeros(1);
    if Step(poly, d, 0) == Zeros(|d|) {
      assert [0][1..] + Zeros(|d|) == Zeros(|d|);
      UndoStep(poly, d, [0]);
    }
  }

  // A burst no wider than the register, however much follows it, leaves a mark.
  lemma {:induction false} BurstShows(poly: seq<bit>, before: nat, burst: seq<bit>, after: nat)
    requires 0 < |poly| && poly[|poly| - 1] == 1 && |burst| <= |poly|
    requires burst != Zeros(|burst|)
    ensures Feed(poly, Zeros(|poly|), Zeros(before) + burst + Zeros(after)) != Zeros(|poly|)
  {
    hide Step;
    var z := Zeros(|poly|);
    FeedConcat(poly, z, Zeros(before) + burst, Zeros(after));
    FeedConcat(poly, z, Zeros(before), burst);
    ZerosStayZero(poly, before);
    BurstAlone(poly, burst);
    StaysNonzero(poly, Feed(poly, z, burst), after);
  }

  lemma {:induction false} BurstAlone(poly: seq<bit>, burst: seq<bit>)
    requires 0 < |poly| && poly[|poly| - 1] == 1 && |burst| <= |poly|
    requires burst != Zeros(|burst|)
    ensures Feed(poly, Zeros(|poly|), burst) != Zeros(|poly|)
  {
    if Feed(poly, Zeros(|poly|), burst) == Zeros(|poly|) {
      EndsInZero(poly, Zeros(|poly|), burst);
      PrefixOfZeros(burst, |poly|);
    }
  }

  lemma {:induction false} PrefixOfZeros(b: seq<bit>, n: nat)
    requires |b| <= n && Zeros(n) == b + Zeros(n - |b|)
    ensures b == Zeros(|b|)
  {
    forall i | 0 <= i < |b| ensures b[i] == 0 {
      assert Zeros(n)[i] == 0;
    }
  }

  lemma {:induction false} ZerosStayZero(poly: seq<bit>, n: nat)
    requires |poly| > 0
    ensures Feed(poly, Zeros(|poly|), Zeros(n)) == Zeros(|poly|)
    decreases n
  {
    if n > 0 {
      assert Step(poly, Zeros(|poly|), 0) == Zeros(|poly|);
      assert Zeros(n)[1..] == Zeros(n - 1);
      ZerosStayZero(poly, n - 1);
    }
  }
}
