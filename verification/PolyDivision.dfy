/**
 What long division computes: polynomials over bits, most significant coefficient first, their
 product, and the remainder as the only one that leaves a multiple of the generator.
 */
module PolyDivision {
  import opened Bits
  import opened CrcSpec

  // The product of two polynomials.
  function PolyMul(q: seq<bit>, g: seq<bit>): (r: seq<bit>)
    requires g != []
    ensures |r| == |q| + |g| - 1
  {
    if q == [] then Zeros(|g| - 1)
    else XorSeq(Gate(q[0], g) + Zeros(|q| - 1), [0] + PolyMul(q[1..], g))
  }

  // q * (x^w + poly) + r, w == |poly|.
  function Recombined(q: seq<bit>, poly: seq<bit>, r: seq<bit>): (a: seq<bit>)
    requires |r| == |poly|
    ensures |a| == |q| + |poly|
  {
    XorSeq(PolyMul(q, [1] + poly), Zeros(|q|) + r)
  }

  // The leading coefficient of the quotient is that of the dividend.
  lemma {:induction false} FirstCoefficient(f: bit, q: seq<bit>, poly: seq<bit>, r: seq<bit>)
    requires |r| == |poly|
    ensures Recombined([f] + q, poly, r) == [f] + XorSeq(Gate(f, poly) + Zeros(|q|), Recombined(q, poly, r))
  {
    hide XorSeq, Gate;
    var m, x, z := PolyMul(q, [1] + poly), Gate(f, poly) + Zeros(|q|), Zeros(|q|) + r;
    assert ([f] + q)[1..] == q;
    LeadingGate(f, poly);
    assert Gate(f, [1] + poly) + Zeros(|q|) == [f] + x;
    assert Zeros(|q| + 1) + r == [0] + z;
    XorLeading(f, x, m);
    XorLeading(f, XorSeq(x, m), z);
    XorAssociates(x, m, z);
  }

  lemma {:induction false} LeadingGate(f: bit, poly: seq<bit>)
    ensures Gate(f, [1] + poly) == [f] + Gate(f, poly)
  {
    assert Zeros(|poly| + 1) == [0] + Zeros(|poly|);
  }

  lemma {:induction false} XorLeading(f: bit, x: seq<bit>, y: seq<bit>)
    requires |x| == |y|
    ensures XorSeq([f] + x, [0] + y) == [f] + XorSeq(x, y)
  {
    XorConcat([f], x, [0], y);
  }

  lemma {:induction false} XorAssociates(x: seq<bit>, y: seq<bit>, z: seq<bit>)
    requires |x| == |y| == |z|
    ensures XorSeq(XorSeq(x, y), z) == XorSeq(x, XorSeq(y, z))
  {
  }

  lemma {:induction false} NoQuotient(poly: seq<bit>, r: seq<bit>)
    requires |r| == |poly|
    ensures Recombined([], poly, r) == r
  {
  }

  // Adding the same string twice.
  lemma {:induction false} XorBack(a: seq<bit>, x: seq<bit>, b: seq<bit>)
    requires |a| == |x| == |b|
    ensures a == XorSeq(x, b) <==> b == XorSeq(a, x)
  {
    if a == XorSeq(x, b) {
      assert forall i :: 0 <= i < |b| ==> b[i] == XorSeq(a, x)[i];
    }
    if b == XorSeq(a, x) {
      assert forall i :: 0 <= i < |a| ==> a[i] == XorSeq(x, b)[i];
    }
  }

  lemma {:induction false} Quotient(a: seq<bit>, poly: seq<bit>) returns (q: seq<bit>)
    requires |a| >= |poly|
    ensures |q| == |a| - |poly| && a == Recombined(q, poly, PolyMod(a, poly))
    decreases |a|
  {
    if |a| == |poly| {
      q := [];
      NoQuotient(poly, a);
    } else {
      var x := Gate(a[0], poly) + Zeros(|a| - 1 - |poly|);
      var a' := XorSeq(a[1..], x);
      q := Quotient(a', poly);
      FirstCoefficient(a[0], q, poly, PolyMod(a, poly));
      XorBack(a[1..], x, a');
      q := [a[0]] + q;
      assert a == [a[0]] + a[1..];
    }
  }

  lemma {:induction false} OnlyRemainder(q: seq<bit>, poly: seq<bit>, r: seq<bit>)
    requires |r| == |poly|
    ensures PolyMod(Recombined(q, poly, r), poly) == r
    decreases |q|
  {
    if q == [] {
      NoQuotient(poly, r);
    } else {
      var a, b := Recombined(q, poly, r), Recombined(q[1..], poly, r);
      var x := Gate(q[0], poly) + Zeros(|q| - 1);
      assert q == [q[0]] + q[1..];
      FirstCoefficient(q[0], q[1..], poly, r);
      assert a[0] == q[0] && a[1..] == XorSeq(x, b);
      XorBack(a[1..], x, b);
      OnlyRemainder(q[1..], poly, r);
    }
  }

  /** r is the remainder exactly when a quotient q exists with a == q * (x^w + poly) + r. */
  lemma {:induction false} DivisionLaw(a: seq<bit>, poly: seq<bit>, r: seq<bit>)
    requires |a| >= |poly| == |r|
    ensures r == PolyMod(a, poly) <==> exists q: seq<bit> :: |q| == |a| - |poly| && a == Recombined(q, poly, r)
  {
    hide Recombined, PolyMod;
    if r == PolyMod(a, poly) {
      var q := Quotient(a, poly);
    }
    forall q: seq<bit> | |q| == |a| - |poly| && a == Recombined(q, poly, r) ensures r == PolyMod(a, poly) {
      OnlyRemainder(q, poly, r);
    }
  }
}
