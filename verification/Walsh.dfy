/**
 The Walsh-Hadamard block codec: the in-place butterfly transform, the sum it computes,
 and soft decoding by largest correlation.
 */
module Walsh {
  import opened Bits
  import opened SoftValues

  // The chips of a symbol, in natural order.
  function WalshEncode(symbol: nat, n: nat): (r: seq<int>)
    ensures |r| == n
  {
    seq(n, i requires 0 <= i < n => if Parity(symbol, i) == 0 then 1 else -1)
  }

  // They as soft values of the given amplitude.
  function Chips(symbol: nat, n: nat, amp: real): (r: seq<real>)
    ensures |r| == n
  {
    seq(n, i requires 0 <= i < n => if WalshEncode(symbol, n)[i] == 1 then amp else -amp)
  }

  // Sum of x[i], negated where k and i share an odd number of ones: the defining, quadratic-time
  // form of the transform.
  function WalshSum(x: seq<real>, k: nat): real {
    if x == [] then 0.0
    else
      var n := |x| - 1;
      WalshSum(x[..n], k) + (if Parity(k, n) == 0 then x[n] else -x[n])
  }

  // The transform of 2^t values by halves.
  function Had(x: seq<real>, t: nat): (r: seq<real>)
    requires |x| == Pow2(t)
    ensures |r| == |x|
    decreases t
  {
    if t == 0 then x
    else
      var h := Pow2(t - 1);
      var l, r := Had(x[..h], t - 1), Had(x[h..], t - 1);
      Plus(l, r) + Minus(l, r)
  }

  function Minus(x: seq<real>, y: seq<real>): (r: seq<real>)
    requires |x| == |y|
    ensures |r| == |x|
  {
    seq(|x|, i requires 0 <= i < |x| => x[i] - y[i])
  }

  // x times 2^t.
  function Doublings(x: seq<real>, t: nat): (r: seq<real>)
    ensures |r| == |x|
  {
    if t == 0 then x
    else
      var y := Doublings(x, t - 1);
      Plus(y, y)
  }

  // --- the transform computes the sum ---

  lemma {:induction false} ParityHalves(k: nat, i: nat, m: nat)
    requires k < Pow2(m) && i < Pow2(m)
    ensures Parity(k + Pow2(m), i) == Parity(k, i)
    ensures Parity(k, i + Pow2(m)) == Parity(k, i)
    ensures Parity(k + Pow2(m), i + Pow2(m)) == 1 - Parity(k, i)
  {
    HighBit(k, i, m);
    HighBit(i, k, m);
    HighBits(k, i, m);
    AndSymmetric(k, i + Pow2(m));
    AndSymmetric(k, i);
  }

  lemma {:induction false} AndSymmetric(a: nat, b: nat)
    ensures And(a, b) == And(b, a)
  {
    if a != 0 && b != 0 { AndSymmetric(a / 2, b / 2); }
  }

  lemma {:induction false} HighBit(k: nat, i: nat, m: nat)
    requires k < Pow2(m) && i < Pow2(m)
    ensures And(k + Pow2(m), i) == And(k, i)
  {
    AndStep(k + Pow2(m), i);
    AndStep(k, i);
    if m > 0 {
      var h := Pow2(m - 1);
      assert (k + 2 * h) / 2 == k / 2 + h && (k + 2 * h) % 2 == k % 2;
      HighBit(k / 2, i / 2, m - 1);
    }
  }

  lemma {:induction false} HighBits(k: nat, i: nat, m: nat)
    requires k < Pow2(m) && i < Pow2(m)
    ensures CountOnes(And(k + Pow2(m), i + Pow2(m))) == CountOnes(And(k, i)) + 1
  {
    hide CountOnes, And;
    AndStep(k + Pow2(m), i + Pow2(m));
    AndStep(k, i);
    if m == 0 {
      AndNothing(0);
      OnesDouble(0, 1);
    } else {
      var h := Pow2(m - 1);
      assert (k + 2 * h) / 2 == k / 2 + h && (k + 2 * h) % 2 == k % 2;
      assert (i + 2 * h) / 2 == i / 2 + h && (i + 2 * h) % 2 == i % 2;
      HighBits(k / 2, i / 2, m - 1);
      var e: bit := if k % 2 == 1 && i % 2 == 1 then 1 else 0;
      OnesDouble(And(k / 2 + h, i / 2 + h), e);
      OnesDouble(And(k / 2, i / 2), e);
    }
  }

  // The sum over the upper half, seen from rows k and k + 2^m, in terms of row k.
  lemma {:induction false} SumHalves(x: seq<real>, y: seq<real>, k: nat, m: nat)
    requires |x| == Pow2(m) && |y| <= Pow2(m) && k < Pow2(m)
    ensures WalshSum(x + y, k) == WalshSum(x, k) + WalshSum(y, k)
    ensures WalshSum(x + y, k + Pow2(m)) == WalshSum(x, k) - WalshSum(y, k)
    decreases |y|
  {
    if y == [] {
      assert x + y == x;
      SumLower(x, k, m);
    } else {
      var n := |y| - 1;
      assert (x + y)[..|x| + n] == x + y[..n];
      SumHalves(x, y[..n], k, m);
      ParityHalves(k, n, m);
    }
  }

  lemma {:induction false} SumLower(x: seq<real>, k: nat, m: nat)
    requires |x| <= Pow2(m) && k < Pow2(m)
    ensures WalshSum(x, k + Pow2(m)) == WalshSum(x, k)
  {
    if x != [] {
      SumLower(x[..|x| - 1], k, m);
      ParityHalves(k, |x| - 1, m);
    }
  }

  lemma {:induction false} HadSplit(x: seq<real>, t: nat)
    requires |x| == 2 * Pow2(t)
    ensures var l, r := Had(x[..Pow2(t)], t), Had(x[Pow2(t)..], t);
            Had(x, t + 1) == Plus(l, r) + Minus(l, r)
  {
  }

  lemma {:induction false} Halves(x: seq<real>, h: nat)
    requires h <= |x|
    ensures x[..h] + x[h..] == x
  {
  }

  lemma {:induction false} HadAt(x: seq<real>, t: nat, k: nat)
    requires |x| == 2 * Pow2(t) && k < |x|
    ensures var h := Pow2(t);
            var l, r := Had(x[..h], t), Had(x[h..], t);
            Had(x, t + 1)[k] == if k < h then l[k] + r[k] else l[k - h] - r[k - h]
  {
    hide Had;
    HadSplit(x, t);
  }

  lemma {:induction false} HadIsSum(x: seq<real>, t: nat, k: nat)
    requires |x| == Pow2(t) && k < Pow2(t)
    ensures Had(x, t)[k] == WalshSum(x, k)
    decreases t
  {
    hide WalshSum, Parity;
    if t == 0 {
      SumOfOne(x);
    } else {
      HadIsSum(x[..Pow2(t - 1)], t - 1, if k < Pow2(t - 1) then k else k - Pow2(t - 1));
      HadIsSum(x[Pow2(t - 1)..], t - 1, if k < Pow2(t - 1) then k else k - Pow2(t - 1));
      HadSumStep(x, t - 1, k);
    }
  }

  lemma {:induction false} HadSumStep(x: seq<real>, t: nat, k: nat)
    requires |x| == 2 * Pow2(t) && k < |x|
    requires var h := Pow2(t);
             var j := if k < h then k else k - h;
             && Had(x[..h], t)[j] == WalshSum(x[..h], j)
             && Had(x[h..], t)[j] == WalshSum(x[h..], j)
    ensures Had(x, t + 1)[k] == WalshSum(x, k)
  {
    hide *;
    var h := Pow2(t);
    HadAt(x, t, k);
    Halves(x, h);
    SumHalves(x[..h], x[h..], if k < h then k else k - h, t);
  }

  lemma {:induction false} SumOfOne(x: seq<real>)
    requires |x| == 1
    ensures WalshSum(x, 0) == x[0]
  {
    assert WalshSum(x[..0], 0) == 0.0 && Parity(0, 0) == 0;
  }

  // --- the in-place loops ---

  ghost predicate Butterflied(a: seq<real>, a': seq<real>, i: nat, h: nat)
    requires i + 2 * h <= |a| == |a'|
  {
    forall k {:trigger a'[k]} :: 0 <= k < |a| ==>
      a'[k] == if i <= k < i + h then a[k] + a[k + h]
               else if i + h <= k < i + 2 * h then a[k - h] - a[k]
               else a[k]
  }

  // Combine the blocks of h values at i and i + h.
  method Butterflies(a: array<real>, i: nat, h: nat)
    requires i + 2 * h <= a.Length
    modifies a
    ensures Butterflied(old(a[..]), a[..], i, h)
  {
    ghost var was := a[..];
    for j := i to i + h
      invariant forall k {:trigger a[k]} :: 0 <= k < a.Length ==>
                  a[k] == if i <= k < j then was[k] + was[k + h]
                          else if i + h <= k < j + h then was[k - h] - was[k]
                          else was[k]
    {
      var x, y := a[j], a[j + h];
      a[j] := x + y;
      a[j + h] := x - y;
    }
  }

  // The block of 2^t values at offset o is transformed.
  ghost predicate Done(a: seq<real>, x: seq<real>, o: nat, t: nat) {
    o + Pow2(t) <= |a| == |x| && a[o..o + Pow2(t)] == Had(x[o..o + Pow2(t)], t)
  }

  ghost predicate DoneBlock(a: seq<real>, x: seq<real>, b: nat, t: nat) {
    Done(a, x, Cells(b, Pow2(t)), t)
  }

  lemma {:induction false} CellsDouble(b: nat, h: nat)
    ensures Cells(b, 2 * h) == Cells(2 * b, h)
  {
    if b > 0 {
      CellsDouble(b - 1, h);
      assert Cells(2 * b, h) == Cells(2 * b - 1, h) + h;
    }
  }

  lemma {:induction false} CellsPow2(t: nat, m: nat)
    requires t <= m
    ensures Cells(Pow2(m - t), Pow2(t)) == Pow2(m)
  {
    CellsIsProduct(Pow2(m - t), Pow2(t));
    Pow2Add(m - t, t);
  }

  ghost predicate AllDone(a: seq<real>, x: seq<real>, from: nat, to: nat, t: nat) {
    forall b :: from <= b < to ==> DoneBlock(a, x, b, t)
  }

  // Combining two transformed blocks of 2^t gives a transformed block of twice the size.
  lemma {:induction false} Combined(a: seq<real>, a': seq<real>, x: seq<real>, o: nat, t: nat)
    requires |a'| == |a| == |x| && o + 2 * Pow2(t) <= |x|
    requires Done(a, x, o, t) && Done(a, x, o + Pow2(t), t)
    requires Butterflied(a, a', o, Pow2(t))
    ensures Done(a', x, o, t + 1)
  {
    hide Had;
    var h := Pow2(t);
    var y := x[o..o + 2 * h];
    assert y[..h] == x[o..o + h] && y[h..] == x[o + h..o + h + h];
    HadSplit(y, t);
    var l, r := Had(y[..h], t), Had(y[h..], t);
    assert a[o..o + h] == l && a[o + h..o + h + h] == r;
    forall k | 0 <= k < 2 * h
      ensures a'[o + k] == (Plus(l, r) + Minus(l, r))[k]
    {
      if k < h {
        assert a[o + k] == l[k] && a[o + k + h] == r[k];
      } else {
        assert a[o + k - h] == l[k - h] && a[o + k] == r[k - h];
      }
    }
    assert a'[o..o + 2 * h] == Plus(l, r) + Minus(l, r);
  }

  // One pass of the middle loop: all blocks of size h become blocks of size 2h.
  method Pass(a: array<real>, h: nat, ghost x: seq<real>, ghost t: nat, ghost m: nat)
    requires t < m && h == Pow2(t) && a.Length == |x| == Pow2(m)
    requires AllDone(a[..], x, 0, 2 * Pow2(m - t - 1), t)
    modifies a
    ensures AllDone(a[..], x, 0, Pow2(m - t - 1), t + 1)
  {
    var n := a.Length;
    var i := 0;
    ghost var pairs := Pow2(m - t - 1);
    ghost var c := 0; // pairs combined
    CellsPow2(t + 1, m);
    while i < n
      invariant 0 <= c <= pairs && i == Cells(c, 2 * h)
      invariant AllDone(a[..], x, 0, c, t + 1)
      invariant AllDone(a[..], x, 2 * c, 2 * pairs, t)
      decreases n - i
    {
      if c == pairs { assert false; }
      CellsMonotone(c + 1, pairs, 2 * h);
      CellsDouble(c, h);
      ghost var before := a[..];
      Butterflies(a, i, h);
      PassStep(before, a[..], x, c, pairs, t);
      i := i + 2 * h;
      c := c + 1;
    }
    if c < pairs {
      CellsMonotone(c + 1, pairs, 2 * h);
      assert false;
    }
  }

  lemma {:induction false} PassStep(a: seq<real>, a': seq<real>, x: seq<real>, c: nat, pairs: nat, t: nat)
    requires |a| == |a'| == |x| && c < pairs
    requires AllDone(a, x, 0, c, t + 1) && AllDone(a, x, 2 * c, 2 * pairs, t)
    requires Cells(2 * c, Pow2(t)) + 2 * Pow2(t) <= |a|
    requires Butterflied(a, a', Cells(2 * c, Pow2(t)), Pow2(t))
    ensures AllDone(a', x, 0, c + 1, t + 1) && AllDone(a', x, 2 * c + 2, 2 * pairs, t)
  {
    hide Had;
    var h := Pow2(t);
    var o := Cells(2 * c, h);
    CellsDouble(c, h);
    assert DoneBlock(a, x, 2 * c, t) && DoneBlock(a, x, 2 * c + 1, t);
    assert Cells(2 * c + 1, h) == o + h;
    Combined(a, a', x, o, t);
    var t1 := t + 1;
    forall b | 0 <= b < c + 1 ensures DoneBlock(a', x, b, t1) {
      if b < c {
        assert DoneBlock(a, x, b, t + 1);
        CellsMonotone(b + 1, c, 2 * h);
        Untouched(a, a', x, Cells(b, 2 * h), t + 1, o, h);
      }
    }
    forall b | 2 * c + 2 <= b < 2 * pairs ensures DoneBlock(a', x, b, t) {
      assert DoneBlock(a, x, b, t);
      CellsMonotone(2 * c + 2, b, h);
      Untouched(a, a', x, Cells(b, h), t, o, h);
    }
  }

  // A block apart from the two being combined stays as it is.
  lemma {:induction false} Untouched(a: seq<real>, a': seq<real>, x: seq<real>, o: nat, t: nat, i: nat, h: nat)
    requires |a'| == |a| && i + 2 * h <= |a| && Butterflied(a, a', i, h)
    requires Done(a, x, o, t) && (o + Pow2(t) <= i || i + 2 * h <= o)
    ensures Done(a', x, o, t)
  {
    assert a'[o..o + Pow2(t)] == a[o..o + Pow2(t)];
  }

  method Fht(a: array<real>, ghost m: nat)
    requires a.Length == Pow2(m)
    modifies a
    ensures a[..] == Had(old(a[..]), m)
    ensures forall k :: 0 <= k < a.Length ==> a[k] == WalshSum(old(a[..]), k)
  {
    ghost var x := a[..];
    var n := a.Length;
    var h := 1;
    ghost var t := 0;
    SinglesDone(x);
    while h < n
      invariant 0 <= t <= m && h == Pow2(t)
      invariant AllDone(a[..], x, 0, Pow2(m - t), t)
      decreases m - t
    {
      if t == m { assert false; }
      Pass(a, h, x, t, m);
      h := h * 2;
      t := t + 1;
    }
    if t < m {
      Pow2Monotone(t + 1, m);
      assert false;
    }
    assert DoneBlock(a[..], x, 0, m);
    assert a[..] == a[0..n] && x == x[0..n];
    forall k | 0 <= k < n ensures a[k] == WalshSum(x, k) {
      HadIsSum(x, m, k);
    }
  }

  lemma {:induction false} SinglesDone(x: seq<real>)
    ensures AllDone(x, x, 0, |x|, 0)
  {
    forall b | 0 <= b < |x| ensures DoneBlock(x, x, b, 0) {
      CellsIsProduct(b, 1);
    }
  }

  // --- the transform inverts itself up to the factor n ---

  lemma {:induction false} HadLinear(x: seq<real>, y: seq<real>, t: nat)
    requires |x| == |y| == Pow2(t)
    ensures Had(Plus(x, y), t) == Plus(Had(x, t), Had(y, t))
    ensures Had(Minus(x, y), t) == Minus(Had(x, t), Had(y, t))
    decreases t
  {
    if t == 0 {
      HadOne(x);
      HadOne(y);
      HadOne(Plus(x, y));
      HadOne(Minus(x, y));
    } else {
      hide Had, Plus, Minus;
      var h := Pow2(t - 1);
      SplitTerms(x, y, h);
      HadSplit(x, t - 1);
      HadSplit(y, t - 1);
      HadSplit(Plus(x, y), t - 1);
      HadSplit(Minus(x, y), t - 1);
      HadLinear(x[..h], y[..h], t - 1);
      HadLinear(x[h..], y[h..], t - 1);
      Rearrange(Had(x[..h], t - 1), Had(x[h..], t - 1), Had(y[..h], t - 1), Had(y[h..], t - 1));
    }
  }

  lemma {:induction false} HadOne(x: seq<real>)
    requires |x| == Pow2(0)
    ensures Had(x, 0) == x
  {
  }

  lemma {:induction false} SplitTerms(x: seq<real>, y: seq<real>, h: nat)
    requires |x| == |y| >= h
    ensures Plus(x, y)[..h] == Plus(x[..h], y[..h]) && Plus(x, y)[h..] == Plus(x[h..], y[h..])
    ensures Minus(x, y)[..h] == Minus(x[..h], y[..h]) && Minus(x, y)[h..] == Minus(x[h..], y[h..])
  {
  }

  lemma {:induction false} Rearrange(a: seq<real>, b: seq<real>, c: seq<real>, d: seq<real>)
    requires |a| == |b| == |c| == |d|
    ensures Plus(Plus(a, c), Plus(b, d)) + Minus(Plus(a, c), Plus(b, d))
            == Plus(Plus(a, b) + Minus(a, b), Plus(c, d) + Minus(c, d))
    ensures Plus(Minus(a, c), Minus(b, d)) + Minus(Minus(a, c), Minus(b, d))
            == Minus(Plus(a, b) + Minus(a, b), Plus(c, d) + Minus(c, d))
  {
  }

  lemma {:induction false} HadTwice(x: seq<real>, t: nat)
    requires |x| == Pow2(t)
    ensures Had(Had(x, t), t) == Doublings(x, t)
    decreases t
  {
    if t > 0 {
      hide Had, Doublings, Plus, Minus, Pow2;
      Pow2Double(t);
      var h := Pow2(t - 1);
      var l, r := Had(x[..h], t - 1), Had(x[h..], t - 1);
      var y := Had(x, t);
      HadSplit(x, t - 1);
      assert y[..h] == Plus(l, r) && y[h..] == Minus(l, r);
      HadSplit(y, t - 1);
      HadLinear(l, r, t - 1);
      HadTwice(x[..h], t - 1);
      HadTwice(x[h..], t - 1);
      var u, v := Doublings(x[..h], t - 1), Doublings(x[h..], t - 1);
      SumAndDifference(u, v);
      Halves(x, h);
      DoublingsConcat(x[..h], x[h..], t);
      DoublingsStep(x[..h], t - 1);
      DoublingsStep(x[h..], t - 1);
    }
  }

  lemma {:induction false} SumAndDifference(u: seq<real>, v: seq<real>)
    requires |u| == |v|
    ensures Plus(Plus(u, v), Minus(u, v)) == Plus(u, u) && Minus(Plus(u, v), Minus(u, v)) == Plus(v, v)
  {
  }

  lemma {:induction false} DoublingsStep(x: seq<real>, t: nat)
    ensures Doublings(x, t + 1) == Plus(Doublings(x, t), Doublings(x, t))
  {
  }

  lemma {:induction false} DoublingsConcat(x: seq<real>, y: seq<real>, t: nat)
    ensures Doublings(x + y, t) == Doublings(x, t) + Doublings(y, t)
  {
    if t > 0 { DoublingsConcat(x, y, t - 1); }
  }

  lemma {:induction false} DoublingsIsProduct(x: seq<real>, t: nat, i: nat)
    requires i < |x|
    ensures Doublings(x, t)[i] == Pow2(t) as real * x[i]
  {
    if t > 0 {
      DoublingsIsProduct(x, t - 1, i);
      var c := Pow2(t - 1) as real;
      assert (2.0 * c) * x[i] == 2.0 * (c * x[i]);
    }
  }

  // fht(fht(x)) == n * x
  lemma {:induction false} SelfInverse(x: seq<real>, t: nat, i: nat)
    requires |x| == Pow2(t) && i < |x|
    ensures Had(Had(x, t), t)[i] == Pow2(t) as real * x[i]
  {
    HadTwice(x, t);
    DoublingsIsProduct(x, t, i);
  }

  // --- decoding ---

  function Abs(x: real): (r: real)
    ensures r >= 0.0
  {
    if x < 0.0 then -x else x
  }

  // The index of the first largest correlation by absolute value.
  method WalshSoftDecode(soft: seq<real>, ghost m: nat) returns (best: nat, mag: real)
    requires |soft| == Pow2(m)
    ensures best < |soft| && mag == Abs(WalshSum(soft, best))
    ensures mag >= 0.0 && (mag == WalshSum(soft, best) || mag == -WalshSum(soft, best))
    ensures forall k :: 0 <= k < |soft| ==> Abs(WalshSum(soft, k)) <= mag
    ensures forall k :: 0 <= k < best ==> Abs(WalshSum(soft, k)) < mag
  {
    hide WalshSum, Had, Pow2;
    var work := new real[|soft|](i requires 0 <= i < |soft| => soft[i]);
    assert work[..] == soft;
    Fht(work, m);
    best := 0;
    mag := 0.0;
    for i := 0 to work.Length
      invariant best <= i && (i > 0 ==> best < i && mag == Abs(WalshSum(soft, best)))
      invariant mag >= 0.0 && (i == 0 ==> mag == 0.0)
      invariant best == 0 || mag > 0.0
      invariant forall k :: 0 <= k < i ==> Abs(WalshSum(soft, k)) <= mag
      invariant forall k :: 0 <= k < best ==> Abs(WalshSum(soft, k)) < mag
    {
      if Abs(work[i]) > mag {
        mag := Abs(work[i]);
        best := i;
      }
    }
  }

  function AbsSum(x: seq<real>): (r: real)
    ensures r >= 0.0
  {
    if x == [] then 0.0 else AbsSum(x[..|x| - 1]) + Abs(x[|x| - 1])
  }

  lemma {:induction false} SumBounded(x: seq<real>, k: nat)
    ensures Abs(WalshSum(x, k)) <= AbsSum(x)
  {
    if x != [] { SumBounded(x[..|x| - 1], k); }
  }

  lemma {:induction false} SumOfPlus(x: seq<real>, y: seq<real>, k: nat)
    requires |x| == |y|
    ensures WalshSum(Plus(x, y), k) == WalshSum(x, k) + WalshSum(y, k)
  {
    if x != [] {
      var n := |x| - 1;
      assert Plus(x, y)[..n] == Plus(x[..n], y[..n]);
      SumOfPlus(x[..n], y[..n], k);
    }
  }

  // amp at position s, 0 elsewhere.
  function Unit(s: nat, n: nat, amp: real): (r: seq<real>)
    ensures |r| == n
  {
    seq(n, i => if i == s then amp else 0.0)
  }

  lemma {:induction false} SumOfUnit(s: nat, n: nat, amp: real, k: nat)
    ensures WalshSum(Unit(s, n, amp), k) == if s >= n then 0.0 else if Parity(k, s) == 0 then amp else -amp
  {
    if n > 0 {
      assert Unit(s, n, amp)[..n - 1] == Unit(s, n - 1, amp);
      SumOfUnit(s, n - 1, amp, k);
    }
  }

  // The sequences are orthogonal: row k sums the sequence of symbol s to n * amp if k == s, to 0 otherwise.
  lemma {:induction false} Orthogonal(s: nat, k: nat, m: nat, amp: real)
    requires s < Pow2(m) && k < Pow2(m)
    ensures WalshSum(Chips(s, Pow2(m), amp), k) == if k == s then Pow2(m) as real * amp else 0.0
  {
    hide WalshSum, Parity, Had;
    var n := Pow2(m);
    var e := Unit(s, n, amp);
    forall j | 0 <= j < n ensures Had(e, m)[j] == Chips(s, n, amp)[j] {
      HadIsSum(e, m, j);
      assert WalshEncode(s, n)[j] == if Parity(s, j) == 0 then 1 else -1;
      SumOfUnit(s, n, amp, j);
      ParitySymmetric(j, s);
    }
    assert Had(e, m) == Chips(s, n, amp);
    SelfInverse(e, m, k);
    HadIsSum(Chips(s, n, amp), m, k);
  }

  lemma {:induction false} ParitySymmetric(a: nat, b: nat)
    ensures Parity(a, b) == Parity(b, a)
  {
    AndSymmetric(a, b);
  }

  // A symbol sent at amplitude amp, inverted or not, survives every noise vector whose
  // absolute values sum to less than |amp| * n / 2.
  lemma {:induction false} NoiseBound(s: nat, m: nat, amp: real, noise: seq<real>, best: nat)
    requires s < Pow2(m) && |noise| == Pow2(m) && best < Pow2(m)
    requires 2.0 * AbsSum(noise) < Pow2(m) as real * Abs(amp)
    requires var soft := Plus(Chips(s, Pow2(m), amp), noise);
             forall k :: 0 <= k < Pow2(m) ==> Abs(WalshSum(soft, k)) <= Abs(WalshSum(soft, best))
    ensures best == s
  {
    hide *;
    var peak := Pow2(m) as real * amp;
    NoisyRow(s, s, m, amp, noise, peak);
    NoisyRow(s, best, m, amp, noise, peak);
    AbsProduct(Pow2(m), amp, peak);
    assert 2.0 * AbsSum(noise) < Abs(peak);
    var soft := Plus(Chips(s, Pow2(m), amp), noise);
    assert Abs(WalshSum(soft, s)) <= Abs(WalshSum(soft, best));
    PeakWins(peak, WalshSum(noise, s), WalshSum(noise, best), AbsSum(noise));
  }

  // Only the symbol's own row sees the signal.
  lemma {:induction false} NoisyRow(s: nat, k: nat, m: nat, amp: real, noise: seq<real>, peak: real)
    requires peak == Pow2(m) as real * amp
    requires s < Pow2(m) && k < Pow2(m) && |noise| == Pow2(m)
    ensures WalshSum(Plus(Chips(s, Pow2(m), amp), noise), k)
            == if k == s then peak + WalshSum(noise, k) else WalshSum(noise, k)
    ensures Abs(WalshSum(noise, k)) <= AbsSum(noise)
  {
    hide *;
    SumOfPlus(Chips(s, Pow2(m), amp), noise, k);
    Orthogonal(s, k, m, amp);
    SumBounded(noise, k);
  }

  lemma {:induction false} PeakWins(peak: real, a: real, b: real, bound: real)
    requires Abs(a) <= bound && Abs(b) <= bound && 2.0 * bound < Abs(peak)
    ensures Abs(b) < Abs(peak + a)
  {
  }

  lemma {:induction false} AbsProduct(n: nat, a: real, product: real)
    requires product == n as real * a
    ensures Abs(product) == n as real * Abs(a)
  {
    var x := n as real;
    if a >= 0.0 {
      ProductSign(x, a);
    } else {
      ProductSign(x, -a);
      assert x * -a == -(x * a);
    }
  }

  lemma {:induction false} ProductSign(x: real, a: real)
    requires x >= 0.0 && a >= 0.0
    ensures x * a >= 0.0
  {
  }
}
