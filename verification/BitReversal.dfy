/**
 The bit-reversal permutation, generated by an increment whose carry runs from the top bit
 down, and its use to permute and unpermute.
 */
module BitReversal {
  import opened Bits

  // The low n bits of s, least significant first: the string of s with its bits reversed.
  function RevBits(s: nat, n: nat): (r: seq<bit>)
    ensures |r| == n
  {
    if n == 0 then [] else [s % 2] + RevBits(s / 2, n - 1)
  }

  // Bit reversal of an n-bit number.
  function Rev(s: nat, n: nat): nat {
    Reg(RevBits(s, n))
  }

  // Adding one with the carry running from the first element on.
  function IncTop(b: seq<bit>): (r: seq<bit>)
    ensures |r| == |b|
  {
    if b == [] then [] else if b[0] == 1 then [0] + IncTop(b[1..]) else [1] + b[1..]
  }

  lemma {:induction false} RevNext(s: nat, n: nat)
    ensures RevBits(s + 1, n) == IncTop(RevBits(s, n))
  {
    if n > 0 {
      assert RevBits(s, n)[1..] == RevBits(s / 2, n - 1);
      if s % 2 == 1 { RevNext(s / 2, n - 1); }
    }
  }

  // --- single bits of a word ---

  lemma {:induction false} TestBit(a: seq<bit>, k: nat)
    requires k < |a|
    ensures And(Reg(a), Pow2(|a| - 1 - k)) != 0 <==> a[k] == 1
  {
    hide And;
    var n := |a| - 1;
    var p := Pow2(n - k);
    AndStep(Reg(a), p);
    if k == n {
      AndNothing(Reg(a) / 2);
    } else {
      Pow2Double(n - k);
      TestBit(a[..n], k);
    }
  }

  lemma {:induction false} FlipBit(a: seq<bit>, k: nat)
    requires k < |a|
    ensures Xor(Reg(a), Pow2(|a| - 1 - k)) == Reg(a[k := 1 - a[k]])
  {
    hide Xor, Reg;
    var n := |a| - 1;
    var init := a[..n];
    assert a == init + [a[n]];
    RegPush(init, a[n]);
    if k == n {
      assert a[k := 1 - a[k]] == init + [1 - a[n]];
      RegPush(init, 1 - a[n]);
      XorPush(Reg(init), a[n], 0, 1);
      XorNothing(Reg(init));
    } else {
      Pow2Double(n - k);
      FlipBit(init, k);
      assert a[k := 1 - a[k]] == init[k := 1 - init[k]] + [a[n]];
      RegPush(init[k := 1 - init[k]], a[n]);
      XorPush(Reg(init), a[n], Pow2(n - k - 1), 0);
    }
  }

  lemma {:induction false} XorNothing(a: nat)
    ensures Xor(a, 0) == a
  {
    if a != 0 { XorNothing(a / 2); }
  }

  // --- the generator ---

  // j with the carry cleared out of its first k bits.
  lemma {:induction false} IncTopAfterOnes(b: seq<bit>, k: nat)
    requires k <= |b| && forall i :: 0 <= i < k ==> b[i] == 1
    requires k < |b| ==> b[k] == 0
    ensures IncTop(b) == Zeros(k) + (if k < |b| then [1] + b[k + 1..] else [])
  {
    if k > 0 {
      IncTopAfterOnes(b[1..], k - 1);
      assert Zeros(k) == [0] + Zeros(k - 1);
      assert k < |b| ==> b[1..][k..] == b[k + 1..];
    } else if b != [] {
      assert Zeros(0) == [];
    }
  }

  method ReverseIncrement(start: nat, bits: nat, ghost b: seq<bit>) returns (j: nat)
    requires |b| == bits >= 1 && start == Reg(b)
    ensures j == Reg(IncTop(b))
  {
    hide And, Xor, Pow2, Reg, IncTop;
    j := start;
    var bitMask := Pow2(bits - 1);
    ghost var k: nat := 0;
    assert Zeros(0) + b[0..] == b;
    while And(j, bitMask) != 0
      invariant k <= bits && j == Reg(Zeros(k) + b[k..])
      invariant bitMask == if k < bits then Pow2(bits - 1 - k) else 0
      invariant forall i :: 0 <= i < k ==> b[i] == 1
      decreases bits - k
    {
      AndNothing(j);
      FirstBit(b, k);
      HalveMask(bits - 1 - k);
      j := Xor(j, bitMask);
      bitMask := bitMask / 2;
      k := k + 1;
    }
    if k < bits {
      FirstBit(b, k);
    } else {
      XorNothing(j);
      assert b[k..] == [];
    }
    IncTopAfterOnes(b, k);
    j := Xor(j, bitMask);
  }

  // The bit under the mask, once the ones before it are cleared.
  lemma {:induction false} FirstBit(b: seq<bit>, k: nat)
    requires k < |b|
    ensures var j, mask := Reg(Zeros(k) + b[k..]), Pow2(|b| - 1 - k);
            && (And(j, mask) != 0 <==> b[k] == 1)
            && (b[k] == 1 ==> Xor(j, mask) == Reg(Zeros(k + 1) + b[k + 1..]))
            && (b[k] == 0 ==> Xor(j, mask) == Reg(Zeros(k) + ([1] + b[k + 1..])))
  {
    hide And, Xor, Pow2, Reg;
    var cur := Zeros(k) + b[k..];
    TestBit(cur, k);
    FlipBit(cur, k);
    assert cur[k] == b[k];
    assert cur[k := 0] == Zeros(k + 1) + b[k + 1..];
    assert cur[k := 1] == Zeros(k) + ([1] + b[k + 1..]);
  }

  lemma {:induction false} HalveMask(n: nat)
    ensures Pow2(n) / 2 == if n > 0 then Pow2(n - 1) else 0
  {
  }

  // The reversals of 0..count that are below n, in order.
  function Kept(count: nat, bits: nat, n: nat): seq<nat> {
    if count == 0 then []
    else Kept(count - 1, bits, n) + (if Rev(count - 1, bits) < n then [Rev(count - 1, bits)] else [])
  }

  method BitReversalIndices(n: nat) returns (idx: seq<nat>)
    requires n >= 2
    ensures Permutation(idx, n) && Ascending(idx, BitLength(n - 1))
  {
    hide Reg, RevBits;
    var bits := BitLength(n - 1);
    BitLengthBounds(n - 1);
    idx := [];
    var j: nat := 0;
    RevZero(bits);
    for s := 0 to Pow2(bits)
      invariant j == Rev(s, bits)
      invariant idx == Kept(s, bits, n)
    {
      if j < n {
        idx := idx + [j];
      }
      RevNext(s, bits);
      j := ReverseIncrement(j, bits, RevBits(s, bits));
    }
    KeptIsPermutation(bits, n);
    KeptAscends(Pow2(bits), bits, n);
  }

  // Ordered by their reversals; a permutation so ordered is the only one.
  ghost predicate Ascending(idx: seq<nat>, bits: nat) {
    forall a, b :: 0 <= a < b < |idx| ==> Rev(idx[a], bits) < Rev(idx[b], bits)
  }

  lemma {:induction false} KeptAscends(count: nat, bits: nat, n: nat)
    requires count <= Pow2(bits)
    ensures Ascending(Kept(count, bits, n), bits)
    ensures forall k :: 0 <= k < |Kept(count, bits, n)| ==> Rev(Kept(count, bits, n)[k], bits) < count
  {
    hide Rev;
    if count > 0 {
      KeptAscends(count - 1, bits, n);
      RevTwice(count - 1, bits);
    }
  }

  lemma {:induction false} OnlyAscending(x: seq<nat>, y: seq<nat>, n: nat, bits: nat)
    requires Permutation(x, n) && Permutation(y, n) && Ascending(x, bits) && Ascending(y, bits)
    ensures x == y
  {
    hide Rev;
    forall k | 0 <= k < n ensures x[k] == y[k] {
      AscendingAgrees(x, y, n, bits, k);
    }
  }

  lemma {:induction false} AscendingAgrees(x: seq<nat>, y: seq<nat>, n: nat, bits: nat, k: nat)
    requires Permutation(x, n) && Permutation(y, n) && Ascending(x, bits) && Ascending(y, bits) && k < n
    ensures x[k] == y[k]
  {
    hide Rev;
    forall i | 0 <= i < k ensures x[i] == y[i] {
      AscendingAgrees(x, y, n, bits, i);
    }
    assert x[k] in y && y[k] in x;
    var i :| 0 <= i < n && y[i] == x[k];
    var j :| 0 <= j < n && x[j] == y[k];
    assert i >= k && j >= k;
  }

  // Bit k of the reversal is bit n - 1 - k.
  lemma {:induction false} RevBitAt(s: nat, n: nat, k: nat)
    requires k < n
    ensures Rev(s, n) < Pow2(n) && Rev(s, n) / Pow2(k) % 2 == s / Pow2(n - 1 - k) % 2
  {
    hide BitsOf, BitAt, Reg, Pow2;
    RegBound(RevBits(s, n));
    RevIsReverse(s, n);
    RegAt(RevBits(s, n), k);
    BitAtIsQuotient(Rev(s, n), k);
    BitsOfAt(s, n, k);
    BitAtIsQuotient(s, n - 1 - k);
  }

  lemma {:induction false} RevZero(n: nat)
    ensures Rev(0, n) == 0
  {
    if n > 0 {
      RevZero(n - 1);
      RegCons(0, RevBits(0, n - 1));
    }
  }

  lemma {:induction false} RegCons(b: bit, a: seq<bit>)
    ensures Reg([b] + a) == (if b == 1 then Pow2(|a|) else 0) + Reg(a)
  {
    if a == [] {
      RegPush([], b);
      assert [] + [b] == [b] + [];
    } else {
      var n := |a| - 1;
      RegCons(b, a[..n]);
      assert [b] + a == ([b] + a[..n]) + [a[n]] && a == a[..n] + [a[n]];
      RegPush([b] + a[..n], a[n]);
      RegPush(a[..n], a[n]);
    }
  }

  // --- it is a permutation ---

  // Reversing twice gives the low n bits back.
  lemma {:induction false} RevTwice(s: nat, n: nat)
    requires s < Pow2(n)
    ensures Rev(s, n) < Pow2(n) && Rev(Rev(s, n), n) == s
  {
    RegBound(RevBits(s, n));
    RevIsReverse(s, n);
    RevIsReverse(Rev(s, n), n);
    BitsOfReg(RevBits(s, n));
    RegOfBits(s, n);
    LowBound(s, n);
    assert Backwards(Backwards(BitsOf(s, n))) == BitsOf(s, n);
  }

  lemma {:induction false} RevIsReverse(s: nat, n: nat)
    ensures RevBits(s, n) == Backwards(BitsOf(s, n))
  {
    if n > 0 {
      RevIsReverse(s / 2, n - 1);
    }
  }

  ghost predicate Distinct(idx: seq<nat>) {
    forall a, b :: 0 <= a < b < |idx| ==> idx[a] != idx[b]
  }

  // Each of 0..n exactly once.
  ghost predicate Permutation(idx: seq<nat>, n: nat) {
    && |idx| == n && Distinct(idx)
    && (forall k :: 0 <= k < n ==> idx[k] < n)
    && (forall v :: 0 <= v < n ==> v in idx)
  }

  lemma {:induction false} KeptElements(count: nat, bits: nat, n: nat)
    requires count <= Pow2(bits)
    ensures Distinct(Kept(count, bits, n))
    ensures forall v: nat :: v in Kept(count, bits, n) <==> v < n && v < Pow2(bits) && Rev(v, bits) < count
  {
    hide Rev;
    if count > 0 {
      KeptElements(count - 1, bits, n);
      var last := Rev(count - 1, bits);
      RevTwice(count - 1, bits);
      forall v: nat | v < Pow2(bits) && Rev(v, bits) == count - 1 ensures v == last {
        RevTwice(v, bits);
      }
    }
  }

  lemma {:induction false} KeptIsPermutation(bits: nat, n: nat)
    requires n <= Pow2(bits)
    ensures Permutation(Kept(Pow2(bits), bits, n), n)
  {
    hide Rev, Kept;
    var idx := Kept(Pow2(bits), bits, n);
    KeptElements(Pow2(bits), bits, n);
    forall v: nat | v < n ensures v in idx {
      RevTwice(v, bits);
    }
    CountDistinct(idx, n);
    Members(idx);
  }

  lemma {:induction false} Members(idx: seq<nat>)
    ensures forall k :: 0 <= k < |idx| ==> idx[k] in idx
  {
  }

  // Distinct numbers that make up exactly 0..n number n.
  lemma {:induction false} CountDistinct(idx: seq<nat>, n: nat)
    requires Distinct(idx) && forall v: nat :: v in idx <==> v < n
    ensures |idx| == n
  {
    if n == 0 {
      Members(idx);
    } else {
      assert n - 1 in idx;
      var k :| 0 <= k < |idx| && idx[k] == n - 1;
      var rest := idx[..k] + idx[k + 1..];
      forall v: nat ensures v in rest <==> v < n - 1 {
        assert v in idx <==> v < n;
      }
      CountDistinct(rest, n - 1);
    }
  }

  // --- permuting ---

  function Permute<T>(data: seq<T>, idx: seq<nat>): (r: seq<T>)
    requires forall k :: 0 <= k < |idx| ==> idx[k] < |data|
    ensures |r| == |idx|
  {
    seq(|idx|, k requires 0 <= k < |idx| => data[idx[k]])
  }

  method Unpermute<T>(data: seq<T>, idx: seq<nat>, zero: T) returns (out: seq<T>)
    requires |idx| <= |data| && forall k :: 0 <= k < |idx| ==> idx[k] < |data|
    ensures |out| == |data|
    ensures Distinct(idx) ==> forall k :: 0 <= k < |idx| ==> out[idx[k]] == data[k]
    ensures forall v :: 0 <= v < |data| && v !in idx ==> out[v] == zero
  {
    out := seq(|data|, _ => zero);
    for pos := 0 to |idx|
      invariant |out| == |data|
      invariant Distinct(idx) ==> forall k :: 0 <= k < pos ==> out[idx[k]] == data[k]
      invariant forall v :: 0 <= v < |data| && v !in idx[..pos] ==> out[v] == zero
    {
      out := out[idx[pos] := data[pos]];
    }
    assert idx[..|idx|] == idx;
  }

  // Undoing a permutation, in either order.
  lemma {:induction false} PermuteRoundTrip<T>(data: seq<T>, idx: seq<nat>, out: seq<T>)
    requires Permutation(idx, |data|) && |out| == |data|
    requires forall k :: 0 <= k < |idx| ==> out[idx[k]] == Permute(data, idx)[k]
    ensures out == data
  {
    forall v | 0 <= v < |data| ensures out[v] == data[v] {
      assert v in idx;
      var k :| 0 <= k < |idx| && idx[k] == v;
      assert out[idx[k]] == Permute(data, idx)[k];
    }
  }

  lemma {:induction false} UnpermuteRoundTrip<T>(data: seq<T>, idx: seq<nat>, out: seq<T>)
    requires Permutation(idx, |data|) && |out| == |data|
    requires forall k :: 0 <= k < |idx| ==> out[idx[k]] == data[k]
    ensures Permute(out, idx) == data
  {
  }
}
