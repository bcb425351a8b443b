/**
 Unsigned machine words seen as natural numbers: bitwise `and`, population count,
 parity, and the shift register `(reg << 1) | bit` on which the codes are built.
 A word of `w` bits is a number below `Pow2(w)`; `Low(x, w)` drops the bits above it.
 */
module Bits {
  type bit = b: nat | b < 2

  function Pow2(n: nat): (r: nat)
    ensures r > 0
  {
    if n == 0 then 1 else 2 * Pow2(n - 1)
  }

  function And(a: nat, b: nat): nat {
    if a == 0 || b == 0 then 0
    else 2 * And(a / 2, b / 2) + (if a % 2 == 1 && b % 2 == 1 then 1 else 0)
  }

  // The low m bits: x & (2^m - 1).
  function Low(x: nat, m: nat): nat {
    if m == 0 then 0 else 2 * Low(x / 2, m - 1) + x % 2
  }

  function CountOnes(a: nat): nat {
    if a == 0 then 0 else a % 2 + CountOnes(a / 2)
  }

  // (reg & mask).count_ones() & 1
  function Parity(reg: nat, mask: nat): bit {
    CountOnes(And(reg, mask)) % 2
  }

  // The contents of an unbounded shift register after the given bits, newest in the LSB.
  function Reg(bits: seq<bit>): nat {
    if bits == [] then 0 else 2 * Reg(bits[..|bits| - 1]) + bits[|bits| - 1]
  }

  function Zeros(n: nat): (r: seq<bit>)
    ensures |r| == n
  {
    seq(n, _ => 0)
  }

  lemma {:induction false} ModUnique(q: int, m: nat, r: int)
    requires 0 <= r < m
    ensures (q * m + r) % m == r && (q * m + r) / m == q
  {
    var x := q * m + r;
    var q', r' := x / m, x % m;
    assert q' * m + r' == q * m + r;
    var d := q' - q;
    assert d * m == r - r';
    assert d >= 1 ==> d * m >= m;
    assert d <= -1 ==> d * m + m <= 0;
  }

  lemma {:induction false} ModRange(r: nat, m: nat)
    requires 0 < m && r < 2 * m
    ensures r % m == if r < m then r else r - m
  {
    if r >= m { ModUnique(1, m, r - m); } else { ModUnique(0, m, r); }
  }

  lemma {:induction false} LowIsMask(x: nat, m: nat)
    ensures Low(x, m) == And(x, Pow2(m) - 1) < Pow2(m)
  {
    if m > 0 {
      LowIsMask(x / 2, m - 1);
      var mask := Pow2(m) - 1;
      assert mask / 2 == Pow2(m - 1) - 1 && mask % 2 == 1;
      AndStep(x, mask);
    }
  }

  lemma {:induction false} LowBound(x: nat, m: nat)
    ensures Low(x, m) < Pow2(m)
    ensures x < Pow2(m) ==> Low(x, m) == x
  {
    if m > 0 { LowBound(x / 2, m - 1); }
  }

  lemma {:induction false} LowOfLow(x: nat, m: nat, n: nat)
    requires n <= m
    ensures Low(Low(x, m), n) == Low(x, n)
  {
    if n > 0 { LowOfLow(x / 2, m - 1, n - 1); }
  }

  // Shifting a truncated register and truncating again loses nothing.
  lemma {:induction false} ShiftLow(x: nat, b: bit, m: nat)
    ensures Low(2 * Low(x, m) + b, m) == Low(2 * x + b, m)
    ensures Low(2 * x + b, m + 1) == 2 * Low(x, m) + b
  {
    if m > 0 { LowOfLow(x, m, m - 1); }
  }

  // A mask below 2^m only sees the low m bits of the register.
  lemma {:induction false} AndLow(x: nat, p: nat, m: nat)
    requires p < Pow2(m)
    ensures And(Low(x, m), p) == And(x, p)
  {
    if m > 0 {
      AndLow(x / 2, p / 2, m - 1);
      AndStep(x, p);
      AndStep(Low(x, m), p);
    }
  }

  lemma {:induction false} AndStep(a: nat, b: nat)
    ensures And(a, b) == 2 * And(a / 2, b / 2) + (if a % 2 == 1 && b % 2 == 1 then 1 else 0)
  {
  }

  lemma {:induction false} OnesDouble(h: nat, b: bit)
    ensures CountOnes(2 * h + b) == CountOnes(h) + b
  {
  }

  lemma {:induction false} Pow2Monotone(a: nat, b: nat)
    requires a <= b
    ensures Pow2(a) <= Pow2(b)
  {
    if a < b { Pow2Monotone(a, b - 1); }
  }

  lemma {:induction false} Pow2Double(n: nat)
    requires n > 0
    ensures Pow2(n) == 2 * Pow2(n - 1)
  {
  }

  lemma {:induction false} Pow2Add(a: nat, b: nat)
    ensures Pow2(a + b) == Pow2(a) * Pow2(b)
  {
    if a > 0 { Pow2Add(a - 1, b); }
  }

  // --- exclusive or, shifts, and words as bit strings ---

  function Xor(a: nat, b: nat): nat
    decreases a + b
  {
    if a == 0 && b == 0 then 0 else 2 * Xor(a / 2, b / 2) + (a % 2 + b % 2) % 2
  }

  // x << n
  function Shl(x: nat, n: nat): nat {
    if n == 0 then x else 2 * Shl(x, n - 1)
  }

  // The low n bits of v as a string, most significant first.
  function BitsOf(v: nat, n: nat): (r: seq<bit>)
    ensures |r| == n
  {
    if n == 0 then [] else BitsOf(v / 2, n - 1) + [v % 2]
  }

  lemma {:induction false} XorStep(a: nat, b: nat)
    ensures Xor(a, b) == 2 * Xor(a / 2, b / 2) + (a % 2 + b % 2) % 2
  {
  }

  lemma {:induction false} XorPush(p: nat, x: bit, q: nat, y: bit)
    ensures Xor(2 * p + x, 2 * q + y) == 2 * Xor(p, q) + (x + y) % 2
  {
    hide Xor;
    XorStep(2 * p + x, 2 * q + y);
    assert (2 * p + x) / 2 == p && (2 * q + y) / 2 == q;
  }

  lemma {:induction false} LowOfXor(a: nat, b: nat, m: nat)
    ensures Low(Xor(a, b), m) == Xor(Low(a, m), Low(b, m))
  {
    if m > 0 {
      LowOfXor(a / 2, b / 2, m - 1);
      LowOfXorStep(a / 2, a % 2, b / 2, b % 2, m - 1);
    }
  }

  lemma {:induction false} LowOfXorStep(p: nat, x: bit, q: nat, y: bit, m: nat)
    requires Low(Xor(p, q), m) == Xor(Low(p, m), Low(q, m))
    ensures Low(Xor(2 * p + x, 2 * q + y), m + 1) == Xor(Low(2 * p + x, m + 1), Low(2 * q + y, m + 1))
  {
    hide Low, Xor;
    var e: bit := (x + y) % 2;
    XorPush(p, x, q, y);
    ShiftLow(Xor(p, q), e, m);
    ShiftLow(p, x, m);
    ShiftLow(q, y, m);
    XorPush(Low(p, m), x, Low(q, m), y);
  }

  lemma {:induction false} RegPush(a: seq<bit>, b: bit)
    ensures Reg(a + [b]) == 2 * Reg(a) + b
  {
    assert (a + [b])[..|a|] == a;
  }

  lemma {:induction false} RegOfBits(v: nat, n: nat)
    ensures Reg(BitsOf(v, n)) == Low(v, n)
  {
    if n > 0 {
      RegOfBits(v / 2, n - 1);
      RegPush(BitsOf(v / 2, n - 1), v % 2);
    }
  }

  lemma {:induction false} RegBound(a: seq<bit>)
    ensures Reg(a) < Pow2(|a|)
  {
    if a != [] { RegBound(a[..|a| - 1]); }
  }

  lemma {:induction false} BitsOfReg(a: seq<bit>)
    ensures BitsOf(Reg(a), |a|) == a
  {
    if a != [] {
      BitsOfReg(a[..|a| - 1]);
      assert a == a[..|a| - 1] + [a[|a| - 1]];
    }
  }

  lemma {:induction false} NothingLow(x: nat)
    ensures Low(x, 0) == Reg([])
  {
  }

  // Truncating a word drops the leading bits of its string.
  lemma {:induction false} LowOfReg(a: seq<bit>, n: nat)
    requires n <= |a|
    ensures Low(Reg(a), n) == Reg(a[|a| - n..])
  {
    hide Low, Reg;
    if n == 0 {
      NothingLow(Reg(a));
      assert a[|a|..] == [];
    } else {
      var init, b := a[..|a| - 1], a[|a| - 1];
      LowOfReg(init, n - 1);
      assert a[|a| - n..] == init[|init| - (n - 1)..] + [b] && a == init + [b];
      RegPush(init[|init| - (n - 1)..], b);
      RegPush(init, b);
      ShiftLow(Reg(init), b, n - 1);
    }
  }

  // The top bit of an n-bit word is the first of its string.
  lemma {:induction false} TopBit(a: seq<bit>)
    requires a != []
    ensures And(Reg(a), Pow2(|a| - 1)) != 0 <==> a[0] == 1
  {
    var n := |a|;
    AndStep(Reg(a), Pow2(n - 1));
    if n == 1 {
      assert a[..0] == [];
      AndNothing(Reg(a) / 2);
    } else {
      TopBit(a[..n - 1]);
    }
  }

  lemma {:induction false} AndNothing(a: nat)
    ensures And(a, 0) == 0 == And(0, a) && CountOnes(0) == 0
  {
  }

  // Bits needed to write x.
  function BitLength(x: nat): nat {
    if x == 0 then 0 else 1 + BitLength(x / 2)
  }

  lemma {:induction false} BitLengthBounds(x: nat)
    ensures x < Pow2(BitLength(x)) && (x > 0 ==> BitLength(x) > 0)
  {
    if x > 0 { BitLengthBounds(x / 2); }
  }

  lemma {:induction false} BitLengthLeast(x: nat, n: nat)
    requires x < Pow2(n)
    ensures BitLength(x) <= n
  {
    if x > 0 { BitLengthLeast(x / 2, n - 1); }
  }

  lemma {:induction false} BitsOfZero(n: nat)
    ensures BitsOf(0, n) == Zeros(n)
  {
    if n > 0 {
      BitsOfZero(n - 1);
      assert Zeros(n) == Zeros(n - 1) + [0];
    }
  }

  // Bit k of v.
  function BitAt(v: nat, k: nat): bit {
    if k == 0 then v % 2 else BitAt(v / 2, k - 1)
  }

  lemma {:induction false} BitAtIsQuotient(v: nat, k: nat)
    ensures BitAt(v, k) == v / Pow2(k) % 2
  {
    if k > 0 {
      var h := Pow2(k - 1);
      BitAtIsQuotient(v / 2, k - 1);
      var q, r := Divide(v / 2, h);
      DoubledDivision(v / 2, v % 2, h, q, r);
    }
  }

  lemma {:induction false} BitsOfAt(v: nat, n: nat, i: nat)
    requires i < n
    ensures BitsOf(v, n)[i] == BitAt(v, n - 1 - i)
  {
    if i < n - 1 { BitsOfAt(v / 2, n - 1, i); }
  }

  // The registers' bits are the newest inputs.
  lemma {:induction false} RegAt(a: seq<bit>, k: nat)
    ensures BitAt(Reg(a), k) == if k < |a| then a[|a| - 1 - k] else 0
  {
    if a == [] {
      if k > 0 { RegAt(a, k - 1); }
    } else {
      if k > 0 { RegAt(a[..|a| - 1], k - 1); }
    }
  }

  lemma {:induction false} NoBitsSet(k: nat)
    ensures BitAt(0, k) == 0
  {
    if k > 0 { NoBitsSet(k - 1); }
  }

  // The ones of x that stand at ones of p, among the lowest n places.
  function Overlap(x: nat, p: nat, n: nat): nat {
    if n == 0 then 0 else Overlap(x, p, n - 1) + BitAt(x, n - 1) * BitAt(p, n - 1)
  }

  lemma {:induction false} OverlapHalves(x: nat, p: nat, n: nat)
    requires n > 0
    ensures Overlap(x, p, n) == Overlap(x / 2, p / 2, n - 1) + (x % 2) * (p % 2)
  {
    if n > 1 { OverlapHalves(x, p, n - 1); }
  }

  // What the parity of a masked register means: places where both are one, counted modulo two.
  lemma {:induction false} ParityIsOverlap(x: nat, p: nat, n: nat)
    requires p < Pow2(n)
    ensures CountOnes(And(x, p)) == Overlap(x, p, n)
    ensures Parity(x, p) == Overlap(x, p, n) % 2
  {
    hide And, CountOnes;
    if n == 0 {
      AndNothing(x);
    } else {
      ParityIsOverlap(x / 2, p / 2, n - 1);
      OverlapHalves(x, p, n);
      AndStep(x, p);
      OnesDouble(And(x / 2, p / 2), if x % 2 == 1 && p % 2 == 1 then 1 else 0);
      assert (x % 2) * (p % 2) == if x % 2 == 1 && p % 2 == 1 then 1 else 0;
    }
  }

  /**
   The number of cells in t rows of n, t * n, as a repeated sum: offsets into flat
   tables are written with it so that reasoning about them stays linear.
   */
  function Cells(t: nat, n: nat): nat {
    if t == 0 then 0 else Cells(t - 1, n) + n
  }

  lemma {:induction false} CellsIsProduct(t: nat, n: nat)
    ensures Cells(t, n) == t * n
  {
    if t > 0 {
      CellsIsProduct(t - 1, n);
      assert t * n == (t - 1) * n + n;
    }
  }

  lemma {:induction false} CellsMonotone(i: nat, t: nat, n: nat)
    requires i <= t
    ensures Cells(i, n) <= Cells(t, n)
  {
    if i < t { CellsMonotone(i, t - 1, n); }
  }

  // --- 32-bit words ---

  function U32(x: nat): nat {
    x % 0x1_0000_0000
  }

  lemma {:induction false} WordShift(x: nat, b: bit)
    ensures U32(2 * U32(x) + b) == U32(2 * x + b)
  {
    var w := 0x1_0000_0000;
    var q, y := x / w, 2 * (x % w) + b;
    assert 2 * x + b == (2 * q + y / w) * w + y % w;
    ModUnique(2 * q + y / w, w, y % w);
  }

  lemma {:induction false} LowIsMod(x: nat, m: nat)
    ensures Low(x, m) == x % Pow2(m)
  {
    if m > 0 {
      LowIsMod(x / 2, m - 1);
      ModOfDouble(x / 2, x % 2, Pow2(m - 1));
    }
  }

  // Dividing by 2h after pushing a bit.
  lemma {:induction false} ModOfDouble(y: nat, b: bit, h: nat)
    requires h > 0
    ensures (2 * y + b) % (2 * h) == 2 * (y % h) + b
  {
    var q, r := Divide(y, h);
    DoubledDivision(y, b, h, q, r);
  }

  lemma {:induction false} Divide(y: nat, h: nat) returns (q: nat, r: nat)
    requires h > 0
    ensures y == q * h + r && r == y % h < h && q == y / h
  {
    q, r := y / h, y % h;
  }

  lemma {:induction false} DoubledDivision(y: nat, b: bit, h: nat, q: nat, r: nat)
    requires y == q * h + r && r < h
    ensures (2 * y + b) % (2 * h) == 2 * r + b && (2 * y + b) / (2 * h) == q
  {
    DoubledProduct(q, h);
    ModUnique(q, 2 * h, 2 * r + b);
  }

  lemma {:induction false} DoubledProduct(q: nat, h: nat)
    ensures q * (2 * h) == 2 * (q * h)
  {
  }

  lemma {:induction false} Pow2Of32(m: nat)
    requires m == 32
    ensures Pow2(m) == 0x1_0000_0000
  {
    assert Pow2(8) == 256;
    Pow2Add(8, 8);
    Pow2Add(16, 16);
  }

  // A mask that fits the word does not see the bits a 32-bit register loses.
  lemma {:induction false} AndWord(x: nat, p: nat, m: nat)
    requires m == 32 && p < Pow2(m)
    ensures And(U32(x), p) == And(x, p)
  {
    AndLow(x, p, m);
    LowIsMod(x, m);
    Pow2Of32(m);
  }

  // --- ring positions ---

  // x mod depth, counted up.
  function RingPos(x: nat, depth: nat): (r: nat)
    requires depth > 0
    ensures r < depth
  {
    if x == 0 then 0
    else
      var p := RingPos(x - 1, depth) + 1;
      if p == depth then 0 else p
  }

  lemma {:induction false} RingPosIsMod(x: nat, depth: nat)
    requires depth > 0
    ensures RingPos(x, depth) == x % depth
  {
    if x > 0 {
      RingPosIsMod(x - 1, depth);
      NextMod(x - 1, depth);
    } else {
      ModUnique(0, depth, 0);
    }
  }

  lemma {:induction false} NextMod(x: nat, m: nat)
    requires m > 0
    ensures (x + 1) % m == if x % m + 1 == m then 0 else x % m + 1
  {
    var q, r := Divide(x, m);
    if r + 1 == m {
      assert (q + 1) * m == q * m + m;
      ModUnique(q + 1, m, 0);
    } else {
      ModUnique(q, m, r + 1);
    }
  }

  method RingForward(ring: nat, depth: nat) returns (r: nat)
    requires ring < depth
    ensures r == if ring + 1 == depth then 0 else ring + 1
  {
    ModRange(ring + 1, depth);
    r := (ring + 1) % depth;
  }

  lemma {:induction false} FlipNewest(x: nat, p: nat)
    requires p % 2 == 1
    ensures Parity(2 * x, p) == 1 - Parity(2 * x + 1, p)
  {
    hide And, CountOnes;
    AndStep(2 * x, p);
    AndStep(2 * x + 1, p);
    OnesDouble(And(x, p / 2), 0);
    OnesDouble(And(x, p / 2), 1);
  }

  lemma {:induction false} CellsAdd(a: nat, b: nat, n: nat)
    ensures Cells(a + b, n) == Cells(a, n) + Cells(b, n)
  {
    if b > 0 { CellsAdd(a, b - 1, n); }
  }

  lemma {:induction false} CellsSplit(t: nat, a: nat, b: nat)
    ensures Cells(t, a + b) == Cells(t, a) + Cells(t, b)
  {
    if t > 0 { CellsSplit(t - 1, a, b); }
  }

  function Backwards(a: seq<bit>): (r: seq<bit>)
    ensures |r| == |a|
  {
    seq(|a|, i requires 0 <= i < |a| => a[|a| - 1 - i])
  }
}
