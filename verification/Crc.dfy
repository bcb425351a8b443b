/**
 The two checksum routines on machine words: the byte-wise Rocksoft model and the
 bit-counted FT8 form whose 16-bit register keeps junk above bit 13.
 */
module Crc {
  import opened Bits
  import opened CrcSpec

  datatype Spec = Spec(width: nat, poly: nat, init: nat, refin: bool, refout: bool, xorout: nat) {
    // Shifts by width - 8 and of 1u32 by width must be possible.
    predicate Valid() { 8 <= width <= 31 }

    function Poly(): (r: seq<bit>)
      ensures |r| == width
    {
      BitsOf(poly, width)
    }
  }

  const CRC16_X25 := Spec(16, 0x1021, 0xFFFF, true, true, 0xFFFF)
  const CRC14_FT8 := Spec(14, 0x2757, 0x0000, false, false, 0x0000)

  // The message bits in the order the register sees them.
  function ByteBits(refin: bool, b: nat): (r: seq<bit>)
    ensures |r| == 8
  {
    if refin then Backwards(BitsOf(b, 8)) else BitsOf(b, 8)
  }

  function MessageBits(refin: bool, data: seq<nat>): seq<bit> {
    if data == [] then []
    else MessageBits(refin, data[..|data| - 1]) + ByteBits(refin, data[|data| - 1])
  }

  function Register(spec: Spec, data: seq<nat>): (r: seq<bit>)
    requires spec.Valid()
    ensures |r| == spec.width
  {
    Feed(spec.Poly(), BitsOf(spec.init, spec.width), MessageBits(spec.refin, data))
  }

  function Output(spec: Spec, r: seq<bit>): (o: seq<bit>)
    requires |r| == spec.width
    ensures |o| == spec.width
  {
    XorSeq(if spec.refout then Backwards(r) else r, BitsOf(spec.xorout, spec.width))
  }

  // --- words and strings ---

  lemma {:induction false} RegXor(a: seq<bit>, b: seq<bit>)
    requires |a| == |b|
    ensures Xor(Reg(a), Reg(b)) == Reg(XorSeq(a, b))
  {
    hide Xor, XorSeq;
    if a == [] { NoXor(); }
    if a != [] {
      var n := |a| - 1;
      RegXor(a[..n], b[..n]);
      XorSeqPrefix(a, b);
      XorPush(Reg(a[..n]), a[n], Reg(b[..n]), b[n]);
    }
  }

  lemma {:induction false} NoXor()
    ensures Xor(Reg([]), Reg([])) == Reg(XorSeq([], []))
  {
  }

  lemma {:induction false} XorSeqPrefix(a: seq<bit>, b: seq<bit>)
    requires |a| == |b| > 0
    ensures var n := |a| - 1;
            XorSeq(a, b)[..n] == XorSeq(a[..n], b[..n]) && XorSeq(a, b)[n] == XorBit(a[n], b[n])
  {
  }

  lemma {:induction false} RegShl(a: seq<bit>, n: nat)
    ensures Reg(a + Zeros(n)) == Shl(Reg(a), n)
  {
    if n == 0 {
      assert a + Zeros(0) == a;
    } else {
      assert a + Zeros(n) == (a + Zeros(n - 1)) + [0];
      RegPush(a + Zeros(n - 1), 0);
      RegShl(a, n - 1);
    }
  }

  method Reflect(v: nat, bits: nat) returns (r: nat)
    ensures r == Reg(Backwards(BitsOf(v, bits)))
  {
    r := 0;
    var rest := v;
    ghost var done: seq<bit> := [];
    for i := 0 to bits
      invariant |done| == i && r == Reg(done)
      invariant BitsOf(v, bits) == BitsOf(rest, bits - i) + Backwards(done)
    {
      ghost var before := done;
      var b: bit := rest % 2;
      RegPush(done, b);
      r := 2 * r + b;
      done := done + [b];
      assert Backwards(done) == [b] + Backwards(before);
      rest := rest / 2;
    }
    assert Backwards(Backwards(done)) == done;
    assert BitsOf(v, bits) == Backwards(done);
  }

  // The shift of either routine, on a w-bit register.
  lemma {:induction false} ShiftWord(poly: nat, w: nat, r: seq<bit>)
    requires |r| == w > 0
    ensures var reg := Reg(r);
            Reg(Step(BitsOf(poly, w), r, 0))
            == if And(reg, Pow2(w - 1)) != 0 then Low(Xor(2 * reg, poly), w) else Low(2 * reg, w)
  {
    hide Low, Xor, And, BitsOf, Step, XorSeq, Pow2;
    var reg := Reg(r);
    var p := BitsOf(poly, w);
    var shifted := r[1..] + [0];
    StepOnZero(p, r);
    TopBit(r);
    RegPush(r, 0);
    LowOfReg(r + [0], w);
    assert (r + [0])[1..] == shifted;
    LowOfXor(2 * reg, poly, w);
    RegOfBits(poly, w);
    RegXor(shifted, p);
  }

  lemma {:induction false} StepOnZero(poly: seq<bit>, r: seq<bit>)
    requires |r| == |poly| > 0
    ensures Step(poly, r, 0) == if r[0] == 1 then XorSeq(r[1..] + [0], poly) else r[1..] + [0]
  {
    XorZero(r[1..] + [0]);
  }

  method Crc(spec: Spec, data: seq<nat>) returns (out: nat)
    requires spec.Valid() && forall i :: 0 <= i < |data| ==> data[i] < 256
    ensures out == Reg(Output(spec, Register(spec, data)))
  {
    hide Xor, And, Feed, XorSeq, Backwards;
    var topbit := Pow2(spec.width - 1);
    var mask := Pow2(spec.width) - 1;
    var reg := And(spec.init, mask);
    LowIsMask(spec.init, spec.width);
    RegOfBits(spec.init, spec.width);
    NoBytes(spec);
    for i := 0 to |data|
      invariant reg == Reg(Register(spec, data[..i]))
    {
      NextByte(spec, data, i);
      reg := AbsorbByte(spec, topbit, mask, reg, data[i], Register(spec, data[..i]));
    }
    assert data[..|data|] == data;
    out := Finish(spec, mask, reg, Register(spec, data));
  }

  lemma {:induction false} NoBytes(spec: Spec)
    requires spec.Valid()
    ensures Register(spec, []) == BitsOf(spec.init, spec.width)
  {
  }

  method AbsorbByte(spec: Spec, topbit: nat, mask: nat, start: nat, b: nat, ghost r: seq<bit>) returns (reg: nat)
    requires spec.Valid() && topbit == Pow2(spec.width - 1) && mask == Pow2(spec.width) - 1
    requires |r| == spec.width && start == Reg(r) && b < 256
    ensures reg == Reg(Feed(spec.Poly(), r, ByteBits(spec.refin, b)))
  {
    hide Xor, And, Feed, XorSeq, Shl, BitsOf;
    var byte := b;
    if spec.refin {
      byte := Reflect(b, 8);
    } else {
      ByteValue(b, 8);
    }
    ghost var bits := ByteBits(spec.refin, b);
    LoadByte(spec.width, r, bits, byte);
    reg := Xor(start, And(Shl(byte, spec.width - 8), mask));
    reg := EightShifts(spec, topbit, mask, reg, XorSeq(r, bits + Zeros(spec.width - 8)));
    FeedLoaded(spec.Poly(), r, bits, 8);
    ByteDone(spec.Poly(), r, bits);
  }

  method Finish(spec: Spec, mask: nat, reg: nat, ghost r: seq<bit>) returns (out: nat)
    requires spec.Valid() && mask == Pow2(spec.width) - 1 && |r| == spec.width && reg == Reg(r)
    ensures out == Reg(Output(spec, r))
  {
    hide Xor, And, XorSeq, Backwards;
    var last := reg;
    ghost var o := r;
    if spec.refout {
      BitsOfReg(r);
      last := Reflect(reg, spec.width);
      o := Backwards(r);
    }
    OutputWord(spec.xorout, spec.width, o);
    LowIsMask(Xor(last, spec.xorout), spec.width);
    out := And(Xor(last, spec.xorout), mask);
  }

  method EightShifts(spec: Spec, topbit: nat, mask: nat, start: nat, ghost r: seq<bit>) returns (reg: nat)
    requires spec.Valid() && topbit == Pow2(spec.width - 1) && mask == Pow2(spec.width) - 1
    requires |r| == spec.width && start == Reg(r)
    ensures reg == Reg(Feed(spec.Poly(), r, Zeros(8)))
  {
    reg := start;
    ghost var cur := r;
    for i := 0 to 8
      invariant |cur| == spec.width && reg == Reg(cur)
      invariant cur == Feed(spec.Poly(), r, Zeros(i))
    {
      ShiftWord(spec.poly, spec.width, cur);
      LowIsMask(Xor(2 * reg, spec.poly), spec.width);
      LowIsMask(2 * reg, spec.width);
      FeedOneMoreZero(spec.Poly(), r, i);
      reg := if And(reg, topbit) != 0 then And(Xor(2 * reg, spec.poly), mask) else And(2 * reg, mask);
      cur := Step(spec.Poly(), cur, 0);
    }
  }

  lemma {:induction false} FeedOneMoreZero(poly: seq<bit>, r: seq<bit>, i: nat)
    requires |r| == |poly| > 0
    ensures Feed(poly, r, Zeros(i + 1)) == Step(poly, Feed(poly, r, Zeros(i)), 0)
  {
    ZerosSplit(i, 1);
    FeedConcat(poly, r, Zeros(i), Zeros(1));
    assert Zeros(1)[1..] == [];
  }

  lemma {:induction false} ByteValue(v: nat, n: nat)
    requires n == 8 && v < 256
    ensures Reg(BitsOf(v, n)) == v
  {
    assert Pow2(8) == 256;
    RegOfBits(v, n);
    LowBound(v, n);
  }

  lemma {:induction false} LoadByte(w: nat, r: seq<bit>, bits: seq<bit>, byte: nat)
    requires |r| == w >= |bits| && byte == Reg(bits)
    ensures Xor(Reg(r), And(Shl(byte, w - |bits|), Pow2(w) - 1)) == Reg(XorSeq(r, bits + Zeros(w - |bits|)))
  {
    hide Xor, And, Shl, Low;
    var s := bits + Zeros(w - |bits|);
    RegShl(bits, w - |bits|);
    RegBound(s);
    LowIsMask(Reg(s), w);
    LowBound(Reg(s), w);
    RegXor(r, s);
  }

  lemma {:induction false} ByteDone(poly: seq<bit>, r: seq<bit>, bits: seq<bit>)
    requires |r| == |poly| >= |bits| && |r| > 0
    ensures XorSeq(Feed(poly, r, bits[..|bits|]), bits[|bits|..] + Zeros(|r|)) == Feed(poly, r, bits)
  {
    hide XorSeq, Feed;
    assert bits[..|bits|] == bits && bits[|bits|..] + Zeros(|r|) == Zeros(|r|);
    XorZero(Feed(poly, r, bits));
  }

  lemma {:induction false} NextByte(spec: Spec, data: seq<nat>, i: nat)
    requires spec.Valid() && i < |data|
    ensures Register(spec, data[..i + 1])
            == Feed(spec.Poly(), Register(spec, data[..i]), ByteBits(spec.refin, data[i]))
  {
    hide Feed, ByteBits, BitsOf;
    assert data[..i + 1][..i] == data[..i];
    FeedConcat(spec.Poly(), BitsOf(spec.init, spec.width), MessageBits(spec.refin, data[..i]),
               ByteBits(spec.refin, data[i]));
  }

  lemma {:induction false} OutputWord(xorout: nat, w: nat, r: seq<bit>)
    requires |r| == w
    ensures Low(Xor(Reg(r), xorout), w) == Reg(XorSeq(r, BitsOf(xorout, w)))
  {
    LowOfXor(Reg(r), xorout, w);
    RegBound(r);
    LowBound(Reg(r), w);
    RegOfBits(xorout, w);
    RegXor(r, BitsOf(xorout, w));
  }

  // --- what the checksum is ---

  // The register is the remainder of message * x^w + init * x^n by the generator.
  lemma {:induction false} CrcIsRemainder(spec: Spec, data: seq<nat>)
    requires spec.Valid()
    ensures var m := MessageBits(spec.refin, data);
            Register(spec, data)
            == PolyMod(XorSeq(m + Zeros(spec.width), BitsOf(spec.init, spec.width) + Zeros(|m|)), spec.Poly())
  {
    FeedIsRemainder(spec.Poly(), BitsOf(spec.init, spec.width), MessageBits(spec.refin, data));
  }

  // The two messages agree outside a window of at most `width` register-order bits.
  ghost predicate DifferInBurst(a: seq<bit>, b: seq<bit>, from: nat, len: nat) {
    && |a| == |b| && from + len <= |a|
    && a[..from] == b[..from]
    && a[from + len..] == b[from + len..]
  }

  lemma {:induction false} BurstDetected(spec: Spec, x: seq<nat>, y: seq<nat>, from: nat, len: nat)
    requires spec.Valid() && spec.poly % 2 == 1 && len <= spec.width
    requires DifferInBurst(MessageBits(spec.refin, x), MessageBits(spec.refin, y), from, len)
    requires MessageBits(spec.refin, x) != MessageBits(spec.refin, y)
    ensures Reg(Output(spec, Register(spec, x))) != Reg(Output(spec, Register(spec, y)))
  {
    hide Feed, XorSeq, MessageBits, Output;
    var a, b := MessageBits(spec.refin, x), MessageBits(spec.refin, y);
    var poly, init := spec.Poly(), BitsOf(spec.init, spec.width);
    var d := XorSeq(a, b);
    XorCancel(a, b);
    BurstShape(a, b, from, len);
    var burst := d[from..from + len];
    ZerosSplit(from, len);
    ZerosSplit(from + len, |a| - from - len);
    OddPoly(spec);
    BurstShows(poly, from, burst, |a| - from - len);
    FeedLinear(poly, init, init, a, b);
    XorCancel(init, init);
    XorCancel(Register(spec, x), Register(spec, y));
    OutputInjective(spec, Register(spec, x), Register(spec, y));
  }

  lemma {:induction false} OddPoly(spec: Spec)
    requires spec.Valid() && spec.poly % 2 == 1
    ensures spec.Poly()[spec.width - 1] == 1
  {
  }

  lemma {:induction false} BurstShape(a: seq<bit>, b: seq<bit>, from: nat, len: nat)
    requires DifferInBurst(a, b, from, len)
    ensures XorSeq(a, b)
            == Zeros(from) + XorSeq(a, b)[from..from + len] + Zeros(|a| - from - len)
  {
    var n := from + len;
    assert a == a[..from] + a[from..n] + a[n..];
    assert b == b[..from] + b[from..n] + b[n..];
    XorCancel(a[..from], b[..from]);
    XorCancel(a[n..], b[n..]);
    XorConcat(a[..from], a[from..n], b[..from], b[from..n]);
    XorConcat(a[..from] + a[from..n], a[n..], b[..from] + b[from..n], b[n..]);
  }

  lemma {:induction false} OutputInjective(spec: Spec, r: seq<bit>, s: seq<bit>)
    requires |r| == |s| == spec.width && r != s
    ensures Reg(Output(spec, r)) != Reg(Output(spec, s))
  {
    hide Reg;
    var r', s' := if spec.refout then Backwards(r) else r, if spec.refout then Backwards(s) else s;
    if spec.refout {
      assert Backwards(Backwards(r)) == r && Backwards(Backwards(s)) == s;
    }
    var x := BitsOf(spec.xorout, spec.width);
    XorTwice(r', x);
    XorTwice(s', x);
    BitsOfReg(Output(spec, r));
    BitsOfReg(Output(spec, s));
  }

  lemma {:induction false} XorTwice(a: seq<bit>, x: seq<bit>)
    requires |a| == |x|
    ensures XorSeq(XorSeq(a, x), x) == a
  {
  }

  // --- the bit-counted form ---

  function U16(x: nat): nat {
    x % 0x1_0000
  }

  // The FT8 generator of degree 14.
  function FtxPoly(w: nat): (r: seq<bit>)
    ensures |r| == w
  {
    BitsOf(0x2757, w)
  }

  lemma {:induction false} LowOfU16(x: nat, w: nat, m: nat)
    requires w == 14 && m == 16
    ensures Low(U16(x), w) == Low(x, w)
  {
    assert Pow2(8) == 256;
    Pow2Add(8, 8);
    LowIsMod(x, m);
    LowOfLow(x, m, w);
  }

  // The bits of the byte holding bit i, from bit i on.
  function RestOfByte(message: seq<nat>, i: nat): (r: seq<bit>)
    requires i < 8 * |message|
    ensures |r| == 8 - i % 8
  {
    BitsOf(message[i / 8], 8)[i % 8..]
  }

  // The bits of a byte already taken in but not counted when the count stops at i.
  function Unused(message: seq<nat>, i: nat): (r: seq<bit>)
    requires i <= 8 * |message|
    ensures |r| <= 8
  {
    if i % 8 == 0 then [] else RestOfByte(message, i)
  }

  lemma {:induction false} FirstOfRest(message: seq<nat>, i: nat)
    requires i < 8 * |message|
    ensures i < |MessageBits(false, message)| == 8 * |message|
    ensures MessageBits(false, message)[i] == RestOfByte(message, i)[0]
  {
    hide BitsOf;
    var n := |message| - 1;
    if i >= 8 * n {
      MessageLength(message[..n]);
    } else {
      FirstOfRest(message[..n], i);
    }
  }

  lemma {:induction false} MessageLength(message: seq<nat>)
    ensures |MessageBits(false, message)| == 8 * |message|
  {
    if message != [] { MessageLength(message[..|message| - 1]); }
  }

  function FirstBits(message: seq<nat>, i: nat): (r: seq<bit>)
    requires i <= 8 * |message|
    ensures |r| == i
  {
    MessageLength(message);
    MessageBits(false, message)[..i]
  }

  // The register after i counted bits, the rest of a byte in progress already added on top.
  function Counted(message: seq<nat>, i: nat, w: nat): (r: seq<bit>)
    requires w >= 8 && i <= 8 * |message|
    ensures |r| == w
  {
    var u := Unused(message, i);
    XorSeq(Feed(FtxPoly(w), Zeros(w), FirstBits(message, i)), u + Zeros(w - |u|))
  }

  // Only the low 14 bits matter: they form a register of their own.
  lemma {:induction false} FtxShift(rem: nat, w: nat, r: seq<bit>, m: nat)
    requires w == 14 && m == 16 && |r| == w && Low(rem, w) == Reg(r)
    ensures Low(if And(rem, 0x2000) != 0 then Xor(U16(2 * rem), 0x2757) else U16(2 * rem), w)
            == Reg(Step(FtxPoly(w), r, 0))
  {
    hide Low, And, Xor, Step, U16;
    Topbit14(w);
    AndLow(rem, 0x2000, w);
    LowOfU16(2 * rem, w, m);
    LowOfXor(U16(2 * rem), 0x2757, w);
    LowOfXor(2 * Reg(r), 0x2757, w);
    ShiftLow(rem, 0, w);
    ShiftWord(0x2757, w, r);
  }

  lemma {:induction false} Topbit14(w: nat)
    requires w == 14
    ensures 0x2000 == Pow2(w - 1) < Pow2(w) == 0x4000
  {
    assert Pow2(7) == 128;
    Pow2Add(7, 7);
  }

  lemma {:induction false} FtxLoad(rem: nat, w: nat, r: seq<bit>, byte: nat)
    requires w == 14 && |r| == w && Low(rem, w) == Reg(r) && byte < 256
    ensures Low(Xor(rem, Shl(byte, w - 8)), w) == Reg(XorSeq(r, BitsOf(byte, 8) + Zeros(w - 8)))
  {
    hide Low, Xor, Shl;
    var bits := BitsOf(byte, 8);
    LowOfXor(rem, Shl(byte, w - 8), w);
    ByteValue(byte, 8);
    RegShl(bits, w - 8);
    RegBound(bits + Zeros(w - 8));
    LowBound(Reg(bits + Zeros(w - 8)), w);
    RegXor(r, bits + Zeros(w - 8));
  }

  lemma {:induction false} CountOne(message: seq<nat>, i: nat, w: nat, loaded: seq<bit>)
    requires w >= 8 && i < 8 * |message| && |loaded| == w
    requires if i % 8 == 0 then loaded == XorSeq(Counted(message, i, w), BitsOf(message[i / 8], 8) + Zeros(w - 8))
             else loaded == Counted(message, i, w)
    ensures Step(FtxPoly(w), loaded, 0) == Counted(message, i + 1, w)
  {
    hide XorSeq, Step, BitsOf, Feed;
    MessageLength(message);
    FirstOfRest(message, i);
    var bits := MessageBits(false, message);
    var rest := RestOfByte(message, i);
    var r := Feed(FtxPoly(w), Zeros(w), bits[..i]);
    if i % 8 == 0 {
      assert [] + Zeros(w) == Zeros(w) && BitsOf(message[i / 8], 8)[0..] == BitsOf(message[i / 8], 8);
      XorZero(r);
    }
    assert loaded == XorSeq(r, rest + Zeros(w - |rest|));
    StepOfLoaded(FtxPoly(w), r, rest);
    RestShrinks(message, i);
    assert bits[..i + 1] == bits[..i] + [bits[i]];
    FeedConcat(FtxPoly(w), Zeros(w), bits[..i], [bits[i]]);
    FeedOne(FtxPoly(w), r, bits[i]);
  }

  lemma {:induction false} FeedOne(poly: seq<bit>, r: seq<bit>, b: bit)
    requires |r| == |poly| > 0
    ensures Feed(poly, r, [b]) == Step(poly, r, b)
  {
    assert [b][1..] == [];
  }

  lemma {:induction false} RestShrinks(message: seq<nat>, i: nat)
    requires i < 8 * |message|
    ensures RestOfByte(message, i)[1..] == Unused(message, i + 1)
  {
    if (i + 1) % 8 != 0 {
      assert (i + 1) / 8 == i / 8 && (i + 1) % 8 == i % 8 + 1;
    }
  }

  method FtxComputeCrc(message: seq<nat>, numBits: nat) returns (crc: nat)
    requires numBits <= 8 * |message| && forall i :: 0 <= i < |message| ==> message[i] < 256
    ensures crc == FtxValue(message, numBits, 14)
  {
    hide Xor, And, Low, Shl, U16, XorSeq, Counted, Step, Reg, BitsOf, Pow2, Zeros;
    ghost var w: nat :| w == 14;
    ghost var m: nat :| m == 16;
    var remainder: nat := 0;
    var idxByte := 0;
    NothingCounted(message, w);
    for i := 0 to numBits
      invariant idxByte == (i + 7) / 8
      invariant Low(remainder, w) == Reg(Counted(message, i, w))
    {
      ghost var r := Counted(message, i, w);
      if i % 8 == 0 {
        FtxLoad(remainder, w, r, message[idxByte]);
        r := XorSeq(r, BitsOf(message[idxByte], 8) + Zeros(w - 8));
        remainder := Xor(remainder, Shl(message[idxByte], 6));
        idxByte := idxByte + 1;
      }
      CountOne(message, i, w, r);
      FtxShift(remainder, w, r, m);
      remainder := if And(remainder, 0x2000) != 0 then Xor(U16(2 * remainder), 0x2757) else U16(2 * remainder);
    }
    Topbit14(w);
    LowIsMask(remainder, w);
    crc := And(remainder, 0x3FFF);
  }

  function FtxValue(message: seq<nat>, numBits: nat, w: nat): nat
    requires w >= 8 && numBits <= 8 * |message|
  {
    Reg(Counted(message, numBits, w))
  }

  lemma {:induction false} NothingCounted(message: seq<nat>, w: nat)
    requires w >= 8
    ensures Reg(Counted(message, 0, w)) == 0 && Low(0, w) == 0
  {
    hide Feed, XorSeq, Low, Reg, MessageBits;
    assert [] + Zeros(w) == Zeros(w) && FirstBits(message, 0) == [];
    FeedNothing(FtxPoly(w), Zeros(w));
    XorZero(Zeros(w));
    RegZeros(w);
    LowBound(0, w);
  }

  lemma {:induction false} FeedNothing(poly: seq<bit>, r: seq<bit>)
    requires |r| == |poly| > 0
    ensures Feed(poly, r, []) == r
  {
  }

  lemma {:induction false} RegZeros(n: nat)
    ensures Reg(Zeros(n)) == 0
  {
    if n > 0 {
      assert Zeros(n)[..n - 1] == Zeros(n - 1);
      RegZeros(n - 1);
    }
  }

  // The bit-counted checksum is the remainder of the first numBits bits exactly when the
  // uncounted bits of the last byte are all zero.
  lemma {:induction false} FtxIsRemainder(message: seq<nat>, numBits: nat, w: nat)
    requires w >= 8 && numBits <= 8 * |message|
    ensures FtxValue(message, numBits, w) == Reg(PolyMod(FirstBits(message, numBits) + Zeros(w), FtxPoly(w)))
            <==> Unused(message, numBits) == Zeros(|Unused(message, numBits)|)
  {
    hide XorSeq, Feed, Reg, PolyMod, BitsOf;
    var u := Unused(message, numBits);
    var rem := PolyMod(FirstBits(message, numBits) + Zeros(w), FtxPoly(w));
    var pad := u + Zeros(w - |u|);
    CountedIsRemainder(message, numBits, w);
    BitsOfReg(rem);
    BitsOfReg(Counted(message, numBits, w));
    XorAbsorbs(rem, pad);
    PaddedZero(u, w);
  }

  lemma {:induction false} PaddedZero(u: seq<bit>, w: nat)
    requires |u| <= w
    ensures u + Zeros(w - |u|) == Zeros(w) <==> u == Zeros(|u|)
  {
    var pad := u + Zeros(w - |u|);
    if pad == Zeros(w) { PrefixOfZeros(u, w); }
  }

  lemma {:induction false} CountedIsRemainder(message: seq<nat>, numBits: nat, w: nat)
    requires w >= 8 && numBits <= 8 * |message|
    ensures var u := Unused(message, numBits);
            Counted(message, numBits, w)
            == XorSeq(PolyMod(FirstBits(message, numBits) + Zeros(w), FtxPoly(w)), u + Zeros(w - |u|))
  {
    hide XorSeq, Feed, PolyMod, BitsOf;
    var bits := FirstBits(message, numBits);
    FeedIsRemainder(FtxPoly(w), Zeros(w), bits);
    ZerosSplit(w, numBits);
    XorZero(bits + Zeros(w));
  }

  lemma {:induction false} XorAbsorbs(a: seq<bit>, x: seq<bit>)
    requires |a| == |x|
    ensures XorSeq(a, x) == a <==> x == Zeros(|a|)
  {
    XorZero(a);
    if XorSeq(a, x) == a {
      forall i | 0 <= i < |a| ensures x[i] == 0 {
        assert XorSeq(a, x)[i] == a[i];
      }
    }
  }
}
