/**
 The checksums bit by bit: where each message bit enters and each result bit comes from, and the
 two routines side by side.
 */
module CrcBits {
  import opened Bits
  import opened CrcSpec
  import opened Crc

  lemma {:induction false} ByteBitAt(refin: bool, b: nat, j: nat)
    requires j < 8
    ensures ByteBits(refin, b)[j] == b / Pow2(if refin then j else 7 - j) % 2
  {
    hide BitsOf, BitAt, Pow2;
    BitsOfAt(b, 8, if refin then 7 - j else j);
    BitAtIsQuotient(b, if refin then j else 7 - j);
  }

  // Byte i enters highest bit first, or lowest first when input is reflected.
  lemma {:induction false} MessageBitAt(refin: bool, data: seq<nat>, i: nat, j: nat)
    requires i < |data| && j < 8
    ensures |MessageBits(refin, data)| == 8 * |data|
    ensures MessageBits(refin, data)[8 * i + j] == data[i] / Pow2(if refin then j else 7 - j) % 2
  {
    hide ByteBits, Pow2;
    MessageSize(refin, data);
    var n := |data| - 1;
    MessageSize(refin, data[..n]);
    if i == n { ByteBitAt(refin, data[n], j); } else { MessageBitAt(refin, data[..n], i, j); }
  }

  lemma {:induction false} MessageSize(refin: bool, data: seq<nat>)
    ensures |MessageBits(refin, data)| == 8 * |data|
  {
    if data != [] { MessageSize(refin, data[..|data| - 1]); }
  }

  // Coefficient i of the generator below the leading one.
  lemma {:induction false} GeneratorBit(spec: Spec, i: nat)
    requires spec.Valid() && i < spec.width
    ensures spec.Poly()[i] == spec.poly / Pow2(spec.width - 1 - i) % 2
  {
    hide BitsOf, BitAt, Pow2;
    BitsOfAt(spec.poly, spec.width, i);
    BitAtIsQuotient(spec.poly, spec.width - 1 - i);
  }

  /**
   Bit k of the checksum is coefficient k of the remainder, or width - 1 - k when output is
   reflected, exclusive-or bit k of xorout; nothing stands above the width.
   */
  lemma {:induction false} CrcBit(spec: Spec, data: seq<nat>, k: nat)
    requires spec.Valid() && k < spec.width
    ensures var m := MessageBits(spec.refin, data);
            var rem := PolyMod(XorSeq(m + Zeros(spec.width), BitsOf(spec.init, spec.width) + Zeros(|m|)), spec.Poly());
            var crc := Reg(Output(spec, Register(spec, data)));
            && crc < Pow2(spec.width)
            && crc / Pow2(k) % 2
               == XorBit(rem[if spec.refout then k else spec.width - 1 - k], spec.xorout / Pow2(k) % 2)
  {
    hide BitsOf, BitAt, Pow2, Reg, PolyMod, Register;
    var r := Register(spec, data);
    CrcIsRemainder(spec, data);
    var o := Output(spec, r);
    RegBound(o);
    RegAt(o, k);
    BitAtIsQuotient(Reg(o), k);
    BitsOfAt(spec.xorout, spec.width, spec.width - 1 - k);
    BitAtIsQuotient(spec.xorout, k);
  }

  // Where the bit-counted form takes its bits from: byte by byte, highest bit first.
  lemma {:induction false} FirstBitAt(message: seq<nat>, numBits: nat, i: nat)
    requires i < numBits <= 8 * |message|
    ensures FirstBits(message, numBits)[i] == message[i / 8] / Pow2(7 - i % 8) % 2
  {
    hide Pow2, MessageBits;
    MessageBitAt(false, message, i / 8, i % 8);
    assert 8 * (i / 8) + i % 8 == i;
  }

  // Over whole bytes the bit-counted routine and the byte-wise one with the FT8 parameters agree.
  lemma {:induction false} RoutinesAgree(message: seq<nat>, w: nat)
    requires w == 14
    ensures FtxValue(message, 8 * |message|, w) == Reg(Output(CRC14_FT8, Register(CRC14_FT8, message)))
  {
    hide BitsOf, Reg, PolyMod, Register, Unused, MessageBits, Pow2;
    NothingUnused(message);
    FtxIsRemainder(message, 8 * |message|, w);
    CrcIsRemainder(CRC14_FT8, message);
    MessageSize(false, message);
    var m := MessageBits(false, message);
    assert FirstBits(message, 8 * |message|) == m;
    BitsOfZero(w);
    ZerosSplit(w, |m|);
    XorZero(m + Zeros(w));
    assert Zeros(w) + Zeros(|m|) == Zeros(|m + Zeros(w)|);
    XorZero(Register(CRC14_FT8, message));
  }

  lemma {:induction false} NothingUnused(message: seq<nat>)
    ensures Unused(message, 8 * |message|) == []
  {
  }
}
