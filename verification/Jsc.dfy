/**
 The JSC dictionary codec: a self-delimiting dense code for dictionary indices, greedy
 compression of text into it, and the decoder.
 */
module Jsc {
  import opened Bits

  const S: nat := 7 // terminal digits 0..6
  const C: nat := 9 // continuation digits 7..15

  // `size` is the length compression removes; it should be the length of `str`.
  datatype Entry = Entry(str: string, size: nat)
  datatype ListEntry = ListEntry(str: string, size: nat, index: nat)
  datatype PrefixEntry = PrefixEntry(first: char, size: nat, index: nat)

  datatype Dictionary = Dictionary(words: seq<Entry>, list: seq<ListEntry>, prefixes: seq<PrefixEntry>) {
    // Each list entry names a non-empty word by its right length, each prefix entry a block
    // of the list, and a block of one holds the one-character word itself.
    ghost predicate WellFormed() {
      && |words| <= 262144
      && (forall i :: 0 <= i < |list| ==> ListOk(list[i]))
      && (forall i :: 0 <= i < |prefixes| ==> PrefixOk(prefixes[i]))
    }

    ghost predicate ListOk(e: ListEntry) {
      && e.index < |words| && words[e.index] == Entry(e.str, e.size)
      && 0 < e.size == |e.str|
    }

    ghost predicate PrefixOk(p: PrefixEntry) {
      && p.index + p.size <= |list|
      && (p.size == 1 ==> list[p.index].str == [p.first])
    }
  }

  // --- bit strings of numbers ---

  // The number in as many bits as it needs, filled up with zeros to the width expected.
  method IntToBits(value: nat, expected: nat) returns (bits: seq<bit>)
    ensures bits == BitsOf(value, if BitLength(value) < expected then expected else BitLength(value))
    ensures value < Pow2(expected) ==> bits == BitsOf(value, expected)
  {
    hide Pow2, BitsOf, BitLength;
    var v: nat := value;
    bits := [];
    assert BitsOf(value, BitLength(value)) + [] == BitsOf(value, BitLength(value));
    while v != 0
      invariant BitsOf(value, BitLength(value)) == BitsOf(v, BitLength(v)) + bits
      decreases v
    {
      ghost var before := bits;
      bits := [v % 2] + bits;
      LastBit(v);
      assert BitsOf(v, BitLength(v)) + before == BitsOf(v / 2, BitLength(v / 2)) + ([v % 2] + before);
      v := v / 2;
    }
    NoBits();
    assert [] + bits == bits;
    bits := FillUp(bits, expected);
    LeadingZeros(value, |bits| - BitLength(value));
    if value < Pow2(expected) { BitLengthLeast(value, expected); }
  }

  lemma {:induction false} NoBits()
    ensures BitLength(0) == 0 && BitsOf(0, 0) == []
  {
  }

  lemma {:induction false} LastBit(v: nat)
    requires v > 0
    ensures BitsOf(v, BitLength(v)) == BitsOf(v / 2, BitLength(v / 2)) + [v % 2]
  {
  }

  method FillUp(bits: seq<bit>, expected: nat) returns (r: seq<bit>)
    ensures r == Zeros(if |bits| < expected then expected - |bits| else 0) + bits
  {
    r := bits;
    ghost var n := 0;
    while |r| < expected
      invariant r == Zeros(n) + bits && (n > 0 ==> |r| <= expected)
      decreases expected - |r|
    {
      assert [0] + (Zeros(n) + bits) == Zeros(n + 1) + bits;
      r := [0] + r;
      n := n + 1;
    }
  }

  lemma {:induction false} LeadingZeros(value: nat, n: nat)
    ensures BitsOf(value, n + BitLength(value)) == Zeros(n) + BitsOf(value, BitLength(value))
  {
    if value == 0 {
      BitsOfZero(n);
      assert Zeros(n) + [] == Zeros(n);
    } else {
      LeadingZeros(value / 2, n);
      assert Zeros(n) + (BitsOf(value / 2, BitLength(value / 2)) + [value % 2])
          == Zeros(n) + BitsOf(value / 2, BitLength(value / 2)) + [value % 2];
    }
  }

  // --- the code ---

  datatype Token = Token(index: nat, space: bool)

  // Bijective base-9 digits of x, most significant first, each stored as 7..15.
  function Lead(x: nat): (r: seq<nat>)
    ensures forall i :: 0 <= i < |r| ==> S <= r[i] < 16
  {
    if x == 0 then [] else Lead((x - 1) / C) + [(x - 1) % C + S]
  }

  function Nibbles(digits: seq<nat>): seq<bit> {
    if digits == [] then [] else Nibbles(digits[..|digits| - 1]) + BitsOf(digits[|digits| - 1], 4)
  }

  function CodeBits(t: Token): seq<bit> {
    Nibbles(Lead(t.index / S)) + BitsOf(t.index % S, 4) + [if t.space then 1 else 0]
  }

  function Encoded(ts: seq<Token>): seq<bit> {
    if ts == [] then [] else CodeBits(ts[0]) + Encoded(ts[1..])
  }

  method Codeword(index: nat, separate: bool) returns (word: seq<bit>)
    ensures word == CodeBits(Token(index, separate))
  {
    hide BitsOf, Lead, Pow2, Nibbles;
    Widths();
    var flag: bit := if separate then 1 else 0;
    var last := IntToBits(2 * (index % S) + flag, 5);
    BitsPush(index % S, flag, 4);
    var x: nat := index / S;
    word := last;
    while x > 0
      invariant Nibbles(Lead(x)) + word == Nibbles(Lead(index / S)) + last
      decreases x
    {
      ghost var before := word;
      ghost var y := x;
      x := x - 1;
      var digit := IntToBits(x % C + S, 4);
      word := digit + word;
      x := x / C;
      LeadStep(y);
      assert Nibbles(Lead(x)) + digit + before == Nibbles(Lead(x)) + word;
    }
    NoLead();
    assert Nibbles(Lead(index / S)) + last == CodeBits(Token(index, separate));
  }

  lemma {:induction false} Widths()
    ensures Pow2(4) == 16 && Pow2(5) == 32
  {
  }

  lemma {:induction false} BitsPush(v: nat, b: bit, n: nat)
    ensures BitsOf(2 * v + b, n + 1) == BitsOf(v, n) + [b]
  {
  }

  lemma {:induction false} NoLead()
    ensures Nibbles(Lead(0)) == []
  {
  }

  lemma {:induction false} LeadStep(y: nat)
    requires y > 0
    ensures Nibbles(Lead(y)) == Nibbles(Lead((y - 1) / C)) + BitsOf((y - 1) % C + S, 4)
  {
    var l, d := Lead((y - 1) / C), (y - 1) % C + S;
    assert (l + [d])[..|l|] == l;
  }

  // --- reading bits back ---

  // A base-16 digit of the stream; `space` marks a terminal digit followed by a set flag bit.
  datatype Sym = Sym(byte: nat, space: bool)

  function Parse(bits: seq<bit>): (r: seq<Sym>)
    ensures forall i :: 0 <= i < |r| && r[i].space ==> r[i].byte < S
    decreases |bits|
  {
    if |bits| < 4 then []
    else
      var byte := Reg(bits[..4]);
      if byte >= S then [Sym(byte, false)] + Parse(bits[4..])
      else if |bits| == 4 then [Sym(byte, false)]
      else [Sym(byte, bits[4] == 1)] + Parse(bits[5..])
  }

  function Bytes(syms: seq<Sym>): (r: seq<nat>)
    ensures |r| == |syms|
  {
    seq(|syms|, i requires 0 <= i < |syms| => syms[i].byte)
  }

  // Positions of the marked symbols, counted from `from`.
  function Marks(syms: seq<Sym>, from: nat): (r: seq<nat>)
    ensures forall i :: 0 <= i < |r| ==> from <= r[i] < from + |syms|
  {
    if syms == [] then []
    else (if syms[0].space then [from] else []) + Marks(syms[1..], from + 1)
  }

  lemma {:induction false} MarksAppend(syms: seq<Sym>, s: Sym, from: nat)
    ensures Marks(syms + [s], from) == Marks(syms, from) + (if s.space then [from + |syms|] else [])
  {
    if syms == [] {
      assert [s][1..] == [];
    } else {
      assert (syms + [s])[1..] == syms[1..] + [s];
      MarksAppend(syms[1..], s, from + 1);
    }
  }

  lemma {:induction false} BytesAppend(syms: seq<Sym>, s: Sym)
    ensures Bytes(syms + [s]) == Bytes(syms) + [s.byte]
  {
  }

  method BitsToInt(v: seq<bit>) returns (out: nat)
    ensures out == Reg(v)
  {
    out := 0;
    for i := 0 to |v|
      invariant out == Reg(v[..i])
    {
      assert v[..i + 1] == v[..i] + [v[i]];
      RegPush(v[..i], v[i]);
      out := 2 * out + v[i];
    }
    assert v[..|v|] == v;
  }

  // What is still unread; the reader may step one past the end.
  function Unread(bitvec: seq<bit>, i: nat): seq<bit> {
    if i <= |bitvec| then bitvec[i..] else []
  }

  method ParseBits(bitvec: seq<bit>) returns (bytes: seq<nat>, separators: seq<nat>)
    ensures bytes == Bytes(Parse(bitvec)) && separators == Marks(Parse(bitvec), 0)
  {
    hide Parse, Marks, Reg, Bytes;
    bytes, separators := [], [];
    var i: nat := 0;
    ghost var done: seq<Sym> := [];
    NothingRead(bitvec);
    while i < |bitvec|
      invariant done + Parse(Unread(bitvec, i)) == Parse(bitvec)
      invariant bytes == Bytes(done) && separators == Marks(done, 0) && |bytes| == |done|
    {
      if i + 4 > |bitvec| {
        break;
      }
      ghost var start := i;
      var byte := BitsToInt(bitvec[i..i + 4]);
      bytes := bytes + [byte];
      i := i + 4;
      ghost var sym := Sym(byte, byte < S && i < |bitvec| && bitvec[i] == 1);
      if byte < S {
        if i < |bitvec| && bitvec[i] == 1 {
          separators := separators + [|bytes| - 1];
        }
        i := i + 1;
      }
      ParseStep(bitvec, start, i, sym);
      MarksAppend(done, sym, 0);
      BytesAppend(done, sym);
      assert done + ([sym] + Parse(Unread(bitvec, i))) == done + [sym] + Parse(Unread(bitvec, i));
      done := done + [sym];
    }
    NothingLeft(bitvec, i);
    assert done + [] == done;
  }

  lemma {:induction false} ParseStep(bitvec: seq<bit>, i: nat, i': nat, sym: Sym)
    requires i + 4 <= |bitvec|
    requires sym.byte == Reg(bitvec[i..i + 4])
    requires sym.space == (sym.byte < S && i + 4 < |bitvec| && bitvec[i + 4] == 1)
    requires i' == i + (if sym.byte < S then 5 else 4)
    ensures Parse(Unread(bitvec, i)) == [sym] + Parse(Unread(bitvec, i'))
  {
    hide Reg;
    var rest := bitvec[i..];
    assert rest[..4] == bitvec[i..i + 4];
    if sym.byte < S && |rest| > 4 {
      assert rest[4] == bitvec[i + 4];
      assert rest[5..] == Unread(bitvec, i');
    } else if sym.byte >= S {
      assert rest[4..] == Unread(bitvec, i');
    }
  }

  lemma {:induction false} NothingRead(bitvec: seq<bit>)
    ensures [] + Parse(Unread(bitvec, 0)) == Parse(bitvec) && Bytes([]) == [] && Marks([], 0) == []
  {
    assert bitvec[0..] == bitvec;
  }

  lemma {:induction false} NothingLeft(bitvec: seq<bit>, i: nat)
    requires i + 4 > |bitvec|
    ensures Parse(Unread(bitvec, i)) == []
  {
  }

  // --- from digits to words ---

  // Offset of the codes with k continuation digits.
  function Base(k: nat): nat {
    if k == 0 then 0 else Base(k - 1) + S * Pow9(k - 1)
  }

  function Pow9(k: nat): nat {
    if k == 0 then 1 else C * Pow9(k - 1)
  }

  // Length of the leading run of continuation digits.
  function Run(syms: seq<Sym>): (k: nat)
    ensures k <= |syms|
    ensures k < |syms| ==> syms[k].byte < S
    ensures forall i :: 0 <= i < k ==> syms[i].byte >= S
  {
    if syms == [] || syms[0].byte < S then 0 else 1 + Run(syms[1..])
  }

  // The 32-bit accumulator of the decoder over continuation digits.
  function Horner(digits: seq<nat>): nat {
    if digits == [] then 0
    else
      var n := |digits| - 1;
      U32(C * Horner(digits[..n]) + (if digits[n] >= S then digits[n] - S else 0))
  }

  // What the decoder finds at the head of the stream: no word (`End`), a word after k continuation
  // digits, or a run of digits so long that the table of eight offsets is read past its end.
  datatype Head = End | Beyond | Word(index: nat, k: nat)

  function NextWord(d: Dictionary, syms: seq<Sym>): (h: Head)
    ensures h.Word? ==> h.index < |d.words| && h.k < |syms|
  {
    var k := Run(syms);
    var j := Horner(Bytes(syms[..k]));
    if k >= |syms| || j >= |d.words| then End
    else if k >= 8 then Beyond
    else
      var index := U32(S * j + syms[k].byte + Base(k));
      if index >= |d.words| then End else Word(index, k)
  }

  function Decoded(d: Dictionary, syms: seq<Sym>): string
    decreases |syms|
  {
    match NextWord(d, syms)
    case Word(index, k) => d.words[index].str + (if syms[k].space then " " else "") + Decoded(d, syms[k + 1..])
    case _ => ""
  }

  // The decoder comes to a place where it reads past the table.
  predicate Overruns(d: Dictionary, syms: seq<Sym>)
    decreases |syms|
  {
    match NextWord(d, syms)
    case Word(_, k) => Overruns(d, syms[k + 1..])
    case Beyond => true
    case End => false
  }
}
