/**
 The JSC code from the outside: the digits of a number, what a bit stream is read as, and which
 digits the decoder takes for a word.
 */
module JscExact {
  import opened Bits
  import opened Jsc
  import opened JscText

  // --- digits ---

  predicate Continues(digits: seq<nat>) {
    forall i :: 0 <= i < |digits| ==> S <= digits[i] < 16
  }

  // Digits 7..15 worth 1..9, in base nine.
  function Value(digits: seq<nat>): nat
    requires Continues(digits)
  {
    if digits == [] then 0
    else C * Value(digits[..|digits| - 1]) + (digits[|digits| - 1] - S + 1)
  }

  lemma {:induction false} LeadHasValue(x: nat)
    ensures Value(Lead(x)) == x
  {
    if x > 0 {
      LeadHasValue((x - 1) / C);
      assert Lead(x)[..|Lead(x)| - 1] == Lead((x - 1) / C);
    }
  }

  lemma {:induction false} ValueHasLead(digits: seq<nat>)
    requires Continues(digits)
    ensures Lead(Value(digits)) == digits
  {
    if digits != [] {
      var n := |digits| - 1;
      ValueHasLead(digits[..n]);
      assert (Value(digits) - 1) / C == Value(digits[..n]) && (Value(digits) - 1) % C == digits[n] - S;
    }
  }

  // The continuation digits of a number are the only ones of that value: a bijective numeration.
  lemma {:induction false} LeadExactly(x: nat, digits: seq<nat>)
    requires Continues(digits)
    ensures digits == Lead(x) <==> Value(digits) == x
  {
    LeadHasValue(x);
    ValueHasLead(digits);
  }

  // --- reading ---

  // The bits of symbols: four of the digit, and the flag of a terminal one.
  function Written(syms: seq<Sym>): seq<bit> {
    if syms == [] then []
    else
      BitsOf(syms[0].byte, 4)
      + (if syms[0].byte < S then [if syms[0].space then 1 else 0] else []) + Written(syms[1..])
  }

  // A stream is read to its end: what is left over is less than a digit, or the last flag is
  // missing and read as clear.
  lemma {:induction false} ParseTiles(bits: seq<bit>)
    ensures var w := Written(Parse(bits));
            w == bits + [0] || (|w| <= |bits| < |w| + 4 && w == bits[..|w|])
    ensures forall i :: 0 <= i < |Parse(bits)| ==> Parse(bits)[i].byte < 16
    decreases |bits|
  {
    hide Reg, BitsOf, Parse, Written;
    if |bits| < 4 {
      ShortStream(bits);
    } else {
      var n, head := ReadOne(bits);
      if n <= |bits| {
        ParseTiles(bits[n..]);
        TileOn(head, bits, n);
      }
    }
  }

  lemma {:induction false} ShortStream(bits: seq<bit>)
    requires |bits| < 4
    ensures Parse(bits) == [] && Written(Parse(bits)) == []
  {
  }

  // The first symbol takes n bits of the stream, one of which may be missing.
  lemma {:induction false} ReadOne(bits: seq<bit>) returns (n: nat, head: seq<Sym>)
    requires |bits| >= 4
    ensures |head| == 1 && head[0].byte < 16 && 4 <= n <= 5
    ensures n <= |bits| ==> Parse(bits) == head + Parse(bits[n..]) && Written(head) == bits[..n]
    ensures n > |bits| ==> Parse(bits) == head && Written(head) == bits + [0]
  {
    hide Reg, BitsOf;
    var byte := Reg(bits[..4]);
    DigitBack(bits[..4]);
    if byte >= S {
      n, head := 4, [Sym(byte, false)];
    } else if |bits| > 4 {
      n, head := 5, [Sym(byte, bits[4] == 1)];
      assert bits[..5] == bits[..4] + [bits[4]];
    } else {
      n, head := 5, [Sym(byte, false)];
      assert bits[..4] == bits;
    }
    assert head[1..] == [];
  }

  lemma {:induction false} DigitBack(bits: seq<bit>)
    requires |bits| == 4
    ensures Reg(bits) < 16 && BitsOf(Reg(bits), 4) == bits
  {
    RegBound(bits);
    BitsOfReg(bits);
    Widths();
  }

  lemma {:induction false} TileOn(head: seq<Sym>, bits: seq<bit>, n: nat)
    requires |head| == 1 && n <= |bits| && Written(head) == bits[..n]
    requires Parse(bits) == head + Parse(bits[n..])
    ensures Written(Parse(bits)) == bits[..n] + Written(Parse(bits[n..]))
    ensures bits == bits[..n] + bits[n..]
  {
    var rest := Parse(bits[n..]);
    assert (head + rest)[1..] == rest && head[1..] == [];
  }

  // --- words ---

  lemma {:induction false} ValueBound(digits: seq<nat>)
    requires Continues(digits)
    ensures Value(digits) <= C * Rep(|digits|)
  {
    if digits != [] { ValueBound(digits[..|digits| - 1]); }
  }

  lemma {:induction false} RepSeven(k: nat)
    requires k < 8
    ensures C * Rep(k) < 0x80_0000
  {
    RepGrows(k, 7);
    assert Rep(3) == 91;
    assert Rep(7) == 597871;
  }

  // The index the decoder computes from k < 8 continuation digits and a terminal one.
  lemma {:induction false} IndexOfDigits(digits: seq<nat>, last: nat)
    requires Continues(digits) && |digits| < 8 && last < S
    ensures Horner(digits) <= Value(digits)
    ensures U32(S * Horner(digits) + last + Base(|digits|)) == S * Value(digits) + last
  {
    hide Horner, Base, Rep, Lead, Value;
    var x := Value(digits);
    ValueHasLead(digits);
    ValueBound(digits);
    RepSeven(|digits|);
    HornerOfLead(x);
    BaseIsRep(|digits|);
  }

  /**
   The decoder takes exactly the digits of an index for its word: continuation digits of value
   index / 7, then the terminal digit index % 7.
   */
  lemma {:induction false} WordExactly(d: Dictionary, syms: seq<Sym>, index: nat, k: nat)
    requires |d.words| <= 262144 && forall i :: 0 <= i < |syms| ==> syms[i].byte < 16
    ensures NextWord(d, syms) == Word(index, k)
            <==> && index < |d.words| && k < |syms|
                 && Bytes(syms[..k]) == Lead(index / S) && syms[k].byte == index % S
  {
    if NextWord(d, syms) == Word(index, k) { WordHasDigits(d, syms, index, k); }
    if index < |d.words| && k < |syms| && Bytes(syms[..k]) == Lead(index / S) && syms[k].byte == index % S {
      DigitsMakeWord(d, syms, index, k);
    }
  }

  lemma {:induction false} WordHasDigits(d: Dictionary, syms: seq<Sym>, index: nat, k: nat)
    requires |d.words| <= 262144 && forall i :: 0 <= i < |syms| ==> syms[i].byte < 16
    requires NextWord(d, syms) == Word(index, k)
    ensures index < |d.words| && k < |syms|
    ensures Bytes(syms[..k]) == Lead(index / S) && syms[k].byte == index % S
  {
    hide Horner, Base, Run, U32, Value, Lead;
    var digits := Bytes(syms[..k]);
    IndexOfDigits(digits, syms[k].byte);
    ValueHasLead(digits);
    assert index / S == Value(digits) && index % S == syms[k].byte;
  }

  lemma {:induction false} DigitsMakeWord(d: Dictionary, syms: seq<Sym>, index: nat, k: nat)
    requires index < |d.words| <= 262144 && k < |syms|
    requires Bytes(syms[..k]) == Lead(index / S) && syms[k].byte == index % S
    ensures NextWord(d, syms) == Word(index, k)
  {
    hide Horner, Base, Run, U32, Lead;
    var lead := Lead(index / S);
    forall i | 0 <= i < k ensures syms[i].byte >= S {
      assert Bytes(syms[..k])[i] == lead[i];
    }
    RunIs(syms, k);
    IndexBack(index);
  }

  /**
   On any stream the decoder renders the code words it starts with, up to the first place where
   no word of the dictionary follows; there it stops, reading past the table of offsets or not.
   */
  lemma {:induction false} AnyStream(d: Dictionary, syms: seq<Sym>) returns (ts: seq<Token>, rest: seq<Sym>)
    requires |d.words| <= 262144
    requires forall i :: 0 <= i < |syms| ==> syms[i].byte < 16 && (syms[i].space ==> syms[i].byte < S)
    ensures forall i :: 0 <= i < |ts| ==> ts[i].index < |d.words|
    ensures syms == Syms(ts) + rest && !NextWord(d, rest).Word?
    ensures Decoded(d, syms) == Rendered(d, ts)
    ensures Overruns(d, syms) <==> NextWord(d, rest).Beyond?
    decreases |syms|
  {
    hide NextWord, TokenSyms, Lead;
    match NextWord(d, syms)
    case Word(index, k) =>
      HeadToken(d, syms, index, k);
      var t := Token(index, syms[k].space);
      ts, rest := AnyStream(d, syms[k + 1..]);
      assert ([t] + ts)[1..] == ts;
      assert syms == TokenSyms(t) + syms[k + 1..];
      assert TokenSyms(t) + (Syms(ts) + rest) == TokenSyms(t) + Syms(ts) + rest;
      ts := [t] + ts;
    case _ =>
      ts, rest := [], syms;
      assert [] + syms == syms;
  }

  lemma {:induction false} HeadToken(d: Dictionary, syms: seq<Sym>, index: nat, k: nat)
    requires |d.words| <= 262144
    requires forall i :: 0 <= i < |syms| ==> syms[i].byte < 16 && (syms[i].space ==> syms[i].byte < S)
    requires NextWord(d, syms) == Word(index, k)
    ensures index < |d.words| && k < |syms|
    ensures syms == TokenSyms(Token(index, syms[k].space)) + syms[k + 1..]
  {
    hide NextWord, Lead;
    WordHasDigits(d, syms, index, k);
    var lead, head := Lead(index / S), TokenSyms(Token(index, syms[k].space));
    assert |lead| == |Bytes(syms[..k])| == k;
    forall i | 0 <= i <= k ensures head[i] == syms[i] {
      if i < k { assert Bytes(syms[..k])[i] == lead[i] == syms[i].byte; }
    }
    assert syms == syms[..k + 1] + syms[k + 1..] && head == syms[..k + 1];
  }
}
