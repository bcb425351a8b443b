/**
 Text through the JSC code: the decoder, greedy dictionary compression, and the round trip.
 */
module JscText {
  import opened Bits
  import opened Jsc

  // --- decoding ---

  // Reading position: what is decoded so far, and the marks still ahead.
  ghost predicate Reading(d: Dictionary, syms: seq<Sym>, start: nat, separators: seq<nat>, out: string) {
    && start <= |syms|
    && separators == Marks(syms[start..], start)
    && out + Decoded(d, syms[start..]) == Decoded(d, syms)
    && Overruns(d, syms[start..]) == Overruns(d, syms)
  }

  // The text, and whether the source would read past its table of offsets; the text is then what was
  // decoded before.
  method Decompress(d: Dictionary, bitvec: seq<bit>) returns (out: string, overrun: bool)
    ensures out == Decoded(d, Parse(bitvec)) && overrun == Overruns(d, Parse(bitvec))
  {
    hide Decoded, Overruns, Parse, Marks, Horner, Run, U32, Base;
    var bytes, separators := ParseBits(bitvec);
    ghost var syms := Parse(bitvec);
    out, overrun := "", false;
    var start := 0;
    assert syms[0..] == syms;
    while start < |bytes|
      invariant Reading(d, syms, start, separators, out)
      decreases |bytes| - start
    {
      ghost var rest := syms[start..];
      var k: nat, j: nat := 0, 0;
      HornerStart();
      while start + k < |bytes| && bytes[start + k] >= S
        invariant k <= |rest| && j == Horner(Bytes(rest[..k]))
        invariant forall i :: 0 <= i < k ==> rest[i].byte >= S
      {
        HornerStep(rest, k);
        j := U32(C * j + (bytes[start + k] - S));
        k := k + 1;
      }
      RunIs(rest, k);
      DecodedStep(d, rest, k);
      if j >= |d.words| { return; }
      if start + k >= |bytes| { return; }
      if k >= 8 { return out, true; }
      j := U32(S * j + bytes[start + k] + Base(k));
      if j >= |d.words| { return; }
      MarksAfterRun(rest, k, start);
      ghost var before := out;
      out := out + d.words[j].str;
      if separators != [] && separators[0] == start + k {
        out := out + " ";
        separators := separators[1..];
      }
      Advance(d, syms, start, k, before, out, d.words[j].str + (if rest[k].space then " " else ""));
      start := start + (k + 1);
    }
    NoSymbols(d);
    assert syms[start..] == [];
  }

  lemma {:induction false} HornerStart()
    ensures forall s: seq<Sym> :: Horner(Bytes(s[..0])) == 0
  {
    forall s: seq<Sym> ensures Horner(Bytes(s[..0])) == 0 {
      assert Bytes(s[..0]) == [];
    }
  }

  lemma {:induction false} HornerStep(syms: seq<Sym>, k: nat)
    requires k < |syms| && syms[k].byte >= S
    ensures Horner(Bytes(syms[..k + 1])) == U32(C * Horner(Bytes(syms[..k])) + (syms[k].byte - S))
  {
    assert Bytes(syms[..k + 1]) == Bytes(syms[..k]) + [syms[k].byte];
    assert (Bytes(syms[..k]) + [syms[k].byte])[..k] == Bytes(syms[..k]);
  }

  lemma {:induction false} RunIs(syms: seq<Sym>, k: nat)
    requires k <= |syms| && forall i :: 0 <= i < k ==> syms[i].byte >= S
    requires k < |syms| ==> syms[k].byte < S
    ensures Run(syms) == k
  {
  }

  lemma {:induction false} NoSymbols(d: Dictionary)
    ensures Decoded(d, []) == "" && !Overruns(d, [])
  {
  }

  lemma {:induction false} DecodedStep(d: Dictionary, syms: seq<Sym>, k: nat)
    requires k == Run(syms)
    ensures var j := Horner(Bytes(syms[..k]));
            if k >= |syms| || j >= |d.words| then Decoded(d, syms) == "" && !Overruns(d, syms)
            else if k >= 8 then Decoded(d, syms) == "" && Overruns(d, syms)
            else
              var index := U32(S * j + syms[k].byte + Base(k));
              if index >= |d.words| then Decoded(d, syms) == "" && !Overruns(d, syms)
              else
                && Decoded(d, syms)
                   == d.words[index].str + (if syms[k].space then " " else "") + Decoded(d, syms[k + 1..])
                && Overruns(d, syms) == Overruns(d, syms[k + 1..])
  {
    hide Horner, Base, U32;
  }

  // Only the terminal digit after a run can carry a mark.
  lemma {:induction false} MarksAfterRun(syms: seq<Sym>, k: nat, from: nat)
    requires k < |syms| && forall i :: 0 <= i < k ==> !syms[i].space
    ensures Marks(syms, from) == (if syms[k].space then [from + k] else []) + Marks(syms[k + 1..], from + k + 1)
  {
    if k > 0 {
      assert syms[1..][k..] == syms[k + 1..];
      MarksAfterRun(syms[1..], k - 1, from + 1);
    }
  }

  lemma {:induction false} Advance(d: Dictionary, syms: seq<Sym>, start: nat, k: nat,
                                   before: string, out: string, piece: string)
    requires start + k < |syms| && before + Decoded(d, syms[start..]) == Decoded(d, syms)
    requires Decoded(d, syms[start..]) == piece + Decoded(d, syms[start..][k + 1..])
    requires out == before + piece
    ensures out + Decoded(d, syms[start + k + 1..]) == Decoded(d, syms)
  {
    hide Decoded;
    assert syms[start..][k + 1..] == syms[start + k + 1..];
    assert before + (piece + Decoded(d, syms[start + k + 1..])) == out + Decoded(d, syms[start + k + 1..]);
  }

  // --- decoding what was encoded ---

  function TokenSyms(t: Token): seq<Sym> {
    var lead := Lead(t.index / S);
    seq(|lead|, i requires 0 <= i < |lead| => Sym(lead[i], false)) + [Sym(t.index % S, t.space)]
  }

  function Rendered(d: Dictionary, ts: seq<Token>): string
    requires forall i :: 0 <= i < |ts| ==> ts[i].index < |d.words|
  {
    if ts == [] then ""
    else d.words[ts[0].index].str + (if ts[0].space then " " else "") + Rendered(d, ts[1..])
  }

  function Syms(ts: seq<Token>): seq<Sym> {
    if ts == [] then [] else TokenSyms(ts[0]) + Syms(ts[1..])
  }

  lemma {:induction false} NibbleBack(v: nat, n: nat)
    requires n == 4 && v < 16
    ensures Reg(BitsOf(v, n)) == v
  {
    assert Pow2(4) == 16;
    RegOfBits(v, n);
    LowBound(v, n);
  }

  // Continuation nibbles parse back one by one.
  lemma {:induction false} ParseLead(digits: seq<nat>, rest: seq<bit>)
    requires forall i :: 0 <= i < |digits| ==> S <= digits[i] < 16
    ensures Parse(Nibbles(digits) + rest)
            == seq(|digits|, i requires 0 <= i < |digits| => Sym(digits[i], false)) + Parse(rest)
    decreases |digits|
  {
    hide BitsOf, Reg;
    if digits == [] {
      assert Nibbles([]) + rest == rest;
    } else {
      var n := |digits| - 1;
      var last := BitsOf(digits[n], 4);
      var rest' := last + rest;
      assert Nibbles(digits) + rest == Nibbles(digits[..n]) + rest';
      ParseLead(digits[..n], rest');
      NibbleBack(digits[n], 4);
      assert rest'[..4] == last && rest'[4..] == rest;
    }
  }

  lemma {:induction false} ParseToken(t: Token, rest: seq<bit>)
    ensures Parse(CodeBits(t) + rest) == TokenSyms(t) + Parse(rest)
  {
    hide BitsOf, Reg, Parse, Nibbles, Lead;
    var lead := Lead(t.index / S);
    var v := t.index % S;
    var flag: bit := if t.space then 1 else 0;
    var tail := BitsOf(v, 4) + [flag] + rest;
    assert CodeBits(t) + rest == Nibbles(lead) + tail;
    ParseLead(lead, tail);
    NibbleBack(v, 4);
    assert tail[..4] == BitsOf(v, 4) && tail[4] == flag && tail[5..] == rest;
    ParseTerminal(tail);
  }

  lemma {:induction false} ParseTerminal(bits: seq<bit>)
    requires |bits| >= 5 && Reg(bits[..4]) < S
    ensures Parse(bits) == [Sym(Reg(bits[..4]), bits[4] == 1)] + Parse(bits[5..])
  {
    hide Reg;
  }

  lemma {:induction false} ParseEncoded(ts: seq<Token>)
    ensures Parse(Encoded(ts)) == Syms(ts)
  {
    hide CodeBits, TokenSyms;
    if ts == [] {
      assert Parse([]) == [];
    } else {
      ParseToken(ts[0], Encoded(ts[1..]));
      ParseEncoded(ts[1..]);
    }
  }

  // (9^k - 1) / 8: the first number that needs k bijective digits.
  function Rep(k: nat): nat {
    if k == 0 then 0 else C * Rep(k - 1) + 1
  }

  lemma {:induction false} BaseIsRep(k: nat)
    ensures Base(k) == S * Rep(k) && Pow9(k) == 8 * Rep(k) + 1
  {
    if k > 0 { BaseIsRep(k - 1); }
  }

  lemma {:induction false} HornerOfLead(x: nat)
    requires x < 0x4000_0000
    ensures Rep(|Lead(x)|) <= x && Horner(Lead(x)) == x - Rep(|Lead(x)|)
  {
    if x > 0 {
      var y := (x - 1) / C;
      HornerOfLead(y);
      assert Lead(x)[..|Lead(y)|] == Lead(y);
    }
  }

  lemma {:induction false} RepSix(k: nat)
    requires Rep(k) < 66430
    ensures k < 6
  {
    RepGrows(6, k);
    assert Rep(3) == 91;
    assert Rep(6) == 66430;
  }

  lemma {:induction false} RepGrows(a: nat, b: nat)
    ensures a <= b ==> Rep(a) <= Rep(b)
    decreases b
  {
    if a < b { RepGrows(a, b - 1); }
  }

  // The dense code numbers its words consecutively: the decoder's arithmetic gives the index back.
  lemma {:induction false} IndexBack(index: nat)
    requires index < 262144
    ensures var lead := Lead(index / S);
            && |lead| < 8
            && Horner(lead) <= index
            && U32(S * Horner(lead) + index % S + Base(|lead|)) == index
  {
    hide Lead, Horner, Rep, Base;
    var x := index / S;
    HornerOfLead(x);
    RepSix(|Lead(x)|);
    BaseIsRep(|Lead(x)|);
  }

  lemma {:induction false} DecodeToken(d: Dictionary, t: Token, rest: seq<Sym>)
    requires t.index < |d.words| <= 262144
    ensures Decoded(d, TokenSyms(t) + rest)
            == d.words[t.index].str + (if t.space then " " else "") + Decoded(d, rest)
    ensures Overruns(d, TokenSyms(t) + rest) == Overruns(d, rest)
  {
    hide Decoded, Overruns, Horner, Base, U32, Lead, Run;
    var lead := Lead(t.index / S);
    var k := |lead|;
    var syms := TokenSyms(t) + rest;
    assert forall i :: 0 <= i < k ==> syms[i] == Sym(lead[i], false);
    assert syms[k] == Sym(t.index % S, t.space) && syms[k + 1..] == rest;
    RunIs(syms, k);
    assert Bytes(syms[..k]) == lead;
    IndexBack(t.index);
    DecodedStep(d, syms, k);
  }

  // decompress of concatenated codewords: the words, with a space after exactly the flagged ones.
  lemma {:induction false} CodeRoundTrip(d: Dictionary, ts: seq<Token>)
    requires |d.words| <= 262144
    requires forall i :: 0 <= i < |ts| ==> ts[i].index < |d.words|
    ensures Decoded(d, Parse(Encoded(ts))) == Rendered(d, ts) && !Overruns(d, Parse(Encoded(ts)))
  {
    ParseEncoded(ts);
    DecodeSyms(d, ts);
  }

  lemma {:induction false} DecodeSyms(d: Dictionary, ts: seq<Token>)
    requires |d.words| <= 262144
    requires forall i :: 0 <= i < |ts| ==> ts[i].index < |d.words|
    ensures Decoded(d, Syms(ts)) == Rendered(d, ts) && !Overruns(d, Syms(ts))
  {
    hide Decoded, Overruns, TokenSyms;
    if ts == [] {
      NoSymbols(d);
    } else {
      DecodeToken(d, ts[0], Syms(ts[1..]));
      DecodeSyms(d, ts[1..]);
    }
  }

  // --- past the table ---

  // The digit 7, n times.
  function Sevens(n: nat): (r: seq<bit>)
    ensures |r| == 4 * n
  {
    if n == 0 then [] else Sevens(n - 1) + [0, 1, 1, 1]
  }

  // Eight or more sevens, then the terminal digit 0 and its flag, read past the table under every
  // dictionary that is not empty.
  lemma {:induction false} ReadsBeyond(d: Dictionary, n: nat)
    requires d.words != [] && n >= 8
    ensures Overruns(d, Parse(Sevens(n) + [0, 0, 0, 0, 0]))
  {
    hide Parse, Horner, Run, Nibbles;
    var digits := seq(n, _ => S);
    SevenNibbles(n);
    ParseLead(digits, [0, 0, 0, 0, 0]);
    ZeroNibble();
    ParseTerminal([0, 0, 0, 0, 0]);
    var syms := Parse(Sevens(n) + [0, 0, 0, 0, 0]);
    RunIs(syms, n);
    assert Bytes(syms[..n]) == digits;
    SevensAreZero(digits);
  }

  lemma {:induction false} SevenNibbles(n: nat)
    ensures Nibbles(seq(n, _ => S)) == Sevens(n)
  {
    if n > 0 {
      SevenNibbles(n - 1);
      assert seq(n, _ => S)[..n - 1] == seq(n - 1, _ => S);
      assert BitsOf(7, 4) == BitsOf(3, 3) + [1] == BitsOf(1, 2) + [1] + [1] == BitsOf(0, 1) + [1] + [1] + [1];
    }
  }

  lemma {:induction false} ZeroNibble()
    ensures Reg([0, 0, 0, 0, 0][..4]) == 0
  {
    NibbleBack(0, 4);
    BitsOfZero(4);
    assert [0, 0, 0, 0, 0][..4] == Zeros(4);
  }

  lemma {:induction false} SevensAreZero(digits: seq<nat>)
    requires forall i :: 0 <= i < |digits| ==> digits[i] == S
    ensures Horner(digits) == 0
  {
    if digits != [] { SevensAreZero(digits[..|digits| - 1]); }
  }
}
