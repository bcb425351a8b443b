/**
 The CCIR-476 code: tables, character encoder with its running shift, and the FEC-B
 time-diversity stream.
 */
module Ccir476 {
  import opened Bits

  const UNUSED: char := '_'
  const BELL: char := 7 as char
  const QUOTE: char := 39 as char

  // Sixteen codewords a row; '_' marks an unused one.
  const CODE_TO_LTRS: seq<string> := [
    "________________",
    "_______J___F_CK_",
    "_______W___Y_PQ_",
    "_____G___MX_V___",
    "_______A___S_IU_",
    "___D_RE__N__ ___",
    "___Z_L___H__\n___",
    "_OB_T___\r_______"
  ]

  const CODE_TO_FIGS: seq<string> := [
    "________________",
    "_______'___!_:(_",
    "_______2___6_01_",
    "_____&___./_;___",
    "_______-___\U{07}_87_",
    "___$_43__,__ ___",
    "___\"_)___#__\n___",
    "_9?_5___\r_______"
  ]

  const LTRS: nat := 0x5a
  const FIGS: nat := 0x36
  const ALPHA: nat := 0x0f
  const BETA: nat := 0x33
  const CHAR32: nat := 0x6a
  const REP: nat := 0x66

  lemma {:induction false} TableShape()
    ensures |CODE_TO_LTRS| == |CODE_TO_FIGS| == 8
    ensures forall r :: 0 <= r < 8 ==> |CODE_TO_LTRS[r]| == |CODE_TO_FIGS[r]| == 16
  {
  }

  function Table(figs: bool, code: nat): char
    requires code < 128
  {
    TableShape();
    if figs then CODE_TO_FIGS[code / 16][code % 16] else CODE_TO_LTRS[code / 16][code % 16]
  }

  // Ones among the low seven bits: (code & 0x7f).count_ones()
  function Weight(code: nat): nat {
    code % 2 + code / 2 % 2 + code / 4 % 2 + code / 8 % 2 + code / 16 % 2 + code / 32 % 2 + code / 64 % 2
  }

  // Exactly four of the seven bits are set.
  predicate CheckBits(code: nat) {
    Weight(code) == 4
  }

  predicate Control(code: nat) {
    code == LTRS || code == FIGS || code == ALPHA || code == BETA || code == CHAR32 || code == REP
  }

  lemma {:induction false} WeightOfHalves(c: nat, c1: nat, c2: nat, c3: nat, c4: nat, c5: nat, c6: nat)
    requires c1 == c / 2 && c2 == c1 / 2 && c3 == c2 / 2 && c4 == c3 / 2 && c5 == c4 / 2 && c6 == c5 / 2
    ensures Weight(c) == c % 2 + c1 % 2 + c2 % 2 + c3 % 2 + c4 % 2 + c5 % 2 + c6 % 2
  {
    assert c2 == c / 4 by { hide *; }
    assert c3 == c / 8 by { hide *; }
    assert c4 == c / 16 by { hide *; }
    assert c5 == c / 32 by { hide *; }
    assert c6 == c / 64 by { hide *; }
  }

  lemma {:induction false} ControlWeights()
    ensures Weight(LTRS) == Weight(FIGS) == Weight(ALPHA) == Weight(BETA) == Weight(CHAR32) == Weight(REP) == 4
  {
    hide Weight;
    WeightOfHalves(LTRS, 45, 22, 11, 5, 2, 1);
    WeightOfHalves(FIGS, 27, 13, 6, 3, 1, 0);
    WeightOfHalves(ALPHA, 7, 3, 1, 0, 0, 0);
    WeightOfHalves(BETA, 25, 12, 6, 3, 1, 0);
    WeightOfHalves(CHAR32, 53, 26, 13, 6, 3, 1);
    WeightOfHalves(REP, 51, 25, 12, 6, 3, 1);
  }

  lemma {:induction false} ControlsAreWords(code: nat)
    requires Control(code)
    ensures CheckBits(code)
  {
    hide Weight;
    ControlWeights();
  }

  lemma {:induction false} ControlsAreUnused(figs: bool, code: nat)
    requires Control(code)
    ensures code < 128 && Table(figs, code) == UNUSED
  {
  }

  predicate Safe(row: string) {
    forall i :: 0 <= i < |row| ==> row[i] < 128 as char && row[i] != ALPHA as char && row[i] != REP as char
  }

  lemma {:induction false} SafeLetters()
    ensures forall r :: 0 <= r < |CODE_TO_LTRS| ==> Safe(CODE_TO_LTRS[r])
  {
  }

  lemma {:induction false} SafeFigures()
    ensures forall r :: 0 <= r < |CODE_TO_FIGS| ==> Safe(CODE_TO_FIGS[r])
  {
  }

  lemma {:induction false} TableSafe(figs: bool, code: nat)
    requires code < 128
    ensures Table(figs, code) < 128 as char
    ensures Table(figs, code) != ALPHA as char && Table(figs, code) != REP as char
  {
    hide Safe;
    SafeLetters();
    SafeFigures();
    TableShape();
    var row := if figs then CODE_TO_FIGS[code / 16] else CODE_TO_LTRS[code / 16];
    SafeAt(row, code % 16);
  }

  lemma {:induction false} SafeAt(row: string, i: nat)
    requires Safe(row) && i < |row|
    ensures row[i] < 128 as char && row[i] != ALPHA as char && row[i] != REP as char
  {
  }

  // --- character to codeword ---

  // The last valid codeword below n that the table gives this character, 0 for none.
  function CodeFor(figs: bool, u: char, n: nat): (code: nat)
    requires n <= 128
    ensures code < 128
    ensures code != 0 ==> CheckBits(code) && Table(figs, code) == u && u != UNUSED
  {
    hide Table, Weight;
    if n == 0 then 0
    else if CheckBits(n - 1) && Table(figs, n - 1) == u && u != UNUSED then n - 1
    else CodeFor(figs, u, n - 1)
  }

  datatype Ccir476 = Ccir476(ltrsToCode: seq<nat>, figsToCode: seq<nat>) {
    predicate Valid() {
      && |ltrsToCode| == |figsToCode| == 128
      && (forall u :: 0 <= u < 128 ==> ltrsToCode[u] == CodeFor(false, u as char, 128))
      && (forall u :: 0 <= u < 128 ==> figsToCode[u] == CodeFor(true, u as char, 128))
    }
  }

  method NewCcir476() returns (c: Ccir476)
    ensures c.Valid()
  {
    hide Table, Weight;
    var ltrsToCode: seq<nat> := seq(128, _ => 0);
    var figsToCode: seq<nat> := seq(128, _ => 0);
    for code := 0 to 128
      invariant |ltrsToCode| == |figsToCode| == 128
      invariant forall u :: 0 <= u < 128 ==> ltrsToCode[u] == CodeFor(false, u as char, code)
      invariant forall u :: 0 <= u < 128 ==> figsToCode[u] == CodeFor(true, u as char, code)
    {
      if CheckBits(code) {
        var figv := Table(true, code);
        var ltrv := Table(false, code);
        TableSafe(true, code);
        TableSafe(false, code);
        if figv != UNUSED {
          figsToCode := figsToCode[figv as int := code];
        }
        if ltrv != UNUSED {
          ltrsToCode := ltrsToCode[ltrv as int := code];
        }
      }
    }
    c := Ccir476(ltrsToCode, figsToCode);
  }

  function Upper(ch: char): char {
    if 'a' <= ch <= 'z' then (ch as int - 32) as char else ch
  }

  // Codewords for one character under the running shift, and the shift after it.
  function CharCodes(ch: char, shift: bool): (seq<nat>, bool) {
    if ch >= 128 as char then ([], shift)
    else
      var u := Upper(ch);
      var figc, ltrc := CodeFor(true, u, 128), CodeFor(false, u, 128);
      if shift && figc != 0 then ([figc], shift)
      else if !shift && ltrc != 0 then ([ltrc], shift)
      else if figc != 0 then ([FIGS, figc], true)
      else if ltrc != 0 then ([LTRS, ltrc], false)
      else ([], shift)
  }

  function EncodeFrom(text: string, shift: bool): seq<nat> {
    if text == "" then []
    else CharCodes(text[0], shift).0 + EncodeFrom(text[1..], CharCodes(text[0], shift).1)
  }

  method CharToCode(c: Ccir476, out: seq<nat>, ch: char, shift: bool) returns (out': seq<nat>, shift': bool)
    requires c.Valid()
    ensures out' == out + CharCodes(ch, shift).0 && shift' == CharCodes(ch, shift).1
  {
    hide CodeFor;
    out', shift' := out, shift;
    var byte := if ch as int < 255 then ch else 255 as char;
    byte := Upper(byte);
    if byte >= 128 as char {
      return;
    }
    var figc := c.figsToCode[byte as int];
    var ltrc := c.ltrsToCode[byte as int];
    if shift && figc != 0 {
      out' := out' + [figc];
    } else if !shift && ltrc != 0 {
      out' := out' + [ltrc];
    } else if figc != 0 {
      shift' := true;
      out' := out' + [FIGS] + [figc];
      assert out + [FIGS] + [figc] == out + [FIGS, figc];
    } else if ltrc != 0 {
      shift' := false;
      out' := out' + [LTRS] + [ltrc];
      assert out + [LTRS] + [ltrc] == out + [LTRS, ltrc];
    }
  }

  method Encode(c: Ccir476, text: string) returns (out: seq<nat>)
    requires c.Valid()
    ensures out == EncodeFrom(text, false)
  {
    hide CharCodes;
    out := [];
    var shift := false;
    assert text[0..] == text;
    for i := 0 to |text|
      invariant out + EncodeFrom(text[i..], shift) == EncodeFrom(text, false)
    {
      assert text[i..][0] == text[i] && text[i..][1..] == text[i + 1..];
      ghost var rest := EncodeFrom(text[i + 1..], CharCodes(text[i], shift).1);
      assert out + (CharCodes(text[i], shift).0 + rest) == out + CharCodes(text[i], shift).0 + rest;
      out, shift := CharToCode(c, out, text[i], shift);
    }
    assert text[|text|..] == "";
  }

  // --- codeword to character ---

  // What the print filter lets through.
  function Filter(c: char): string {
    if c == BELL then [QUOTE]
    else if c != '\r' && c != ALPHA as char && c != REP as char then [c]
    else ""
  }

  // What one codeword prints under the running shift, and the shift after it.
  function CodePrints(code: nat, figs: bool): (string, bool)
    requires code < 128
  {
    if code == REP || code == ALPHA || code == BETA || code == CHAR32 then ("", figs)
    else if code == LTRS then ("", false)
    else if code == FIGS then ("", true)
    else if Table(figs, code) != UNUSED then (Filter(Table(figs, code)), figs)
    else ("", figs)
  }

  predicate SevenBit(codes: seq<nat>) {
    forall i :: 0 <= i < |codes| ==> codes[i] < 128
  }

  function AllPrint(codes: seq<nat>, figs: bool): string
    requires SevenBit(codes)
  {
    if codes == [] then ""
    else CodePrints(codes[0], figs).0 + AllPrint(codes[1..], CodePrints(codes[0], figs).1)
  }

  predicate Encodable(ch: char) {
    ch < 128 as char && (CodeFor(true, Upper(ch), 128) != 0 || CodeFor(false, Upper(ch), 128) != 0)
  }

  // What is shown of one character.
  function ShownOne(ch: char): string {
    if !Encodable(ch) || Upper(ch) == '\r' then "" else if Upper(ch) == BELL then [QUOTE] else [Upper(ch)]
  }

  // The upper-case encodable characters, bell shown as an apostrophe, carriage return dropped.
  function Shown(text: string): string {
    if text == "" then "" else ShownOne(text[0]) + Shown(text[1..])
  }

  // Every codeword sent is valid, and none is one of the receiver's phasing signals.
  predicate Sendable(code: nat) {
    code < 128 && CheckBits(code) && (!Control(code) || code == LTRS || code == FIGS)
  }

  lemma {:induction false} CharSendable(ch: char, shift: bool)
    ensures forall i :: 0 <= i < |CharCodes(ch, shift).0| ==> Sendable(CharCodes(ch, shift).0[i])
  {
    hide CodeFor, Table, Weight;
    ControlsAreWords(LTRS);
    ControlsAreWords(FIGS);
    NotControl(true, Upper(ch));
    NotControl(false, Upper(ch));
  }

  lemma {:induction false} NotControl(figs: bool, u: char)
    ensures CodeFor(figs, u, 128) != 0 ==> !Control(CodeFor(figs, u, 128))
  {
    hide CodeFor, Table;
    var code := CodeFor(figs, u, 128);
    if code != 0 && Control(code) { ControlsAreUnused(figs, code); }
  }

  lemma {:induction false} AllSendable(text: string, shift: bool)
    ensures forall i :: 0 <= i < |EncodeFrom(text, shift)| ==> Sendable(EncodeFrom(text, shift)[i])
  {
    hide CharCodes;
    if text != "" {
      CharSendable(text[0], shift);
      AllSendable(text[1..], CharCodes(text[0], shift).1);
    }
  }

  // A character's codewords print it, and leave the receiver's shift equal to the sender's.
  lemma {:induction false} CharPrints(ch: char, shift: bool, rest: seq<nat>)
    requires SevenBit(rest)
    ensures var (codes, shift') := CharCodes(ch, shift);
            && SevenBit(codes + rest)
            && AllPrint(codes + rest, shift) == ShownOne(ch) + AllPrint(rest, shift')
  {
    hide CodeFor, Table, Weight, ShownOne, Filter, AllPrint, Encodable;
    var (codes, shift') := CharCodes(ch, shift);
    var u := Upper(ch);
    CharSendable(ch, shift);
    NotControl(true, u);
    NotControl(false, u);
    FilterShows(ch);
    if |codes| == 1 {
      PrintOne(shift, codes[0], rest, u);
      assert codes == [codes[0]];
    } else if |codes| == 2 {
      PrintShifted(shift', shift, codes[1], rest, u);
      assert codes == [codes[0], codes[1]];
    } else {
      assert codes + rest == rest;
    }
  }

  lemma {:induction false} FilterShows(ch: char)
    ensures Encodable(ch) ==> Filter(Upper(ch)) == ShownOne(ch)
    ensures Encodable(ch) <==> CharCodes(ch, true).0 != []
    ensures Encodable(ch) <==> CharCodes(ch, false).0 != []
    ensures !Encodable(ch) ==> ShownOne(ch) == ""
  {
    hide CodeFor, Table, Weight;
    UpperNotRep(ch, true);
    UpperNotRep(ch, false);
  }

  lemma {:induction false} PrintShifted(figs: bool, before: bool, code: nat, rest: seq<nat>, u: char)
    requires code < 128 && !Control(code) && Table(figs, code) == u && u != UNUSED
    requires SevenBit(rest)
    ensures AllPrint([if figs then FIGS else LTRS, code] + rest, before) == Filter(u) + AllPrint(rest, figs)
  {
    hide Table;
    var shiftCode := if figs then FIGS else LTRS;
    assert ([shiftCode, code] + rest)[0] == shiftCode && ([shiftCode, code] + rest)[1..] == [code] + rest;
    PrintOne(figs, code, rest, u);
  }

  // Lower-case letters are gone, and no table holds the character numbered as ALPHA.
  lemma {:induction false} UpperNotRep(ch: char, figs: bool)
    ensures Upper(ch) != REP as char
    ensures CodeFor(figs, ALPHA as char, 128) == 0
  {
    hide CodeFor, Table;
    var code := CodeFor(figs, ALPHA as char, 128);
    if code != 0 { TableSafe(figs, code); }
  }

  lemma {:induction false} PrintOne(figs: bool, code: nat, rest: seq<nat>, u: char)
    requires code < 128 && !Control(code) && Table(figs, code) == u && u != UNUSED
    requires SevenBit(rest)
    ensures AllPrint([code] + rest, figs) == Filter(u) + AllPrint(rest, figs)
  {
    hide Table;
    assert ([code] + rest)[1..] == rest;
  }

  // Decoding an encoded text, both starting in the same shift, shows the text.
  lemma {:induction false} TextPrints(text: string, shift: bool)
    ensures SevenBit(EncodeFrom(text, shift))
    ensures AllPrint(EncodeFrom(text, shift), shift) == Shown(text)
  {
    hide CharCodes, ShownOne, CodePrints;
    AllSendable(text, shift);
    if text != "" {
      TextPrints(text[1..], CharCodes(text[0], shift).1);
      CharPrints(text[0], shift, EncodeFrom(text[1..], CharCodes(text[0], shift).1));
    }
  }

  // --- the time-diversity stream ---

  // Position k of the stream: phasing signals, then each codeword followed five places on by its repeat.
  function FecAt(codes: seq<nat>, k: nat): nat
    requires |codes| >= 2 && k < 2 * |codes| + 8
  {
    if k < 4 then (if k % 2 == 0 then REP else ALPHA)
    else
      var i := (k - 4) / 2;
      if k % 2 == 0 then (if i < |codes| then codes[i] else CHAR32)
      else if i < 2 then ALPHA else codes[i - 2]
  }

  function Fec(codes: seq<nat>): (r: seq<nat>)
    requires |codes| >= 2
    ensures |r| == 2 * |codes| + 8
  {
    seq(2 * |codes| + 8, k requires 0 <= k < 2 * |codes| + 8 => FecAt(codes, k))
  }

  method CreateFec(codes: seq<nat>) returns (res: seq<nat>)
    requires |codes| >= 2
    ensures res == Fec(codes)
  {
    res := [];
    for i := 0 to 2
      invariant res == Fec(codes)[..2 * i]
    {
      res := res + [REP];
      res := res + [ALPHA];
    }
    for i := 0 to |codes|
      invariant res == Fec(codes)[..4 + 2 * i]
    {
      res := res + [codes[i]];
      res := res + [if i >= 2 then codes[i - 2] else ALPHA];
    }
    for i := 0 to 2
      invariant res == Fec(codes)[..4 + 2 * |codes| + 2 * i]
    {
      res := res + [CHAR32];
      res := res + [codes[|codes| - 2 + i]];
    }
    assert res == Fec(codes)[..|Fec(codes)|];
  }

  // Bit i of a codeword, least significant first on the air.
  function CodeBit(code: nat, i: nat): bool {
    if i == 0 then code % 2 == 1 else CodeBit(code / 2, i - 1)
  }

  function AirBits(code: nat): (r: seq<bool>)
    ensures |r| == 7
  {
    seq(7, i requires 0 <= i < 7 => CodeBit(code, i))
  }

  function StreamBits(codes: seq<nat>): seq<bool> {
    if codes == [] then [] else StreamBits(codes[..|codes| - 1]) + AirBits(codes[|codes| - 1])
  }

  method CodesToBits(codes: seq<nat>) returns (bits: seq<bool>)
    ensures bits == StreamBits(codes)
  {
    bits := [];
    for n := 0 to |codes|
      invariant bits == StreamBits(codes[..n])
    {
      var c := codes[n];
      ghost var start := bits;
      for i := 0 to 7
        invariant bits == start + AirBits(codes[n])[..i]
        invariant forall j {:trigger CodeBit(c, j)} :: 0 <= j < 7 - i ==> CodeBit(c, j) == CodeBit(codes[n], i + j)
      {
        assert CodeBit(c, 0) == CodeBit(codes[n], i + 0);
        bits := bits + [c % 2 == 1];
        ghost var old_c := c;
        c := c / 2;
        forall j | 0 <= j < 6 - i ensures CodeBit(c, j) == CodeBit(codes[n], i + 1 + j) {
          assert CodeBit(old_c, j + 1) == CodeBit(c, j);
        }
      }
      assert codes[..n + 1][..n] == codes[..n];
    }
    assert codes[..|codes|] == codes;
  }

  // --- the codewords told apart ---

  // The table offers the character under some valid codeword.
  ghost predicate Offers(figs: bool, u: char) {
    && u != UNUSED
    && exists code: nat {:trigger Table(figs, code)} :: code < 128 && CheckBits(code) && Table(figs, code) == u
  }

  lemma {:induction false} LastCode(figs: bool, u: char, code: nat, n: nat)
    requires code < n <= 128 && CheckBits(code) && Table(figs, code) == u && u != UNUSED
    ensures CodeFor(figs, u, n) >= code
  {
    hide Table, CheckBits;
    if code < n - 1 { LastCode(figs, u, code, n - 1); }
  }

  lemma {:induction false} Offered(figs: bool, u: char)
    ensures CodeFor(figs, u, 128) != 0 <==> Offers(figs, u)
  {
    hide Table, Weight, CodeFor;
    if CodeFor(figs, u, 128) != 0 { assert CheckBits(CodeFor(figs, u, 128)); }
    if Offers(figs, u) {
      var code: nat :| code < 128 && CheckBits(code) && Table(figs, code) == u;
      LastCode(figs, u, code, 128);
      assert Weight(0) == 0 by { NoWeight(); }
    }
  }

  lemma {:induction false} NoWeight()
    ensures Weight(0) == 0
  {
  }

  // One code when the running shift offers the character, a shift and a code when only the other
  // does, nothing when neither does.
  lemma {:induction false} ShiftsWhenNeeded(ch: char, shift: bool)
    ensures var (codes, shift') := CharCodes(ch, shift);
            var u := Upper(ch);
            if ch >= 128 as char || (!Offers(shift, u) && !Offers(!shift, u)) then codes == [] && shift' == shift
            else if Offers(shift, u) then
              && |codes| == 1 && shift' == shift
              && codes[0] < 128 && CheckBits(codes[0]) && Table(shift, codes[0]) == u
            else
              && |codes| == 2 && shift' == !shift && codes[0] == (if shift then LTRS else FIGS)
              && codes[1] < 128 && CheckBits(codes[1]) && Table(!shift, codes[1]) == u
  {
    hide Table, CheckBits, CodeFor, Offers;
    Offered(true, Upper(ch));
    Offered(false, Upper(ch));
  }

  // What is encodable is what some table offers.
  lemma {:induction false} EncodableExactly(ch: char)
    ensures Encodable(ch) <==> ch < 128 as char && (Offers(true, Upper(ch)) || Offers(false, Upper(ch)))
  {
    hide Table, CheckBits, CodeFor, Offers;
    Offered(true, Upper(ch));
    Offered(false, Upper(ch));
  }

  // Every codeword goes out twice, five places apart.
  lemma {:induction false} TimeDiversity(codes: seq<nat>, i: nat)
    requires |codes| >= 2 && i < |codes|
    ensures Fec(codes)[4 + 2 * i] == codes[i] == Fec(codes)[9 + 2 * i]
  {
    assert (4 + 2 * i - 4) / 2 == i && (4 + 2 * i) % 2 == 0;
    assert (9 + 2 * i - 4) / 2 == i + 2 && (9 + 2 * i) % 2 == 1;
  }

  // Phasing signals before the first repeats, idle signals after the last codewords.
  lemma {:induction false} PhasingAround(codes: seq<nat>)
    requires |codes| >= 2
    ensures Fec(codes)[0] == Fec(codes)[2] == REP
    ensures Fec(codes)[1] == Fec(codes)[3] == Fec(codes)[5] == Fec(codes)[7] == ALPHA
    ensures Fec(codes)[2 * |codes| + 4] == Fec(codes)[2 * |codes| + 6] == CHAR32
  {
    assert FecAt(codes, 5) == ALPHA && FecAt(codes, 7) == ALPHA;
    var n := |codes|;
    assert (2 * n + 4 - 4) / 2 == n && (2 * n + 6 - 4) / 2 == n + 1;
    assert (2 * n + 4) % 2 == 0 && (2 * n + 6) % 2 == 0;
  }

  // Bit i on the air is bit i of the codeword.
  lemma {:induction false} AirBitAt(code: nat, i: nat)
    requires i < 7
    ensures AirBits(code)[i] <==> code / Pow2(i) % 2 == 1
  {
    hide Pow2;
    BitAtIsQuotient(code, i);
    CodeBitIs(code, i);
  }

  lemma {:induction false} CodeBitIs(code: nat, i: nat)
    ensures CodeBit(code, i) <==> BitAt(code, i) == 1
  {
    if i > 0 { CodeBitIs(code / 2, i - 1); }
  }
}
