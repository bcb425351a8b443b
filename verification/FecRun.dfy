/**
 A whole transmission through a locked receiver: what it prints when every codeword survives
 in one copy, in the other, or in the sum of both.
 */
module FecRun {
  import opened Bits
  import opened Ccir476
  import opened FecSpec
  import opened SoftValues

  // --- seven bits at a time ---

  // The newest bit is the first of the next codeword, whose turn is `alpha`.
  predicate Aligned(s: Dec, alpha: bool) {
    && |s.bits| == BUFFER && s.cursor == BUFFER - 1 && s.state == ReadData && s.alphaPhase == alpha
    && 0 <= s.errorCount <= 5 && s.lastChar < 128
  }

  lemma {:induction false} FeedConcat(s: Dec, xs: seq<real>, ys: seq<real>)
    requires Inv(s)
    ensures FeedAll(s, xs + ys) == FeedAll(FeedAll(s, xs), ys)
    decreases |xs|
  {
    hide Feed;
    if xs == [] {
      assert xs + ys == ys;
    } else {
      assert (xs + ys)[0] == xs[0] && (xs + ys)[1..] == xs[1..] + ys;
      FeedKeeps(s, xs[0]);
      FeedConcat(Feed(s, xs[0]), xs[1..], ys);
    }
  }

  // Bits that only shift the buffer.
  lemma {:induction false} QuietBits(s: Dec, xs: seq<real>)
    requires Inv(s) && s.state == ReadData && s.cursor - |xs| >= BUFFER - 7
    ensures FeedAll(s, xs) == s.(bits := (s.bits + xs)[|xs|..], cursor := s.cursor - |xs|)
    decreases |xs|
  {
    hide CodewordStep, FindAlpha;
    if xs == [] {
      assert (s.bits + [])[0..] == s.bits;
    } else {
      var s1 := Feed(s, xs[0]);
      FeedKeeps(s, xs[0]);
      assert s1 == s.(bits := s.bits[1..] + [xs[0]], cursor := s.cursor - 1);
      QuietBits(s1, xs[1..]);
      assert (s1.bits + xs[1..])[|xs| - 1..] == (s.bits + xs)[|xs|..];
    }
  }

  // Seven bits bring the next codeword under the cursor and handle it.
  lemma {:induction false} SevenFeeds(s: Dec, xs: seq<real>, alpha: bool)
    requires Aligned(s, alpha) && |xs| == 7
    ensures Inv(s)
    ensures var loaded := s.(bits := s.bits[7..] + xs, cursor := BUFFER - 8);
            FeedAll(s, xs) == CodewordStep(loaded)
  {
    hide CodewordStep, FindAlpha;
    var six := xs[..6];
    assert xs == six + [xs[6]];
    FeedConcat(s, six, [xs[6]]);
    QuietBits(s, six);
    var t := FeedAll(s, six);
    assert (s.bits + six)[6..][1..] + [xs[6]] == s.bits[7..] + xs;
    FeedKeeps(t, xs[6]);
    assert [xs[6]][1..] == [];
  }

  // --- the received stream ---

  // Received soft values of codeword k, and the codeword they spell.
  function Heard(r: seq<real>, k: nat): (code: nat)
    requires 7 * k + 7 <= |r|
    ensures code < 128
  {
    CodeAt(r, 7 * k)
  }

  // The receiver has stepped past codeword k-1 of the stream r and holds its first 7k+1 values.
  ghost predicate Holds(s: Dec, r: seq<real>, k: nat)
    requires |s.bits| == BUFFER
  {
    && 7 * k + 1 <= |r|
    && forall i :: 0 <= i < BUFFER && 0 <= 7 * k - 99 + i ==> s.bits[i] == r[7 * k - 99 + i]
  }

  lemma {:induction false} HeldWindow(s: Dec, r: seq<real>, k: nat, pos: nat)
    requires |s.bits| == BUFFER && Holds(s, r, k) && pos + 7 <= BUFFER && 7 * k + pos >= 99
    ensures Window(s.bits, pos) == Window(r, 7 * k + pos - 99)
  {
    var p := 7 * k + pos - 99;
    forall i | 0 <= i < 7 ensures Window(s.bits, pos)[i] == Window(r, p)[i] {
      assert s.bits[pos + i] == r[7 * k - 99 + (pos + i)];
    }
  }

  lemma {:induction false} HoldsNext(s: Dec, r: seq<real>, k: nat)
    requires |s.bits| == BUFFER && Holds(s, r, k) && 7 * k + 8 <= |r|
    ensures Holds(s.(bits := s.bits[7..] + r[7 * k + 1..7 * k + 8]), r, k + 1)
  {
    var xs := r[7 * k + 1..7 * k + 8];
    var bits := s.bits[7..] + xs;
    forall i | 0 <= i < BUFFER && 0 <= 7 * (k + 1) - 99 + i
      ensures bits[i] == r[7 * (k + 1) - 99 + i]
    {
      if i < 93 {
        assert bits[i] == s.bits[i + 7];
      } else {
        assert bits[i] == xs[i - 93];
      }
    }
  }

  // After the next seven values the two copies lie where the receiver looks for them.
  lemma {:induction false} Loaded(s: Dec, r: seq<real>, k: nat)
    requires |s.bits| == BUFFER && Holds(s, r, k) && 7 * k + 8 <= |r|
    ensures var bits := s.bits[7..] + r[7 * k + 1..7 * k + 8];
            && Holds(s.(bits := bits), r, k + 1)
            && Window(bits, BUFFER - 8) == Window(r, 7 * k)
            && (k >= 5 ==> Window(bits, BUFFER - 8 - LEAD) == Window(r, 7 * k - LEAD))
  {
    hide Holds, Window;
    HoldsNext(s, r, k);
    var s' := s.(bits := s.bits[7..] + r[7 * k + 1..7 * k + 8]);
    HeldWindow(s', r, k + 1, BUFFER - 8);
    if k >= 5 { HeldWindow(s', r, k + 1, BUFFER - 8 - LEAD); }
  }

  // How codeword k of the stream, in a repeat position, reaches the receiver: by its own copy
  // or by the one five places earlier (+1, or 0 for a phasing signal), or by their sum (-1).
  datatype Outcome = Direct | Repeat | Combined | Lost

  function OutcomeOf(r: seq<real>, k: nat, code: nat, earlier: nat): Outcome
    requires k >= 5 && 7 * k + 7 <= |r|
  {
    if Heard(r, k) == code then Direct
    else if CheckBits(Heard(r, k)) then Lost
    else if Heard(r, k - 5) == earlier then Repeat
    else if CheckBits(Heard(r, k - 5)) then Lost
    else
      SevenBits(7);
      if CodeOf(Plus(Window(r, 7 * k), Window(r, 7 * k - LEAD))) == code then Combined else Lost
  }

  function ErrorsAfter(e: int, o: Outcome, earlier: nat): int {
    var e' := if o == Combined then e + 1 else if o == Repeat && earlier == REP then e else e - 1;
    if e' < 0 then 0 else e'
  }

  lemma {:induction false} HeardWindow(bits: seq<real>, pos: int, r: seq<real>, k: nat)
    requires 0 <= pos <= |bits| - 7 && 7 * k + 7 <= |r|
    requires Window(bits, pos) == Window(r, 7 * k)
    ensures CodeAt(bits, pos) == Heard(r, k)
  {
  }

  // What the ladder makes of a codeword that is not lost.
  lemma {:induction false} LadderDelivers(s: Dec, r: seq<real>, k: nat, code: nat, earlier: nat)
    requires |s.bits| == BUFFER && k >= 5 && 7 * k + 7 <= |r|
    requires Window(s.bits, BUFFER - 8) == Window(r, 7 * k)
    requires Window(s.bits, BUFFER - 8 - LEAD) == Window(r, 7 * k - LEAD)
    requires code < 128 && CheckBits(code) && earlier < 128 && CheckBits(earlier)
    requires earlier == code || earlier == REP
    requires OutcomeOf(r, k, code, earlier) != Lost
    ensures var o := OutcomeOf(r, k, code, earlier);
            ProcessBytes(s, BUFFER - 8)
            == if o == Repeat && earlier == REP then (s, 0)
               else if o == Repeat || o == Direct then (ProcessChar(s, code), 1)
               else (ProcessChar(s, code), -1)
  {
    hide CheckBits, CodeOf, ProcessChar, FlipCopies, Window, Plus;
    HeardWindow(s.bits, BUFFER - 8, r, k);
    HeardWindow(s.bits, BUFFER - 8 - LEAD, r, k - 5);
  }

  lemma {:induction false} LockConcat(s: Dec, xs: seq<real>, ys: seq<real>)
    requires Inv(s) && KeepsLock(s, xs) && KeepsLock(FeedAll(s, xs), ys)
    ensures KeepsLock(s, xs + ys)
    decreases |xs|
  {
    hide Feed;
    if xs == [] {
      assert xs + ys == ys;
    } else {
      assert (xs + ys)[0] == xs[0] && (xs + ys)[1..] == xs[1..] + ys;
      FeedKeeps(s, xs[0]);
      LockConcat(Feed(s, xs[0]), xs[1..], ys);
    }
  }

  lemma {:induction false} QuietLock(s: Dec, xs: seq<real>)
    requires Inv(s) && s.state == ReadData && s.cursor - |xs| >= BUFFER - 7
    ensures KeepsLock(s, xs)
    decreases |xs|
  {
    hide CodewordStep, FindAlpha;
    if xs != [] {
      FeedKeeps(s, xs[0]);
      QuietLock(Feed(s, xs[0]), xs[1..]);
    }
  }

  lemma {:induction false} SevenLock(s: Dec, xs: seq<real>, alpha: bool)
    requires Aligned(s, alpha) && |xs| == 7 && Inv(s)
    requires FeedAll(s, xs).state == ReadData
    ensures KeepsLock(s, xs)
  {
    hide Feed;
    var six := xs[..6];
    assert xs == six + [xs[6]];
    QuietLock(s, six);
    FeedConcat(s, six, [xs[6]]);
    QuietBits(s, six);
    var t := FeedAll(s, six);
    FeedKeeps(t, xs[6]);
    assert [xs[6]][1..] == [];
    assert KeepsLock(Feed(t, xs[6]), []);
    assert KeepsLock(t, [xs[6]]);
    LockConcat(s, six, [xs[6]]);
  }

  // Codeword k is passed over.
  lemma {:induction false} SkipCodeword(s: Dec, r: seq<real>, k: nat)
    requires Aligned(s, false) && Holds(s, r, k) && 7 * k + 8 <= |r|
    ensures Inv(s)
    ensures var xs := r[7 * k + 1..7 * k + 8];
            var s' := FeedAll(s, xs);
            && Aligned(s', true) && Holds(s', r, k + 1) && KeepsLock(s, xs)
            && s'.out == s.out && s'.figsShift == s.figsShift && s'.errorCount == s.errorCount
  {
    hide Window, FeedAll, KeepsLock;
    var xs := r[7 * k + 1..7 * k + 8];
    SevenFeeds(s, xs, false);
    Loaded(s, r, k);
    SevenLock(s, xs, false);
  }

  // Codeword k is decoded.
  lemma {:induction false} TakeCodeword(s: Dec, r: seq<real>, k: nat, code: nat, earlier: nat)
    requires Aligned(s, true) && Holds(s, r, k) && 7 * k + 8 <= |r| && k >= 5
    requires code < 128 && CheckBits(code) && code != REP && earlier < 128 && CheckBits(earlier)
    requires earlier == code || (earlier == REP && code == ALPHA)
    requires OutcomeOf(r, k, code, earlier) != Lost
    requires ErrorsAfter(s.errorCount, OutcomeOf(r, k, code, earlier), earlier) <= 5
    ensures Inv(s)
    ensures var xs := r[7 * k + 1..7 * k + 8];
            var s' := FeedAll(s, xs);
            && Aligned(s', false) && Holds(s', r, k + 1) && KeepsLock(s, xs)
            && s'.out == s.out + CodePrints(code, s.figsShift).0
            && s'.figsShift == CodePrints(code, s.figsShift).1
            && s'.errorCount == ErrorsAfter(s.errorCount, OutcomeOf(r, k, code, earlier), earlier)
  {
    hide Window, FeedAll, KeepsLock, ProcessBytes, OutcomeOf, CheckBits, Table;
    var xs := r[7 * k + 1..7 * k + 8];
    SevenFeeds(s, xs, true);
    Loaded(s, r, k);
    var loaded := s.(bits := s.bits[7..] + xs, cursor := BUFFER - 8);
    LadderDelivers(loaded, r, k, code, earlier);
    SevenLock(s, xs, true);
  }

  // --- the whole run ---

  // From pair j on, with e errors counted: no codeword is lost and the count stays within bounds.
  predicate Walk(r: seq<real>, codes: seq<nat>, j: nat, e: int)
    requires |codes| >= 2 && |r| == 7 * (2 * |codes| + 8) + 1 && j <= |codes| + 2
    decreases |codes| + 2 - j
  {
    j == |codes| + 2
    || (var k := 5 + 2 * j;
        var o := OutcomeOf(r, k, FecAt(codes, k), FecAt(codes, k - 5));
        var e' := ErrorsAfter(e, o, FecAt(codes, k - 5));
        o != Lost && e' <= 5 && Walk(r, codes, j + 1, e'))
  }

  // The codewords in repeat positions: the two phasing signals, then the message.
  function Repeats(codes: seq<nat>): seq<nat> {
    [ALPHA, ALPHA] + codes
  }

  ghost predicate AllSent(codes: seq<nat>) {
    forall i :: 0 <= i < |codes| ==> Sendable(codes[i])
  }

  lemma {:induction false} RepeatsOk(codes: seq<nat>, j: nat)
    requires |codes| >= 2 && AllSent(codes) && j < |codes| + 2
    ensures var code, earlier := FecAt(codes, 5 + 2 * j), FecAt(codes, 2 * j);
            && code == Repeats(codes)[j] && code < 128 && CheckBits(code) && code != REP
            && earlier < 128 && CheckBits(earlier)
            && (earlier == code || (earlier == REP && code == ALPHA))
  {
    hide Weight;
    ControlsAreWords(ALPHA);
    ControlsAreWords(REP);
    if j >= 2 { assert Sendable(codes[j - 2]); }
  }

  lemma {:induction false} RunFrom(s: Dec, r: seq<real>, codes: seq<nat>, j: nat)
    requires |codes| >= 2 && AllSent(codes) && |r| == 7 * (2 * |codes| + 8) + 1 && j <= |codes| + 2
    requires Aligned(s, false) && Holds(s, r, 4 + 2 * j)
    requires Walk(r, codes, j, s.errorCount)
    ensures Inv(s) && KeepsLock(s, r[29 + 14 * j..])
    ensures SevenBit(Repeats(codes)[j..])
    ensures FeedAll(s, r[29 + 14 * j..]).out == s.out + AllPrint(Repeats(codes)[j..], s.figsShift)
    decreases |codes| + 2 - j
  {
    hide FecAt, OutcomeOf, Holds, FeedAll, KeepsLock, AllPrint, CodePrints, CheckBits, ErrorsAfter;
    if j == |codes| + 2 {
      assert r[29 + 14 * j..] == [] && Repeats(codes)[j..] == [];
      NothingFed(s);
    } else {
      var k := 4 + 2 * j;
      RepeatsOk(codes, j);
      SkipCodeword(s, r, k);
      var xs, ys, zs := r[7 * k + 1..7 * k + 8], r[7 * k + 8..7 * k + 15], r[7 * k + 15..];
      var s1 := FeedAll(s, xs);
      TakeCodeword(s1, r, k + 1, FecAt(codes, k + 1), FecAt(codes, k - 4));
      var s2 := FeedAll(s1, ys);
      RunFrom(s2, r, codes, j + 1);
      assert r[29 + 14 * j..] == xs + (ys + zs);
      FeedConcat(s1, ys, zs);
      FeedConcat(s, xs, ys + zs);
      LockConcat(s1, ys, zs);
      LockConcat(s, xs, ys + zs);
      PrintNext(codes, j, s.figsShift);
    }
  }

  lemma {:induction false} NothingFed(s: Dec)
    requires Inv(s) && s.state == ReadData
    ensures FeedAll(s, []) == s && KeepsLock(s, []) && AllPrint([], s.figsShift) == ""
  {
  }

  lemma {:induction false} PrintNext(codes: seq<nat>, j: nat, figs: bool)
    requires j < |codes| + 2 && AllSent(codes)
    ensures SevenBit(Repeats(codes)[j..])
    ensures SevenBit(Repeats(codes)[j + 1..])
    ensures Repeats(codes)[j] < 128
    ensures AllPrint(Repeats(codes)[j..], figs)
            == CodePrints(Repeats(codes)[j], figs).0
               + AllPrint(Repeats(codes)[j + 1..], CodePrints(Repeats(codes)[j], figs).1)
  {
    hide Table, CheckBits, CodePrints;
    var t := Repeats(codes);
    forall i | 0 <= i < |t| ensures t[i] < 128 {
      if i >= 2 { assert Sendable(codes[i - 2]); }
    }
    assert t[j..][0] == t[j] && t[j..][1..] == t[j + 1..];
  }

  // A locked receiver whose next codeword is the phasing signal before the first character,
  // whole in its buffer, the 28 newest values being the start of r.
  ghost predicate BeforeMessage(s: Dec, r: seq<real>) {
    && |s.bits| == BUFFER && s.cursor == BUFFER - 7 && s.state == ReadData && s.alphaPhase
    && 0 <= s.errorCount <= 5 && s.lastChar < 128
    && |r| >= 29 && s.bits[BUFFER - 28..] == r[..28]
  }

  lemma {:induction false} Enter(s: Dec, r: seq<real>)
    requires BeforeMessage(s, r) && Heard(r, 3) == ALPHA
    ensures Inv(s)
    ensures var s' := Feed(s, r[28]);
            && Aligned(s', false) && Holds(s', r, 4)
            && s'.out == s.out && s'.figsShift == s.figsShift
            && s'.errorCount == (if s.errorCount > 0 then s.errorCount - 1 else 0)
  {
    hide CodeOf, FlipCopies, FindAlpha, Weight;
    ControlsAreWords(ALPHA);
    var loaded := Shift(s, r[28]);
    forall i | 0 <= i < 7 ensures Window(loaded.bits, BUFFER - 8)[i] == Window(r, 21)[i] {
      assert loaded.bits[BUFFER - 8 + i] == s.bits[BUFFER - 7 + i];
      assert s.bits[BUFFER - 28..][21 + i] == r[..28][21 + i];
    }
    HeardWindow(loaded.bits, BUFFER - 8, r, 3);
    forall i | 0 <= i < BUFFER && 0 <= 28 - 99 + i ensures loaded.bits[i] == r[28 - 99 + i] {
      if i < 99 {
        assert loaded.bits[i] == s.bits[i + 1];
        assert s.bits[BUFFER - 28..][i - 71] == r[..28][i - 71];
      }
    }
  }

  // A text through the channel: the receiver never loses lock and prints the text.
  lemma {:induction false} Transmission(s: Dec, text: string, r: seq<real>)
    requires |EncodeFrom(text, false)| >= 2
    requires |r| == 7 * |Fec(EncodeFrom(text, false))| + 1
    requires BeforeMessage(s, r) && Heard(r, 3) == ALPHA && !s.figsShift
    requires Walk(r, EncodeFrom(text, false), 0, if s.errorCount > 0 then s.errorCount - 1 else 0)
    ensures Inv(s) && KeepsLock(s, r[28..])
    ensures FeedAll(s, r[28..]).out == s.out + Shown(text)
  {
    hide Walk, Heard, Feed, Holds, Shown, AllPrint, EncodeFrom;
    var codes := EncodeFrom(text, false);
    AllSendable(text, false);
    Enter(s, r);
    var s' := Feed(s, r[28]);
    RunFrom(s', r, codes, 0);
    assert Repeats(codes)[0..] == Repeats(codes);
    assert r[28..][0] == r[28] && r[28..][1..] == r[29..];
    TextPrints(text, false);
    PhasingSilent(codes);
  }

  lemma {:induction false} PhasingSilent(codes: seq<nat>)
    requires SevenBit(codes)
    ensures SevenBit(Repeats(codes))
    ensures AllPrint(Repeats(codes), false) == AllPrint(codes, false)
  {
    assert Repeats(codes)[1..] == [ALPHA] + codes && ([ALPHA] + codes)[1..] == codes;
  }

  // --- when nothing is lost ---

  // One intact copy is enough, as long as the later copy, when it is not the intact one, is
  // not mistaken for another codeword.
  predicate OneCopy(r: seq<real>, codes: seq<nat>, j: nat)
    requires |codes| >= 2 && |r| == 7 * (2 * |codes| + 8) + 1 && j < |codes| + 2
  {
    var k := 5 + 2 * j;
    Heard(r, k) == FecAt(codes, k)
    || (!CheckBits(Heard(r, k)) && Heard(r, k - 5) == FecAt(codes, k - 5))
  }

  lemma {:induction false} OneCopyWalk(r: seq<real>, codes: seq<nat>, j: nat, e: int)
    requires |codes| >= 2 && |r| == 7 * (2 * |codes| + 8) + 1 && j <= |codes| + 2 && e <= 5
    requires forall i :: j <= i < |codes| + 2 ==> OneCopy(r, codes, i)
    ensures Walk(r, codes, j, e)
    decreases |codes| + 2 - j
  {
    hide Heard, FecAt, CheckBits;
    if j < |codes| + 2 {
      assert OneCopy(r, codes, j);
      var k := 5 + 2 * j;
      var o := OutcomeOf(r, k, FecAt(codes, k), FecAt(codes, k - 5));
      OneCopyWalk(r, codes, j + 1, ErrorsAfter(e, o, FecAt(codes, k - 5)));
    }
  }

  // Time diversity repairs: no character needs both of its copies.
  lemma {:induction false} Diversity(s: Dec, text: string, r: seq<real>)
    requires |EncodeFrom(text, false)| >= 2
    requires |r| == 7 * |Fec(EncodeFrom(text, false))| + 1
    requires BeforeMessage(s, r) && Heard(r, 3) == ALPHA && !s.figsShift
    requires forall j :: 0 <= j < |EncodeFrom(text, false)| + 2 ==> OneCopy(r, EncodeFrom(text, false), j)
    ensures Inv(s) && KeepsLock(s, r[28..])
    ensures FeedAll(s, r[28..]).out == s.out + Shown(text)
  {
    hide EncodeFrom, OneCopy, Heard;
    OneCopyWalk(r, EncodeFrom(text, false), 0, if s.errorCount > 0 then s.errorCount - 1 else 0);
    Transmission(s, text, r);
  }

  // Soft values with the signs of a codeword's air bits, at any confidence, spell it.
  lemma {:induction false} SignsSpell(code: nat, w: seq<real>)
    requires |w| == 7 && code < 128
    requires forall i :: 0 <= i < 7 ==> (w[i] > 0.0 <==> AirBits(code)[i])
    ensures CodeOf(w) == code
  {
    SevenBits(7);
    var n := |w|;
    forall i | 0 <= i < n ensures w[i] > 0.0 <==> CodeBit(code, i) {
      assert w[i] > 0.0 <==> AirBits(code)[i];
    }
    assert w[..n] == w;
    CodePrefix(code, w, n);
    LowBound(code, n);
  }

  lemma {:induction false} CodePrefix(code: nat, w: seq<real>, n: nat)
    requires n <= |w| && forall i :: 0 <= i < n ==> (w[i] > 0.0 <==> CodeBit(code, i))
    ensures CodeOf(w[..n]) == Low(code, n)
  {
    if n > 0 {
      CodePrefix(code, w, n - 1);
      assert w[..n][..n - 1] == w[..n - 1];
      LowTop(code, n - 1);
    }
  }

  lemma {:induction false} LowTop(code: nat, n: nat)
    ensures Low(code, n + 1) == Low(code, n) + (if CodeBit(code, n) then Pow2(n) else 0)
  {
    if n > 0 { LowTop(code / 2, n - 1); }
  }

  lemma {:induction false} AirBitsOf(codes: seq<nat>, k: nat)
    requires k < |codes|
    ensures |StreamBits(codes)| == 7 * |codes|
    ensures StreamBits(codes)[7 * k..7 * k + 7] == AirBits(codes[k])
    decreases |codes|
  {
    hide AirBits;
    var n := |codes| - 1;
    var last := AirBits(codes[n]);
    if n > 0 { AirBitsOf(codes[..n], if k < n then k else 0); }
    assert StreamBits(codes) == StreamBits(codes[..n]) + last;
    assert k < n ==> codes[..n][k] == codes[k];
  }

  // Codeword k of a stream arrives with all its signs right.
  predicate Intact(r: seq<real>, air: seq<bool>, k: nat)
    requires |air| <= |r| && 7 * k + 7 <= |air|
  {
    forall i :: 7 * k <= i < 7 * k + 7 ==> (r[i] > 0.0 <==> air[i])
  }

  lemma {:induction false} IntactIsHeard(r: seq<real>, codes: seq<nat>, k: nat)
    requires k < |codes| && codes[k] < 128 && |StreamBits(codes)| == 7 * |codes| <= |r|
    requires Intact(r, StreamBits(codes), k)
    ensures Heard(r, k) == codes[k]
  {
    hide CodeOf, AirBits, StreamBits;
    AirBitsOf(codes, k);
    var w, air := Window(r, 7 * k), StreamBits(codes);
    forall i | 0 <= i < 7 ensures w[i] > 0.0 <==> AirBits(codes[k])[i] {
      assert w[i] == r[7 * k + i];
      assert air[7 * k..7 * k + 7][i] == air[7 * k + i];
    }
    SignsSpell(codes[k], w);
  }

  // From the text to the printed characters: the bits of the transmission received with the right
  // signs in one copy of each codeword, the other copy intact or not a valid word.
  lemma {:induction false} TextThrough(s: Dec, text: string, r: seq<real>)
    requires |EncodeFrom(text, false)| >= 2
    requires |StreamBits(Fec(EncodeFrom(text, false)))| == 7 * |Fec(EncodeFrom(text, false))| == |r| - 1
    requires BeforeMessage(s, r) && !s.figsShift
    requires Intact(r, StreamBits(Fec(EncodeFrom(text, false))), 3)
    requires var air := StreamBits(Fec(EncodeFrom(text, false)));
             forall j :: 0 <= j < |EncodeFrom(text, false)| + 2 ==> CopyArrives(r, air, 5 + 2 * j)
    ensures Inv(s) && KeepsLock(s, r[28..])
    ensures FeedAll(s, r[28..]).out == s.out + Shown(text)
  {
    hide EncodeFrom, StreamBits, Intact, Heard, FeedAll, KeepsLock, Inv, Shown, BeforeMessage, CheckBits, FecAt;
    var codes := EncodeFrom(text, false);
    var air := StreamBits(Fec(codes));
    AllSendable(text, false);
    SentAt(codes, 3);
    IntactIsHeard(r, Fec(codes), 3);
    forall j | 0 <= j < |codes| + 2 ensures OneCopy(r, codes, j) {
      assert CopyArrives(r, air, 5 + 2 * j);
      SentAt(codes, 5 + 2 * j);
      SentAt(codes, 2 * j);
      if Intact(r, air, 5 + 2 * j) {
        IntactIsHeard(r, Fec(codes), 5 + 2 * j);
      } else {
        IntactIsHeard(r, Fec(codes), 2 * j);
      }
    }
    Diversity(s, text, r);
  }

  predicate CopyArrives(r: seq<real>, air: seq<bool>, k: nat)
    requires |air| <= |r| && 5 <= k && 7 * k + 7 <= |air|
  {
    Intact(r, air, k) || (!CheckBits(Heard(r, k)) && Intact(r, air, k - 5))
  }

  lemma {:induction false} SentAt(codes: seq<nat>, k: nat)
    requires |codes| >= 2 && k < 2 * |codes| + 8
    requires forall i :: 0 <= i < |codes| ==> Sendable(codes[i])
    ensures Fec(codes)[k] == FecAt(codes, k) < 128
    ensures k == 3 ==> FecAt(codes, k) == ALPHA
  {
  }

  // What a clean channel delivers: full confidence in every bit, and one silent bit after the last.
  function OnAir(air: seq<bool>): (r: seq<real>)
    ensures |r| == |air| + 1
  {
    seq(|air|, i requires 0 <= i < |air| => if air[i] then 1.0 else -1.0) + [0.0]
  }

  function Waiting(r: seq<real>): Dec
    requires |r| >= 29
  {
    Dec(seq(BUFFER - 28, _ => 0.0) + r[..28], BUFFER - 7, ReadData, true, 0, false, 0, "")
  }

  // Encoder to print: every text of at least two codewords comes through a clean channel.
  lemma {:induction false} CleanChannel(text: string)
    requires |EncodeFrom(text, false)| >= 2
    ensures var r := OnAir(StreamBits(Fec(EncodeFrom(text, false))));
            && |r| >= 29 && Inv(Waiting(r)) && KeepsLock(Waiting(r), r[28..])
            && FeedAll(Waiting(r), r[28..]).out == Shown(text)
  {
    hide EncodeFrom, StreamBits, Heard, FeedAll, KeepsLock, Inv, Shown, CheckBits, FecAt, Fec;
    var codes := EncodeFrom(text, false);
    var air := StreamBits(Fec(codes));
    var r := OnAir(air);
    AirBitsOf(Fec(codes), 0);
    forall j | 0 <= j < |codes| + 2 ensures CopyArrives(r, air, 5 + 2 * j) {
      assert Intact(r, air, 5 + 2 * j);
    }
    assert Intact(r, air, 3);
    assert Waiting(r).bits[BUFFER - 28..] == r[..28];
    TextThrough(Waiting(r), text, r);
    assert "" + Shown(text) == Shown(text);
  }
}
