/**
 What the FEC-B receiver does with one soft bit, as a function on its state.
 */
module FecSpec {
  import opened Bits
  import opened Ccir476
  import opened Options
  import opened SoftValues

  const BUFFER: nat := 100
  const LEAD: nat := 35 // the repeat trails by five codewords

  datatype Phase = SyncSetup | Sync | ReadData

  datatype Dec = Dec(bits: seq<real>, cursor: int, state: Phase, alphaPhase: bool, errorCount: int,
                     figsShift: bool, lastChar: int, out: string)

  function Initial(): Dec {
    Dec(seq(BUFFER, _ => 0.0), 0, SyncSetup, true, 0, false, 0, "")
  }

  // --- windows of soft bits ---

  // The codeword the signs of w spell, least significant first.
  function CodeOf(w: seq<real>): (code: nat)
    ensures code < Pow2(|w|)
  {
    if w == [] then 0
    else
      var n := |w| - 1;
      CodeOf(w[..n]) + (if w[n] > 0.0 then Pow2(n) else 0)
  }

  lemma {:induction false} SevenBits(n: nat)
    requires n == 7
    ensures Pow2(n) == 128
  {
  }

  function Window(bits: seq<real>, pos: int): (w: seq<real>)
    requires 0 <= pos <= |bits| - 7
    ensures |w| == 7
  {
    bits[pos..pos + 7]
  }

  function CodeAt(bits: seq<real>, pos: int): (code: nat)
    requires 0 <= pos <= |bits| - 7
    ensures code < 128
  {
    SevenBits(7);
    CodeOf(Window(bits, pos))
  }

  function WriteWindow(bits: seq<real>, pos: int, w: seq<real>): (r: seq<real>)
    requires 0 <= pos <= |bits| - 7 && |w| == 7
    ensures |r| == |bits|
  {
    bits[..pos] + w + bits[pos + 7..]
  }

  function Marks(w: seq<real>): nat {
    if w == [] then 0 else Marks(w[..|w| - 1]) + (if w[|w| - 1] > 0.0 then 1 else 0)
  }

  // --- character sync ---

  // Tally of codewords and of matching repeats at i, i + 7, ...
  function Tally(bits: seq<real>, i: int, score: int, reps: int): (int, int)
    requires |bits| == BUFFER && i >= LEAD
    decreases BUFFER - i
  {
    if i >= BUFFER - 7 then (score, reps)
    else if Marks(Window(bits, i)) != 4 then Tally(bits, i + 7, score, reps)
    else
      var code, rep := CodeAt(bits, i), CodeAt(bits, i - LEAD);
      if code == rep then
        if code == ALPHA || code == REP then Tally(bits, i + 7, 0, reps)
        else Tally(bits, i + 7, score + 1, reps + 1)
      else if code == ALPHA && CodeAt(bits, i - 7) == REP then Tally(bits, i + 7, score + 1, reps + 1)
      else Tally(bits, i + 7, score + 1, reps)
  }

  // Best (offset, score) over offsets from `offset` on, given the best so far.
  function BestOffset(bits: seq<real>, offset: int, best: (int, int)): (r: (int, int))
    requires |bits| == BUFFER && LEAD <= offset <= LEAD + 14
    requires best.1 >= 0 && (best.1 > 0 ==> LEAD <= best.0 < LEAD + 14)
    ensures r.1 >= 0 && (r.1 > 0 ==> LEAD <= r.0 < LEAD + 14)
    decreases LEAD + 14 - offset
  {
    hide Tally;
    if offset == LEAD + 14 then best
    else
      var (score, reps) := Tally(bits, offset, 0, 0);
      BestOffset(bits, offset + 1, if reps >= 3 && score + reps > best.1 then (offset, score + reps) else best)
  }

  function FindAlpha(bits: seq<real>): (r: int)
    requires |bits| == BUFFER
    ensures r == -1 || LEAD <= r < LEAD + 14
  {
    var (offset, score) := BestOffset(bits, LEAD, (0, 0));
    if score > 8 then offset else -1
  }

  // --- repairing a codeword ---

  datatype Scan = Scan(zeros: int, ones: int, minZero: Option<nat>, minOne: Option<nat>)

  // Counts of spaces and marks (the latter from one), and the least certain of each.
  function ScanOf(w: seq<real>): (s: Scan)
    ensures s.minZero.Some? ==> s.minZero.value < |w|
    ensures s.minOne.Some? ==> s.minOne.value < |w|
  {
    if w == [] then Scan(0, 1, None, None)
    else
      var n := |w| - 1;
      var s, v := ScanOf(w[..n]), w[n];
      if v < 0.0 then
        s.(zeros := s.zeros + 1, minZero := if s.minZero.None? || v > w[s.minZero.value] then Some(n) else s.minZero)
      else
        s.(ones := s.ones + 1, minOne := if s.minOne.None? || v < w[s.minOne.value] then Some(n) else s.minOne)
  }

  function Flip(w: seq<real>): (r: seq<real>)
    ensures |r| == |w|
  {
    var s := ScanOf(w);
    if s.zeros == 4 && s.minZero.Some? then w[s.minZero.value := -w[s.minZero.value]]
    else if s.ones == 5 && s.minOne.Some? then w[s.minOne.value := -w[s.minOne.value]]
    else w
  }

  // --- handling a codeword ---

  function ProcessChar(s: Dec, code: nat): Dec
    requires code < 128
  {
    var (text, figs) := CodePrints(code, s.figsShift);
    s.(alphaPhase := s.alphaPhase && !(code == REP && s.lastChar == REP),
       figsShift := figs, out := s.out + text, lastChar := code)
  }

  // The fallback ladder at the codeword under the cursor; the second component is 1 for a
  // clean copy, 0 for a skipped phasing signal, -1 for a repair, -2 for a failure.
  function ProcessBytes(s: Dec, cursor: int): (Dec, int)
    requires |s.bits| == BUFFER && 0 <= cursor <= BUFFER - 7
  {
    var code := CodeAt(s.bits, cursor);
    if CheckBits(code) then (ProcessChar(s, code), 1)
    else if cursor < LEAD then (s, -1)
    else
      var rep := CodeAt(s.bits, cursor - LEAD);
      if CheckBits(rep) then
        if rep == REP then (s, 0) else (ProcessChar(s, rep), 1)
      else
        var avg := Plus(Window(s.bits, cursor), Window(s.bits, cursor - LEAD));
        SevenBits(7);
        if CheckBits(CodeOf(avg)) then (ProcessChar(s, CodeOf(avg)), -1)
        else FlipCopies(s, cursor, avg)
  }

  // The last resorts, which leave the flipped copies in the buffer.
  function FlipCopies(s: Dec, cursor: int, avg: seq<real>): (Dec, int)
    requires |s.bits| == BUFFER && LEAD <= cursor <= BUFFER - 7 && |avg| == 7
  {
    SevenBits(7);
    var alpha := Flip(Window(s.bits, cursor));
    var s1 := s.(bits := WriteWindow(s.bits, cursor, alpha));
    if CheckBits(CodeOf(alpha)) then (ProcessChar(s1, CodeOf(alpha)), -1)
    else
      var rep := Flip(Window(s1.bits, cursor - LEAD));
      var s2 := s1.(bits := WriteWindow(s1.bits, cursor - LEAD, rep));
      if CheckBits(CodeOf(rep)) then (ProcessChar(s2, CodeOf(rep)), -1)
      else
        var both := Flip(avg);
        if CheckBits(CodeOf(both)) then (ProcessChar(s2, CodeOf(both)), -1) else (s2, -2)
  }

  // One codeword step: every second codeword is decoded, and the cursor moves on seven bits.
  function CodewordStep(s: Dec): Dec
    requires |s.bits| == BUFFER && 0 <= s.cursor < BUFFER - 7
  {
    var s1 :=
      if s.alphaPhase then
        var (s', ret) := ProcessBytes(s, s.cursor);
        var e := s'.errorCount - ret;
        s'.(state := if e > 5 then SyncSetup else s'.state, errorCount := if e < 0 then 0 else e)
      else s;
    s1.(alphaPhase := !s1.alphaPhase, cursor := s1.cursor + 7)
  }

  function Shift(s: Dec, x: real): Dec
    requires |s.bits| == BUFFER
  {
    s.(bits := s.bits[1..] + [x], cursor := if s.cursor > 0 then s.cursor - 1 else s.cursor)
  }

  // Look for a lock when there is none.
  function Acquire(s: Dec): Dec
    requires |s.bits| == BUFFER
  {
    if s.state == ReadData then s
    else
      var s1 := if s.state == SyncSetup then s.(errorCount := 0, figsShift := false) else s;
      var offset := FindAlpha(s.bits);
      if offset >= 0 then s1.(state := ReadData, cursor := offset, alphaPhase := true)
      else s1.(state := SyncSetup)
  }

  function Feed(s: Dec, x: real): Dec
    requires |s.bits| == BUFFER && 0 <= s.cursor < BUFFER
  {
    var s1 := Acquire(Shift(s, x));
    if s1.state == ReadData && s1.cursor < BUFFER - 7 then CodewordStep(s1) else s1
  }

  // --- what arbitrary input preserves ---

  predicate Inv(s: Dec) {
    && |s.bits| == BUFFER && 0 <= s.cursor < BUFFER && s.state != Sync
    && (s.state == ReadData ==> s.cursor >= LEAD && 0 <= s.errorCount <= 5)
    && s.lastChar < 128
  }

  lemma {:induction false} ProcessKeeps(s: Dec, cursor: int)
    requires |s.bits| == BUFFER && 0 <= cursor <= BUFFER - 7 && s.lastChar < 128
    ensures var (s', ret) := ProcessBytes(s, cursor);
            && |s'.bits| == BUFFER && s'.cursor == s.cursor && s'.state == s.state
            && s'.errorCount == s.errorCount && -2 <= ret <= 1 && s'.lastChar < 128
  {
    hide CodeOf, CheckBits, CodePrints, Flip, Plus;
  }

  lemma {:induction false} FeedKeeps(s: Dec, x: real)
    requires Inv(s)
    ensures Inv(Feed(s, x))
  {
    hide ProcessBytes, FindAlpha;
    var s1 := Acquire(Shift(s, x));
    if s1.state == ReadData && s1.cursor < BUFFER - 7 {
      ProcessKeeps(s1, s1.cursor);
    }
  }

  function FeedAll(s: Dec, xs: seq<real>): (r: Dec)
    requires Inv(s)
    ensures Inv(r)
    decreases |xs|
  {
    if xs == [] then s
    else
      FeedKeeps(s, xs[0]);
      FeedAll(Feed(s, xs[0]), xs[1..])
  }

  // The lock is held after every prefix.
  ghost predicate KeepsLock(s: Dec, xs: seq<real>)
    requires Inv(s)
    decreases |xs|
  {
    s.state == ReadData && (xs == [] || (FeedKeeps(s, xs[0]); KeepsLock(Feed(s, xs[0]), xs[1..])))
  }

  lemma {:induction false} InitialOk()
    ensures Inv(Initial())
  {
  }

  // --- positions ---

  // Whether feeding one more bit to a locked receiver takes a codeword step.
  predicate Steps(s: Dec) {
    s.state == ReadData && s.cursor - 1 < BUFFER - 7
  }

  // Absolute number of the first bit under the cursor when n bits have been fed.
  function Position(s: Dec, n: nat): int {
    n - BUFFER + s.cursor
  }

  // While the lock holds, a bit either leaves the position of the next codeword alone or,
  // at a codeword step, moves it on by exactly seven.
  lemma {:induction false} PositionMoves(s: Dec, x: real, n: nat)
    requires Inv(s) && s.state == ReadData && Feed(s, x).state == ReadData
    ensures Position(Feed(s, x), n + 1) == Position(s, n) + (if Steps(s) then 7 else 0)
  {
    hide ProcessBytes, FindAlpha;
    if Steps(s) { ProcessKeeps(Shift(s, x), Shift(s, x).cursor); }
  }

  // The absolute positions of the codeword steps taken over a run.
  function StepPositions(s: Dec, xs: seq<real>, n: nat): seq<int>
    requires Inv(s)
    decreases |xs|
  {
    if xs == [] then []
    else
      FeedKeeps(s, xs[0]);
      (if Steps(s) then [Position(s, n)] else []) + StepPositions(Feed(s, xs[0]), xs[1..], n + 1)
  }

  // No bit is skipped or used twice: successive steps of one lock are seven bits apart, and
  // the next one follows on.
  lemma {:induction false} StepsAreContiguous(s: Dec, xs: seq<real>, n: nat)
    requires Inv(s) && KeepsLock(s, xs)
    ensures var ps := StepPositions(s, xs, n);
            && (forall i :: 0 <= i < |ps| ==> ps[i] == Position(s, n) + 7 * i)
            && Position(FeedAll(s, xs), n + |xs|) == Position(s, n) + 7 * |ps|
    decreases |xs|
  {
    hide Feed;
    if xs != [] {
      FeedKeeps(s, xs[0]);
      PositionMoves(s, xs[0], n);
      StepsAreContiguous(Feed(s, xs[0]), xs[1..], n + 1);
    }
  }
}
