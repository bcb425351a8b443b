/**
 What the receiver's repair ladder does with a damaged pair of copies, told by marks and soft
 values, and what moves its phase and its shift.
 */
module FecLadder {
  import opened Bits
  import opened Ccir476
  import opened FecSpec
  import opened Options
  import opened SoftValues

  // --- what flipping the least certain bit repairs ---

  ghost predicate Decided(w: seq<real>) {
    forall i :: 0 <= i < |w| ==> w[i] != 0.0
  }

  lemma {:induction false} ScanCounts(w: seq<real>)
    requires Decided(w)
    ensures var s := ScanOf(w);
            && s.ones == 1 + Marks(w) && s.zeros == |w| - Marks(w)
            && (s.zeros > 0 ==> s.minZero.Some?) && (s.minZero.Some? ==> w[s.minZero.value] < 0.0)
            && (s.ones > 1 ==> s.minOne.Some?) && (s.minOne.Some? ==> w[s.minOne.value] > 0.0)
  {
    if w != [] { ScanCounts(w[..|w| - 1]); }
  }

  lemma {:induction false} MarksOfUpdate(w: seq<real>, i: nat, x: real)
    requires i < |w|
    ensures Marks(w[i := x]) == Marks(w) - (if w[i] > 0.0 then 1 else 0) + (if x > 0.0 then 1 else 0)
  {
    var n := |w| - 1;
    if i < n {
      assert w[i := x][..n] == w[..n][i := x];
      MarksOfUpdate(w[..n], i, x);
    } else {
      assert w[i := x][..n] == w[..n];
    }
  }

  lemma {:induction false} CodeShift(w: seq<real>)
    requires w != []
    ensures CodeOf(w) == 2 * CodeOf(w[1..]) + (if w[0] > 0.0 then 1 else 0)
    ensures Marks(w) == Marks(w[1..]) + (if w[0] > 0.0 then 1 else 0)
  {
    var n := |w| - 1;
    if n > 0 {
      CodeShift(w[..n]);
      assert w[..n][1..] == w[1..][..n - 1] && w[1..][n - 1] == w[n];
    } else {
      assert w[..0] == [] && w[1..] == [];
    }
  }

  // The weight the receiver checks is the number of marks.
  lemma {:induction false} WeightIsMarks(w: seq<real>)
    requires |w| == 7
    ensures Weight(CodeOf(w)) == Marks(w)
  {
    hide *;
    var w1 := w[1..];
    var w2 := w1[1..];
    var w3 := w2[1..];
    var w4 := w3[1..];
    var w5 := w4[1..];
    var w6 := w5[1..];
    CodeShift(w);
    CodeShift(w1);
    CodeShift(w2);
    CodeShift(w3);
    CodeShift(w4);
    CodeShift(w5);
    CodeShift(w6);
    NoCode(w6[1..]);
    WeightOfHalves(CodeOf(w), CodeOf(w1), CodeOf(w2), CodeOf(w3), CodeOf(w4), CodeOf(w5), CodeOf(w6));
  }

  lemma {:induction false} NoCode(w: seq<real>)
    requires |w| == 0
    ensures CodeOf(w) == 0 && Marks(w) == 0
  {
  }

  // Flipping the least certain bit gives a valid word exactly when it has three marks. The repair
  // meant for a word of five marks never happens, since marks are counted from one: instead a
  // valid word would lose a mark.
  lemma {:induction false} FlipRepairs(w: seq<real>)
    requires |w| == 7 && Decided(w)
    ensures CheckBits(CodeOf(Flip(w))) <==> Marks(w) == 3
  {
    hide CodeOf, Marks, ScanOf, Weight;
    ScanCounts(w);
    WeightIsMarks(Flip(w));
    var s := ScanOf(w);
    if s.zeros == 4 {
      MarksOfUpdate(w, s.minZero.value, -w[s.minZero.value]);
    } else if s.ones == 5 {
      MarksOfUpdate(w, s.minOne.value, -w[s.minOne.value]);
    }
  }

  // --- the ladder ---

  function Spaces(w: seq<real>): nat {
    if w == [] then 0 else Spaces(w[..|w| - 1]) + (if w[|w| - 1] < 0.0 then 1 else 0)
  }

  // The first of the negative values closest to zero.
  ghost predicate Weakest(w: seq<real>, i: nat) {
    && i < |w| && w[i] < 0.0
    && (forall j :: 0 <= j < |w| && w[j] < 0.0 ==> w[j] <= w[i])
    && (forall j :: 0 <= j < i && w[j] < 0.0 ==> w[j] < w[i])
  }

  // r is w with its weakest space taken as a mark, when there are exactly four spaces.
  ghost predicate Raised(w: seq<real>, r: seq<real>) {
    if Spaces(w) == 4 then exists i: nat :: Weakest(w, i) && r == w[i := -w[i]] else r == w
  }

  // Four spaces and three marks.
  predicate Repairable(w: seq<real>) {
    Spaces(w) == 4 && Marks(w) == 3
  }

  lemma {:induction false} ScanMeets(w: seq<real>)
    ensures var s := ScanOf(w);
            && s.zeros == Spaces(w) && s.ones == 1 + |w| - Spaces(w)
            && (s.minZero.Some? <==> Spaces(w) > 0)
            && (s.minZero.Some? ==> Weakest(w, s.minZero.value))
            && (s.minOne.Some? <==> Spaces(w) < |w|)
            && (s.minOne.Some? ==>
                  w[s.minOne.value] >= 0.0 && forall j :: 0 <= j < |w| && w[j] >= 0.0 ==> w[j] >= w[s.minOne.value])
  {
    if w != [] {
      ScanMeets(w[..|w| - 1]);
      NoSpaces(w[..|w| - 1]);
    }
  }

  lemma {:induction false} NoSpaces(w: seq<real>)
    ensures Spaces(w) == 0 ==> forall j :: 0 <= j < |w| ==> w[j] >= 0.0
    ensures Spaces(w) == |w| ==> forall j :: 0 <= j < |w| ==> w[j] < 0.0
    ensures Marks(w) + Spaces(w) <= |w|
    ensures Marks(w) + Spaces(w) < |w| ==> exists j :: 0 <= j < |w| && w[j] == 0.0
  {
    if w != [] { NoSpaces(w[..|w| - 1]); }
  }

  // On a word that is not valid the other branch changes nothing.
  lemma {:induction false} FlipRaises(w: seq<real>)
    requires |w| == 7 && Marks(w) != 4
    ensures Raised(w, Flip(w))
    ensures CheckBits(CodeOf(Flip(w))) <==> Repairable(w)
  {
    hide CodeOf, Weight, ScanOf;
    ScanMeets(w);
    NoSpaces(w);
    WeightIsMarks(Flip(w));
    var s := ScanOf(w);
    if s.zeros == 4 {
      MarksOfUpdate(w, s.minZero.value, -w[s.minZero.value]);
    } else if s.ones == 5 {
      var j :| 0 <= j < |w| && w[j] == 0.0;
      assert w[s.minOne.value] == 0.0;
      assert Flip(w) == w;
    }
  }

  // A word with no silent bit and other than three marks is left as it is.
  lemma {:induction false} DecidedStays(w: seq<real>, r: seq<real>)
    requires |w| == 7 && Decided(w) && Marks(w) != 3 && Raised(w, r)
    ensures r == w
  {
    DecidedCounts(w);
  }

  lemma {:induction false} DecidedCounts(w: seq<real>)
    requires Decided(w)
    ensures Spaces(w) == |w| - Marks(w)
  {
    if w != [] { DecidedCounts(w[..|w| - 1]); }
  }

  // Both copies and their sum are invalid words.
  ghost predicate Damaged(s: Dec, cursor: int)
    requires |s.bits| == BUFFER && LEAD <= cursor <= BUFFER - 7
  {
    var direct, repeat := Window(s.bits, cursor), Window(s.bits, cursor - LEAD);
    Marks(direct) != 4 && Marks(repeat) != 4 && Marks(Plus(direct, repeat)) != 4
  }

  /**
   The last rungs: the direct copy, the repeat and their sum, in this order. The first with four
   spaces and three marks is decoded with its weakest space as a mark; copies looked at stay
   raised in the buffer. When none is so, nothing is printed and the answer is -2.
   */
  lemma {:induction false} LastRungs(s: Dec, cursor: int) returns (a: seq<real>, b: seq<real>, c: seq<real>)
    requires |s.bits| == BUFFER && LEAD <= cursor <= BUFFER - 7 && Damaged(s, cursor)
    ensures |a| == |b| == |c| == 7
    ensures var direct, repeat := Window(s.bits, cursor), Window(s.bits, cursor - LEAD);
            && Raised(direct, a) && Raised(repeat, b) && Raised(Plus(direct, repeat), c)
            && CodeOf(a) < 128 && CodeOf(b) < 128 && CodeOf(c) < 128
            && var first := s.(bits := WriteWindow(s.bits, cursor, a));
               var second := first.(bits := WriteWindow(first.bits, cursor - LEAD, b));
               ProcessBytes(s, cursor)
               == if Repairable(direct) then (ProcessChar(first, CodeOf(a)), -1)
                  else if Repairable(repeat) then (ProcessChar(second, CodeOf(b)), -1)
                  else if Repairable(Plus(direct, repeat)) then (ProcessChar(second, CodeOf(c)), -1)
                  else (second, -2)
  {
    hide Marks, Spaces, CodeOf, Weight, Flip, Raised, ProcessChar;
    SevenBits(7);
    var direct, repeat := Window(s.bits, cursor), Window(s.bits, cursor - LEAD);
    var sum := Plus(direct, repeat);
    WeightIsMarks(direct);
    WeightIsMarks(repeat);
    WeightIsMarks(sum);
    FlipRaises(direct);
    FlipRaises(repeat);
    FlipRaises(sum);
    a, b, c := Flip(direct), Flip(repeat), Flip(sum);
    assert Window(WriteWindow(s.bits, cursor, a), cursor - LEAD) == repeat;
  }

  // The bits of a decoded word are the signs of the window.
  lemma {:induction false} CodeBitAt(w: seq<real>, i: nat)
    requires i < |w|
    ensures CodeOf(w) / Pow2(i) % 2 == if w[i] > 0.0 then 1 else 0
  {
    hide Pow2;
    BitAtIsQuotient(CodeOf(w), i);
    SignAt(w, i);
  }

  lemma {:induction false} SignAt(w: seq<real>, i: nat)
    requires i < |w|
    ensures BitAt(CodeOf(w), i) == if w[i] > 0.0 then 1 else 0
  {
    hide CodeOf;
    CodeShift(w);
    if i > 0 { SignAt(w[1..], i - 1); }
  }

  // --- phase and shift ---

  // A phasing signal received twice in a row in decoded places moves decoding to the other phase:
  // the next codeword is decoded too. No other word does.
  lemma {:induction false} PhaseCorrection(s: Dec)
    requires |s.bits| == BUFFER && 0 <= s.cursor < BUFFER - 7 && s.alphaPhase
    requires CheckBits(CodeAt(s.bits, s.cursor))
    ensures CodewordStep(s).alphaPhase <==> CodeAt(s.bits, s.cursor) == REP && s.lastChar == REP
    ensures CodewordStep(s).lastChar == CodeAt(s.bits, s.cursor)
  {
    hide CodeAt, CheckBits, CodePrints;
  }

  // A clean copy takes one error off, a repair adds one, a failure two, never below none; above five
  // the lock is lost. The codewords between are passed over.
  lemma {:induction false} ErrorsCounted(s: Dec)
    requires Inv(s) && s.state == ReadData && s.cursor < BUFFER - 7
    ensures var t := CodewordStep(s);
            && t.cursor == s.cursor + 7
            && (!s.alphaPhase ==> t == s.(alphaPhase := true, cursor := s.cursor + 7))
            && (s.alphaPhase ==>
                  var (s', ret) := ProcessBytes(s, s.cursor);
                  && -2 <= ret <= 1 && t.out == s'.out && t.bits == s'.bits
                  && t.errorCount == (if s.errorCount > ret then s.errorCount - ret else 0)
                  && t.state == if s.errorCount - ret <= 5 then ReadData else SyncSetup)
  {
    hide ProcessBytes;
    ProcessKeeps(s, s.cursor);
  }

  // A receiver that locks does so at the offset found, with decoding on, no errors counted and
  // letter shift; one that does not lock stays without.
  lemma {:induction false} FreshLock(s: Dec, x: real)
    requires Inv(s) && s.state != ReadData
    ensures var heard := s.bits[1..] + [x];
            var offset := FindAlpha(heard);
            && |heard| == BUFFER
            && (offset < 0 ==> Feed(s, x).state == SyncSetup && Feed(s, x).out == s.out)
            && (offset >= 0 ==>
                  Feed(s, x) == CodewordStep(Dec(heard, offset, ReadData, true, 0, false, s.lastChar, s.out)))
  {
    hide FindAlpha, CodewordStep;
  }
}
