/**
 How the receiver finds its phase: the offset it settles on, and a text it cannot fail to lock on.
 */
module FecSync {
  import opened Bits
  import opened Ccir476
  import opened FecSpec

  // --- the tally at one offset ---

  predicate ValidAt(bits: seq<real>, i: int)
    requires |bits| == BUFFER && LEAD <= i < BUFFER - 7
  {
    Marks(Window(bits, i)) == 4
  }

  // A phasing signal repeating the word five places earlier.
  predicate PhasingAt(bits: seq<real>, i: int)
    requires |bits| == BUFFER && LEAD <= i < BUFFER - 7
  {
    && ValidAt(bits, i) && CodeAt(bits, i) == CodeAt(bits, i - LEAD)
    && (CodeAt(bits, i) == ALPHA || CodeAt(bits, i) == REP)
  }

  // Another word repeated so, or an ALPHA right after a REP.
  predicate RepeatAt(bits: seq<real>, i: int)
    requires |bits| == BUFFER && LEAD <= i < BUFFER - 7
  {
    && ValidAt(bits, i) && !PhasingAt(bits, i)
    && (CodeAt(bits, i) == CodeAt(bits, i - LEAD) || (CodeAt(bits, i) == ALPHA && CodeAt(bits, i - 7) == REP))
  }

  predicate NoPhasingFrom(bits: seq<real>, i: int)
    requires |bits| == BUFFER && i >= LEAD
    decreases BUFFER - i
  {
    i >= BUFFER - 7 || (!PhasingAt(bits, i) && NoPhasingFrom(bits, i + 7))
  }

  function Repeats(bits: seq<real>, i: int): nat
    requires |bits| == BUFFER && i >= LEAD
    decreases BUFFER - i
  {
    if i >= BUFFER - 7 then 0 else Repeats(bits, i + 7) + (if RepeatAt(bits, i) then 1 else 0)
  }

  // Valid words with no repeated phasing signal at or after them.
  function ValidTail(bits: seq<real>, i: int): nat
    requires |bits| == BUFFER && i >= LEAD
    decreases BUFFER - i
  {
    if i >= BUFFER - 7 then 0
    else ValidTail(bits, i + 7) + (if ValidAt(bits, i) && NoPhasingFrom(bits, i) then 1 else 0)
  }

  // The tally counts the repeats, and the valid words after the last repeated phasing signal.
  lemma {:induction false} TallyExactly(bits: seq<real>, i: int, score: int, reps: int)
    requires |bits| == BUFFER && i >= LEAD
    ensures Tally(bits, i, score, reps).1 == reps + Repeats(bits, i)
    ensures Tally(bits, i, score, reps).0 == ValidTail(bits, i) + (if NoPhasingFrom(bits, i) then score else 0)
    decreases BUFFER - i
  {
    hide CodeAt, Window, Marks;
    if i < BUFFER - 7 {
      TallyExactly(bits, i + 7, if PhasingAt(bits, i) then 0 else if ValidAt(bits, i) then score + 1 else score,
                   if RepeatAt(bits, i) then reps + 1 else reps);
    }
  }

  // --- the best offset ---

  function Total(bits: seq<real>, o: int): int
    requires |bits| == BUFFER && o >= LEAD
  {
    ValidTail(bits, o) + Repeats(bits, o)
  }

  // Three repeats seen at this offset.
  predicate Eligible(bits: seq<real>, o: int)
    requires |bits| == BUFFER && o >= LEAD
  {
    Repeats(bits, o) >= 3
  }

  // r is the first best of the eligible offsets below `end`, or nothing is eligible there.
  ghost predicate BestBelow(bits: seq<real>, end: int, best: (int, int))
    requires |bits| == BUFFER && LEAD <= end
  {
    && best.1 >= 0
    && (forall o :: LEAD <= o < end && Eligible(bits, o) ==> Total(bits, o) <= best.1)
    && (best.1 > 0 ==>
          && LEAD <= best.0 < end && Eligible(bits, best.0) && Total(bits, best.0) == best.1
          && forall o :: LEAD <= o < best.0 && Eligible(bits, o) ==> Total(bits, o) < best.1)
  }

  lemma {:induction false} BestIs(bits: seq<real>, offset: int, best: (int, int))
    requires |bits| == BUFFER && LEAD <= offset <= LEAD + 14 && BestBelow(bits, offset, best)
    ensures BestBelow(bits, LEAD + 14, BestOffset(bits, offset, best))
    decreases LEAD + 14 - offset
  {
    hide Tally, ValidTail, Repeats;
    if offset < LEAD + 14 {
      TallyExactly(bits, offset, 0, 0);
      var t := Tally(bits, offset, 0, 0);
      BestIs(bits, offset + 1, if t.1 >= 3 && t.0 + t.1 > best.1 then (offset, t.0 + t.1) else best);
    }
  }

  // The offset found is the first with the highest total among the eligible ones, and it is found
  // exactly when some eligible total is above eight.
  lemma {:induction false} PhaseFound(bits: seq<real>)
    requires |bits| == BUFFER
    ensures var r := FindAlpha(bits);
            && (r == -1 <==> forall o :: LEAD <= o < LEAD + 14 && Eligible(bits, o) ==> Total(bits, o) <= 8)
            && (r != -1 ==>
                  && LEAD <= r < LEAD + 14 && Eligible(bits, r)
                  && (forall o :: LEAD <= o < LEAD + 14 && Eligible(bits, o) ==> Total(bits, o) <= Total(bits, r))
                  && (forall o :: LEAD <= o < r && Eligible(bits, o) ==> Total(bits, o) < Total(bits, r)))
  {
    hide Tally, BestOffset, ValidTail, Repeats;
    BestIs(bits, LEAD, (0, 0));
  }

  // --- text mid-stream ---

  // The windows from i on, seven bits apart.
  function Slots(i: int): nat
    decreases BUFFER - i
  {
    if i >= BUFFER - 7 then 0 else 1 + Slots(i + 7)
  }

  // Valid words from i on, none a repeated phasing signal, every other one (the first if `paired`)
  // repeating the word five places earlier.
  predicate TextFrom(bits: seq<real>, i: int, paired: bool)
    requires |bits| == BUFFER && i >= LEAD
    decreases BUFFER - i
  {
    i >= BUFFER - 7
    || (var code, rep := CodeAt(bits, i), CodeAt(bits, i - LEAD);
        && Marks(Window(bits, i)) == 4
        && !(code == rep && (code == ALPHA || code == REP))
        && (paired ==> code == rep)
        && TextFrom(bits, i + 7, !paired))
  }

  lemma {:induction false} TextTally(bits: seq<real>, i: int, paired: bool, score: int, reps: int)
    requires |bits| == BUFFER && i >= LEAD && TextFrom(bits, i, paired)
    ensures Tally(bits, i, score, reps).0 == score + Slots(i)
    ensures 2 * (Tally(bits, i, score, reps).1 - reps) >= Slots(i) - (if paired then 0 else 1)
    decreases BUFFER - i
  {
    hide CodeAt, Window, Marks;
    if i < BUFFER - 7 {
      var code, rep := CodeAt(bits, i), CodeAt(bits, i - LEAD);
      var again := code == rep || (code == ALPHA && CodeAt(bits, i - 7) == REP);
      TextTally(bits, i + 7, !paired, score + 1, if again then reps + 1 else reps);
    }
  }

  lemma {:induction false} SlotsCover(i: int)
    ensures 7 * Slots(i) >= BUFFER - 7 - i
    decreases BUFFER - i
  {
    if i < BUFFER - 7 { SlotsCover(i + 7); }
  }

  // A buffer full of text at any phase is locked on.
  lemma {:induction false} TextLocks(bits: seq<real>, o: int)
    requires |bits| == BUFFER && LEAD <= o < LEAD + 14 && TextFrom(bits, o, true)
    ensures FindAlpha(bits) >= LEAD && Total(bits, FindAlpha(bits)) >= 11
  {
    hide Tally, TextFrom, FindAlpha, ValidTail, Repeats;
    TextTally(bits, o, true, 0, 0);
    TallyExactly(bits, o, 0, 0);
    SlotsCover(o);
    PhaseFound(bits);
    assert Eligible(bits, o) && Total(bits, o) >= 11;
  }
}
