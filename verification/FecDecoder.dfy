/**
 The streaming FEC-B receiver: a 100-cell buffer of soft bits worked in place.
 */
module FecDecoder {
  import opened Bits
  import opened Ccir476
  import opened FecSpec
  import opened Options
  import opened SoftValues

  method CodeFromSoft(soft: seq<real>) returns (code: nat)
    ensures code == CodeOf(soft)
  {
    code := 0;
    for i := 0 to |soft|
      invariant code == CodeOf(soft[..i])
    {
      assert soft[..i + 1][..i] == soft[..i];
      if soft[i] > 0.0 {
        code := code + Pow2(i); // bit i is still clear
      }
    }
    assert soft[..|soft|] == soft;
  }

  method FlipSmallestBit(pos: seq<real>) returns (r: seq<real>)
    ensures r == Flip(pos)
  {
    var minZeroPos: Option<nat>, minOnePos: Option<nat> := None, None;
    var countZero, countOne := 0, 1;
    for i := 0 to |pos|
      invariant ScanOf(pos[..i]) == Scan(countZero, countOne, minZeroPos, minOnePos)
    {
      ScanPrefix(pos, i);
      var val := pos[i];
      if val < 0.0 {
        countZero := countZero + 1;
        if minZeroPos.None? || val > pos[minZeroPos.value] {
          minZeroPos := Some(i);
        }
      } else {
        countOne := countOne + 1;
        if minOnePos.None? || val < pos[minOnePos.value] {
          minOnePos := Some(i);
        }
      }
    }
    assert pos[..|pos|] == pos;
    r := pos;
    if countZero == 4 && minZeroPos.Some? {
      r := r[minZeroPos.value := -r[minZeroPos.value]];
    } else if countOne == 5 && minOnePos.Some? {
      r := r[minOnePos.value := -r[minOnePos.value]];
    }
  }

  lemma {:induction false} ScanPrefix(w: seq<real>, i: nat)
    requires i < |w|
    ensures var s, v := ScanOf(w[..i]), w[i];
            ScanOf(w[..i + 1])
            == if v < 0.0 then
                 s.(zeros := s.zeros + 1,
                    minZero := if s.minZero.None? || v > w[s.minZero.value] then Some(i) else s.minZero)
               else
                 s.(ones := s.ones + 1, minOne := if s.minOne.None? || v < w[s.minOne.value] then Some(i) else s.minOne)
  {
    assert w[..i + 1][..i] == w[..i];
  }

  class FecBDecoder {
    const bits: array<real>
    var cursor: int
    var state: Phase
    var alphaPhase: bool
    var errorCount: int
    var figsShift: bool
    var lastChar: int
    var out: string

    // The state as a value.
    function Abs(): Dec
      reads this, bits
    {
      Dec(bits[..], cursor, state, alphaPhase, errorCount, figsShift, lastChar, out)
    }

    ghost predicate Valid()
      reads this, bits
    {
      bits.Length == BUFFER && Inv(Abs())
    }

    constructor ()
      ensures Valid() && fresh(bits) && Abs() == Initial()
    {
      bits := new real[BUFFER](_ => 0.0);
      cursor, state, alphaPhase := 0, SyncSetup, true;
      errorCount, figsShift, lastChar, out := 0, false, 0, "";
      new;
      assert bits[..] == seq(BUFFER, _ => 0.0);
      InitialOk();
    }

    method ReadWindow(pos: int) returns (w: seq<real>)
      requires 0 <= pos <= bits.Length - 7
      ensures w == Window(bits[..], pos)
    {
      w := [];
      for i := 0 to 7
        invariant w == bits[pos..pos + i]
      {
        w := w + [bits[pos + i]];
      }
    }

    method PutWindow(pos: int, w: seq<real>)
      requires 0 <= pos <= bits.Length - 7 && |w| == 7
      modifies bits
      ensures bits[..] == WriteWindow(old(bits[..]), pos, w)
    {
      ghost var before := bits[..];
      for i := 0 to 7
        invariant bits[..] == before[..pos] + w[..i] + before[pos + i..]
      {
        bits[pos + i] := w[i];
      }
    }

    method ReadCode(pos: int) returns (code: nat)
      requires 0 <= pos <= bits.Length - 7
      ensures code == CodeAt(bits[..], pos)
    {
      var w := ReadWindow(pos);
      code := CodeFromSoft(w);
    }

    method ValidCharAt(pos: int) returns (valid: bool)
      requires 0 <= pos <= bits.Length - 7
      ensures valid <==> Marks(Window(bits[..], pos)) == 4
    {
      ghost var w := Window(bits[..], pos);
      var count := 0;
      for i := 0 to 7
        invariant count == Marks(w[..i])
      {
        assert w[..i + 1][..i] == w[..i];
        if bits[pos + i] > 0.0 {
          count := count + 1;
        }
      }
      assert w[..7] == w;
      valid := count == 4;
    }

    // Score one offset.
    method TallyOffset(offset: int) returns (score: int, reps: int)
      requires bits.Length == BUFFER && LEAD <= offset
      ensures (score, reps) == Tally(bits[..], offset, 0, 0)
    {
      hide Marks, CodeAt;
      score, reps := 0, 0;
      var i := offset;
      while i < BUFFER - 7
        invariant i >= LEAD && Tally(bits[..], i, score, reps) == Tally(bits[..], offset, 0, 0)
      {
        var valid := ValidCharAt(i);
        if valid {
          var code := ReadCode(i);
          var rep := ReadCode(i - LEAD);
          score := score + 1;
          if code == rep {
            if code == ALPHA || code == REP {
              score := 0;
              i := i + 7;
              continue;
            }
            reps := reps + 1;
          } else if code == ALPHA {
            var rep2 := ReadCode(i - 7);
            if rep2 == REP {
              reps := reps + 1;
            }
          }
        }
        i := i + 7;
      }
    }

    method FindAlphaCharacters() returns (r: int)
      requires bits.Length == BUFFER
      ensures r == FindAlpha(bits[..])
    {
      hide Tally, FindAlpha, BestOffset;
      ghost var first: nat :| first == LEAD;
      FindAlphaIs(bits[..], first);
      var bestOffset, bestScore := 0, 0;
      for offset := LEAD to LEAD + 14
        invariant bestScore >= 0 && (bestScore > 0 ==> LEAD <= bestOffset < LEAD + 14)
        invariant BestOffset(bits[..], offset, (bestOffset, bestScore)) == BestOffset(bits[..], first, (0, 0))
      {
        var score, reps := TallyOffset(offset);
        BestStep(bits[..], offset, (bestOffset, bestScore));
        if reps >= 3 && score + reps > bestScore {
          bestScore := score + reps;
          bestOffset := offset;
        }
      }
      BestEnd(bits[..], LEAD + 14, (bestOffset, bestScore));
      r := if bestScore > 8 then bestOffset else -1;
    }

    method ProcessOne(code: nat)
      requires code < 128
      modifies this
      ensures Abs() == ProcessChar(old(Abs()), code)
    {
      hide Table;
      if code == REP {
        if lastChar == REP {
          alphaPhase := false;
        }
      } else if code == ALPHA || code == BETA || code == CHAR32 {
      } else if code == LTRS {
        figsShift := false;
      } else if code == FIGS {
        figsShift := true;
      } else {
        var c := Table(figsShift, code);
        if c != UNUSED {
          FilterPrint(c);
        }
      }
      assert out == old(out) + CodePrints(code, old(figsShift)).0;
      lastChar := code;
    }

    method FilterPrint(c: char)
      modifies `out
      ensures out == old(out) + Filter(c)
    {
      if c == BELL {
        out := out + [QUOTE];
      } else if c != '\r' && c != ALPHA as char && c != REP as char {
        out := out + [c];
      }
    }

    method ProcessCodeword() returns (ret: int)
      requires bits.Length == BUFFER && 0 <= cursor <= BUFFER - 7
      modifies this, bits
      ensures (Abs(), ret) == ProcessBytes(old(Abs()), old(cursor))
    {
      hide CheckBits, CodeOf, ProcessChar, FlipCopies;
      SevenBits(7);
      var code := ReadCode(cursor);
      if CheckBits(code) {
        ProcessOne(code);
        return 1;
      }
      var reppos := cursor - LEAD;
      if reppos < 0 {
        return -1;
      }
      var rep := ReadCode(reppos);
      if CheckBits(rep) {
        if rep == REP {
          return 0;
        }
        ProcessOne(rep);
        return 1;
      }
      var w := ReadWindow(cursor);
      var r := ReadWindow(reppos);
      var avg := Plus(w, r);
      var guess := CodeFromSoft(avg);
      if CheckBits(guess) {
        ProcessOne(guess);
        return -1;
      }
      ret := FlipLadder(avg);
    }

    method FlipLadder(avg: seq<real>) returns (ret: int)
      requires bits.Length == BUFFER && LEAD <= cursor <= BUFFER - 7 && |avg| == 7
      modifies this, bits
      ensures (Abs(), ret) == FlipCopies(old(Abs()), old(cursor), avg)
    {
      hide CheckBits, CodeOf, ProcessChar, Flip, WriteWindow;
      SevenBits(7);
      var reppos := cursor - LEAD;
      var w := ReadWindow(cursor);
      var alpha := FlipSmallestBit(w);
      var guess := CodeFromSoft(alpha);
      PutWindow(cursor, alpha);
      if CheckBits(guess) {
        ProcessOne(guess);
        return -1;
      }
      w := ReadWindow(reppos);
      var rep := FlipSmallestBit(w);
      guess := CodeFromSoft(rep);
      PutWindow(reppos, rep);
      if CheckBits(guess) {
        ProcessOne(guess);
        return -1;
      }
      var both := FlipSmallestBit(avg);
      guess := CodeFromSoft(both);
      if CheckBits(guess) {
        ProcessOne(guess);
        return -1;
      }
      return -2;
    }

    method PushBit(acc: real)
      requires bits.Length == BUFFER
      modifies bits
      ensures bits[..] == old(bits[..])[1..] + [acc]
    {
      ghost var before := bits[..];
      for i := 0 to BUFFER - 1
        invariant forall k {:trigger bits[k]} :: 0 <= k < BUFFER ==>
                    bits[k] == if k < i then before[k + 1] else before[k]
      {
        bits[i] := bits[i + 1];
      }
      bits[BUFFER - 1] := acc;
      assert bits[..] == before[1..] + [acc];
    }

    // Look for a lock when there is none; losing one has cleared the error count and the shift.
    method Relock()
      requires bits.Length == BUFFER
      modifies this
      ensures Abs() == Acquire(old(Abs()))
    {
      hide FindAlpha;
      if state == SyncSetup {
        errorCount := 0;
        figsShift := false;
        state := Sync;
      }
      if state == Sync {
        var offset := FindAlphaCharacters();
        if offset >= 0 {
          state := ReadData;
          cursor := offset;
          alphaPhase := true;
        } else {
          state := SyncSetup;
        }
      }
    }

    method StepCodeword()
      requires bits.Length == BUFFER && 0 <= cursor < BUFFER - 7
      modifies this, bits
      ensures Abs() == CodewordStep(old(Abs()))
    {
      hide ProcessBytes;
      if alphaPhase {
        KeepsCursor(Abs(), cursor);
        var ret := ProcessCodeword();
        errorCount := errorCount - ret;
        if errorCount > 5 {
          state := SyncSetup;
        }
        if errorCount < 0 {
          errorCount := 0;
        }
      }
      alphaPhase := !alphaPhase;
      cursor := cursor + 7;
    }

    // Feed one soft bit; returns the characters decoded as a result.
    method FeedBit(soft: real) returns (text: string)
      requires Valid()
      modifies this, bits
      ensures Valid() && Abs() == Feed(old(Abs()), soft)
      ensures out == old(out) + text
    {
      hide CodewordStep, Acquire, FindAlpha;
      FeedKeeps(Abs(), soft);
      FeedOnlyAdds(Abs(), soft);
      var start := |out|;
      PushBit(soft);
      if cursor > 0 {
        cursor := cursor - 1;
      }
      AcquireCursor(Abs());
      Relock();
      if state == ReadData && cursor < BUFFER - 7 {
        StepCodeword();
      }
      text := out[start..];
    }

    // Hand over everything decoded so far.
    method Take() returns (text: string)
      modifies `out
      ensures text == old(out) && out == ""
    {
      text := out;
      out := "";
    }
  }

  lemma {:induction false} FindAlphaIs(bits: seq<real>, first: nat)
    requires |bits| == BUFFER && first == LEAD
    ensures var (offset, score) := BestOffset(bits, first, (0, 0));
            FindAlpha(bits) == if score > 8 then offset else -1
  {
    hide BestOffset;
  }

  lemma {:induction false} BestStep(bits: seq<real>, offset: int, best: (int, int))
    requires |bits| == BUFFER && LEAD <= offset < LEAD + 14
    requires best.1 >= 0 && (best.1 > 0 ==> LEAD <= best.0 < LEAD + 14)
    ensures var t := Tally(bits, offset, 0, 0);
            BestOffset(bits, offset, best)
            == BestOffset(bits, offset + 1, if t.1 >= 3 && t.0 + t.1 > best.1 then (offset, t.0 + t.1) else best)
  {
    hide *;
    BestUnfold(bits, offset, best, Tally(bits, offset, 0, 0));
  }

  lemma {:induction false} BestUnfold(bits: seq<real>, offset: int, best: (int, int), t: (int, int))
    requires |bits| == BUFFER && LEAD <= offset < LEAD + 14
    requires best.1 >= 0 && (best.1 > 0 ==> LEAD <= best.0 < LEAD + 14)
    requires t == Tally(bits, offset, 0, 0)
    ensures BestOffset(bits, offset, best)
            == BestOffset(bits, offset + 1, if t.1 >= 3 && t.0 + t.1 > best.1 then (offset, t.0 + t.1) else best)
  {
    hide Tally, FindAlpha;
  }

  lemma {:induction false} BestEnd(bits: seq<real>, offset: int, best: (int, int))
    requires |bits| == BUFFER && offset == LEAD + 14
    requires best.1 >= 0 && (best.1 > 0 ==> LEAD <= best.0 < LEAD + 14)
    ensures BestOffset(bits, offset, best) == best
  {
  }

  lemma {:induction false} KeepsCursor(s: Dec, cursor: int)
    requires |s.bits| == BUFFER && 0 <= cursor <= BUFFER - 7
    ensures ProcessBytes(s, cursor).0.cursor == s.cursor
  {
    hide CodeOf, CheckBits, CodePrints, Flip, Plus;
  }

  lemma {:induction false} AcquireCursor(s: Dec)
    requires |s.bits| == BUFFER && 0 <= s.cursor < BUFFER
    ensures |Acquire(s).bits| == BUFFER && 0 <= Acquire(s).cursor < BUFFER
  {
    hide FindAlpha;
  }

  lemma {:induction false} FeedOnlyAdds(s: Dec, x: real)
    requires Inv(s)
    ensures s.out <= Feed(s, x).out
  {
    hide ProcessBytes, FindAlpha;
    var s1 := Acquire(Shift(s, x));
    assert |s1.bits| == BUFFER && s1.out == s.out;
    if s1.state == ReadData && s1.cursor < BUFFER - 7 { BytesOnlyAdd(s1, s1.cursor); }
  }

  lemma {:induction false} BytesOnlyAdd(s: Dec, cursor: int)
    requires |s.bits| == BUFFER && 0 <= cursor <= BUFFER - 7
    ensures s.out <= ProcessBytes(s, cursor).0.out
  {
    hide CodeOf, CheckBits, CodePrints, Flip, Plus;
  }
}
