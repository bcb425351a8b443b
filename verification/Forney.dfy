/**
 The Forney convolutional interleaver pair: one delay line per branch, branches taken in turn.
 */
module Forney {
  import opened Bits

  // The pushed value of `dist` pushes before push t, fill before the start.
  function Delayed<T>(h: seq<T>, t: nat, dist: nat, fill: T): T {
    if dist <= t && t - dist < |h| then h[t - dist] else fill
  }

  // Length of the delay line of branch b: b * delay, or the complement for the de-interleaver.
  function LineLength(rows: nat, delay: nat, forward: bool, b: nat): nat
    requires b < rows
  {
    if forward then Cells(b, delay) else Cells(rows - 1 - b, delay)
  }

  // What push t puts out, given all values pushed.
  function Output<T>(h: seq<T>, rows: nat, delay: nat, forward: bool, fill: T, t: nat): T
    requires rows > 0
  {
    Delayed(h, t, Cells(LineLength(rows, delay, forward, RingPos(t, rows)), rows), fill)
  }

  lemma {:induction false} LengthIsProduct(rows: nat, delay: nat, forward: bool, b: nat)
    requires b < rows
    ensures LineLength(rows, delay, forward, b) == Product(if forward then b else rows - 1 - b, delay)
  {
    CellsIsProduct(b, delay);
    CellsIsProduct(rows - 1 - b, delay);
  }

  // Push t goes to branch t mod rows, whose line moves once in `rows` pushes.
  function PushDelay(rows: nat, delay: nat, forward: bool, t: nat): nat
    requires rows > 0
  {
    var b := t % rows;
    Product(if forward then b else rows - 1 - b, delay) * rows
  }

  function Product(a: nat, b: nat): nat {
    a * b
  }

  lemma {:induction false} OutputIsDelay<T>(h: seq<T>, rows: nat, delay: nat, forward: bool, fill: T, t: nat)
    requires rows > 0
    ensures Output(h, rows, delay, forward, fill, t) == Delayed(h, t, PushDelay(rows, delay, forward, t), fill)
  {
    hide Delayed;
    var b := RingPos(t, rows);
    RingPosIsMod(t, rows);
    LengthIsProduct(rows, delay, forward, b);
    CellsIsProduct(LineLength(rows, delay, forward, b), rows);
  }

  // The next push at or after t that goes to branch b, when push t goes to branch `branch`.
  function NextPush(t: nat, branch: nat, rows: nat, b: nat): nat
    requires branch < rows && b < rows
  {
    if b >= branch then t + (b - branch) else t + rows - (branch - b)
  }

  /** Interleaver and de-interleaver differ only in the lengths of their lines. */
  class DelayLines<T> {
    const rows: nat
    const delay: nat
    const forward: bool
    const fill: T
    var lines: seq<seq<T>>
    var branch: nat
    ghost var history: seq<T>

    ghost predicate Valid()
      reads this
    {
      && rows > 0 && |lines| == rows && branch == RingPos(|history|, rows)
      && forall b :: 0 <= b < rows ==> LineOk(b, lines[b], history, branch)
    }

    // The i-th element waiting in branch b is what the i-th next push to that branch puts out.
    ghost predicate LineOk(b: nat, line: seq<T>, h: seq<T>, branch: nat)
      requires b < rows && branch < rows
    {
      var len := LineLength(rows, delay, forward, b);
      && |line| == len
      && forall i :: 0 <= i < len ==>
           line[i] == Delayed(h, NextPush(|h|, branch, rows, b) + Cells(i, rows), Cells(len, rows), fill)
    }

    constructor (rows: nat, delay: nat, forward: bool, fill: T)
      requires rows >= 1
      ensures Valid() && history == []
      ensures |lines| == rows
      ensures forall b :: 0 <= b < rows ==>
                lines[b] == seq(Product(if forward then b else rows - 1 - b, delay), _ => fill)
      ensures this.rows == rows && this.delay == delay && this.forward == forward && this.fill == fill
    {
      this.rows, this.delay, this.forward, this.fill := rows, delay, forward, fill;
      lines := seq(rows, b requires 0 <= b < rows => seq(LineLength(rows, delay, forward, b), _ => fill));
      branch := 0;
      history := [];
      new;
      hide Product, LineLength, Cells;
      forall b | 0 <= b < rows
        ensures lines[b] == seq(Product(if forward then b else rows - 1 - b, delay), _ => fill)
      {
        LengthIsProduct(rows, delay, forward, b);
      }
    }

    // Push one value through the current branch.
    method Push(x: T) returns (out: T)
      requires Valid()
      modifies this
      ensures Valid() && history == old(history) + [x]
      ensures out == Output(history, rows, delay, forward, fill, |history| - 1)
      ensures out == Delayed(history, |old(history)|, PushDelay(rows, delay, forward, |old(history)|), fill)
    {
      hide Cells, Delayed, LineLength, NextPush, PushDelay;
      OutputIsDelay(history + [x], rows, delay, forward, fill, |history|);
      var b := branch;
      ghost var h := history;
      ghost var before := lines;
      var line := lines[b] + [x];
      out := line[0];
      PushedLine(b, lines[b], h, x);
      forall a | 0 <= a < rows && a != b
        ensures LineOk(a, lines[a], h + [x], if b + 1 == rows then 0 else b + 1)
      {
        OtherLine(a, lines[a], h, x, b);
      }
      lines := lines[b := line[1..]];
      branch := RingForward(branch, rows);
      history := h + [x];
    }

    lemma {:induction false} PushedLine(b: nat, line: seq<T>, h: seq<T>, x: T)
      requires b < rows && LineOk(b, line, h, b)
      ensures LineOk(b, (line + [x])[1..], h + [x], if b + 1 == rows then 0 else b + 1)
      ensures (line + [x])[0] == Delayed(h + [x], |h|, Cells(LineLength(rows, delay, forward, b), rows), fill)
    {
      hide Cells, Delayed, LineLength;
      var len := LineLength(rows, delay, forward, b);
      var next := (line + [x])[1..];
      FirstElement(b, line, h, x);
      assert |next| == len;
      forall i | 0 <= i < len
        ensures next[i] == Delayed(h + [x], |h| + rows + Cells(i, rows), Cells(len, rows), fill)
      {
        NextElement(b, line, h, x, i);
      }
    }

    lemma {:induction false} FirstElement(b: nat, line: seq<T>, h: seq<T>, x: T)
      requires b < rows && LineOk(b, line, h, b)
      ensures (line + [x])[0] == Delayed(h + [x], |h|, Cells(|line|, rows), fill)
    {
      if line != [] {
        CellsMonotone(1, |line|, rows);
        assert line[0] == Delayed(h, |h| + Cells(0, rows), Cells(|line|, rows), fill);
      }
    }

    lemma {:induction false} NextElement(b: nat, line: seq<T>, h: seq<T>, x: T, i: nat)
      requires b < rows && LineOk(b, line, h, b) && i < |line|
      ensures (line + [x])[1..][i] == Delayed(h + [x], |h| + rows + Cells(i, rows), Cells(|line|, rows), fill)
    {
      var len := |line|;
      if i + 1 < len {
        CellsMonotone(i + 2, len, rows);
        assert (line + [x])[1..][i] == line[i + 1];
        assert line[i + 1] == Delayed(h, |h| + Cells(i + 1, rows), Cells(len, rows), fill);
      } else {
        assert (line + [x])[1..][i] == x;
      }
    }

    lemma {:induction false} OtherLine(a: nat, line: seq<T>, h: seq<T>, x: T, b: nat)
      requires a < rows && b < rows && a != b && LineOk(a, line, h, b)
      ensures LineOk(a, line, h + [x], if b + 1 == rows then 0 else b + 1)
    {
      var b' := if b + 1 == rows then 0 else b + 1;
      assert NextPush(|h| + 1, b', rows, a) == NextPush(|h|, b, rows, a);
      var len := LineLength(rows, delay, forward, a);
      forall i | 0 <= i < len
        ensures NextPush(|h|, b, rows, a) + Cells(i, rows) < |h| + Cells(len, rows)
      {
        CellsMonotone(i + 1, len, rows);
      }
    }
  }

  // --- the pair ---

  function Outputs<T>(h: seq<T>, rows: nat, delay: nat, forward: bool, fill: T): (r: seq<T>)
    requires rows > 0
    ensures |r| == |h|
  {
    seq(|h|, t requires 0 <= t < |h| => Output(h, rows, delay, forward, fill, t))
  }

  // Whole rounds do not change the branch.
  lemma {:induction false} SameBranch(t: nat, k: nat, rows: nat)
    requires rows > 0
    ensures RingPos(t + Cells(k, rows), rows) == RingPos(t, rows)
  {
    if k > 0 {
      SameBranch(t, k - 1, rows);
      OneRound(t + Cells(k - 1, rows), rows);
    }
  }

  lemma {:induction false} OneRound(t: nat, rows: nat)
    requires rows > 0
    ensures RingPos(t + rows, rows) == RingPos(t, rows)
  {
    if t == 0 { CountUp(rows, rows); } else { OneRound(t - 1, rows); }
  }

  lemma {:induction false} CountUp(t: nat, rows: nat)
    requires t <= rows && rows > 0
    ensures RingPos(t, rows) == if t == rows then 0 else t
  {
    if t > 0 { CountUp(t - 1, rows); }
  }

  // De-interleaver after interleaver: the input, rows * (rows - 1) * delay pushes late.
  lemma {:induction false} RoundTrip<T>(h: seq<T>, rows: nat, delay: nat, fill: T, t: nat)
    requires rows > 0 && t < |h|
    ensures Output(Outputs(h, rows, delay, true, fill), rows, delay, false, fill, t)
            == Delayed(h, t, Cells(Cells(rows - 1, delay), rows), fill)
  {
    var b := RingPos(t, rows);
    var l1, l2 := LineLength(rows, delay, true, b), LineLength(rows, delay, false, b);
    CellsAdd(b, rows - 1 - b, delay);
    CellsAdd(l1, l2, rows);
    var d2 := Cells(l2, rows);
    if d2 <= t {
      SameBranch(t - d2, l2, rows);
      assert Outputs(h, rows, delay, true, fill)[t - d2] == Output(h, rows, delay, true, fill, t - d2);
    }
  }

  // The latency in numbers.
  lemma {:induction false} Latency(rows: nat, delay: nat)
    requires rows > 0
    ensures Cells(Cells(rows - 1, delay), rows) == rows * (rows - 1) * delay
  {
    CellsIsProduct(rows - 1, delay);
    var x := (rows - 1) * delay;
    CellsIsProduct(x, rows);
    assert x * rows == rows * x;
    assert rows * x == rows * (rows - 1) * delay;
  }

  // What is put out does not depend on later pushes.
  lemma {:induction false} OutputsGrow<T>(h: seq<T>, x: T, rows: nat, delay: nat, forward: bool, fill: T)
    requires rows > 0
    ensures Outputs(h + [x], rows, delay, forward, fill)
            == Outputs(h, rows, delay, forward, fill) + [Output(h + [x], rows, delay, forward, fill, |h|)]
  {
    hide Cells, RingPos, LineLength;
  }

  // A sender and a receiver of one shape, the receiver fed with all the sender has put out.
  ghost predicate Paired<T>(tx: DelayLines<T>, rx: DelayLines<T>)
    reads tx, rx
  {
    && tx != rx && tx.Valid() && rx.Valid()
    && tx.rows == rx.rows && tx.delay == rx.delay && tx.fill == rx.fill && tx.forward && !rx.forward
    && rx.history == Outputs(tx.history, tx.rows, tx.delay, true, tx.fill)
  }

  // One value through both: it comes out rows * (rows - 1) * delay pushes late.
  method Relay<T>(tx: DelayLines<T>, rx: DelayLines<T>, x: T) returns (y: T)
    requires Paired(tx, rx)
    modifies tx, rx
    ensures Paired(tx, rx) && tx.history == old(tx.history) + [x]
    ensures y == Delayed(tx.history, |old(tx.history)|, tx.rows * (tx.rows - 1) * tx.delay, tx.fill)
  {
    hide Output, Outputs, Delayed;
    ghost var h := tx.history;
    OutputsGrow(h, x, tx.rows, tx.delay, true, tx.fill);
    y := tx.Push(x);
    y := rx.Push(y);
    RoundTrip(h + [x], tx.rows, tx.delay, tx.fill, |h|);
    Latency(tx.rows, tx.delay);
  }
}
