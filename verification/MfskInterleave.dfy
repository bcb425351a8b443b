/**
 The MFSK diagonal interleaver, a cascade of `depth` square blocks of delay cells worked in
 place, its two-row special case, and the exact delay each row gets.
 */
module MfskInterleave {
  import opened Bits

  // Columns pushed so far, oldest first.
  type Columns<T> = seq<seq<T>>

  // Row i of the column pushed at time t; before the start there is only fill.
  function At<T>(h: Columns<T>, i: nat, t: int, fill: T): T {
    if 0 <= t < |h| && i < |h[t]| then h[t][i] else fill
  }

  // Calls by which one block delays row i.
  function RowDelay(size: nat, fwd: bool, i: nat): nat
    requires i < size
  {
    if fwd then i else size - 1 - i
  }

  // What an interleaver of this shape puts out in row i at time t.
  function Output<T>(h: Columns<T>, size: nat, depth: nat, fwd: bool, fill: T, i: nat, t: int): T
    requires i < size
  {
    At(h, i, t - Cells(depth, RowDelay(size, fwd, i)), fill)
  }

  lemma {:induction false} DelayIsProduct(size: nat, depth: nat, fwd: bool, i: nat)
    requires i < size
    ensures Cells(depth, RowDelay(size, fwd, i)) == if fwd then i * depth else (size - 1 - i) * depth
  {
    CellsIsProduct(depth, RowDelay(size, fwd, i));
    assert depth * i == i * depth && depth * (size - 1 - i) == (size - 1 - i) * depth;
  }

  // A later column does not change the past.
  lemma {:induction false} AtGrows<T>(h: Columns<T>, c: seq<T>, i: nat, t: int, fill: T)
    requires t < |h|
    ensures At(h + [c], i, t, fill) == At(h, i, t, fill)
  {
  }

  // The column read out is one more delay back.
  lemma {:induction false} ReadIndex(k: nat, size: nat, fwd: bool, i: nat)
    requires i < size
    ensures Cells(k + 1, RowDelay(size, fwd, i))
            == Cells(k, RowDelay(size, fwd, i)) + size - 1 - (if fwd then size - i - 1 else i)
  {
  }

  class MfskInterleaver<T> {
    const size: nat
    const depth: nat
    const fwd: bool
    const table: array3<T> // [k, i, j]: block, row, column
    ghost const fill: T
    ghost var history: Columns<T>

    ghost predicate Valid()
      reads this, table
    {
      && table.Length0 == depth && table.Length1 == table.Length2 == size
      && forall k :: 0 <= k < depth ==> BlockOk(k, history)
    }

    // Column j of block k holds, delayed by k blocks, the input of size-1-j calls ago.
    ghost predicate BlockOk(k: nat, h: Columns<T>)
      requires k < table.Length0 && table.Length1 == table.Length2 == size
      reads table
    {
      forall i, j :: 0 <= i < size && 0 <= j < size ==>
        table[k, i, j] == At(h, i, |h| - size + j - Cells(k, RowDelay(size, fwd, i)), fill)
    }

    constructor (size: nat, depth: nat, fwd: bool, fill: T)
      ensures Valid() && fresh(table) && history == []
      ensures this.size == size && this.depth == depth && this.fwd == fwd && this.fill == fill
    {
      this.size, this.depth, this.fwd, this.fill := size, depth, fwd, fill;
      table := new T[depth, size, size]((k, i, j) => fill);
      history := [];
    }

    // Shift every row of block k left by one column.
    method ShiftBlock(k: nat)
      requires k < table.Length0 && table.Length1 == table.Length2 == size
      modifies table
      ensures forall i, j :: 0 <= i < size && 0 <= j < size - 1 ==> table[k, i, j] == old(table[k, i, j + 1])
      ensures forall a, i, j :: 0 <= a < table.Length0 && a != k && 0 <= i < size && 0 <= j < size ==>
                table[a, i, j] == old(table[a, i, j])
    {
      for i := 0 to size
        invariant forall r, j :: 0 <= r < i && 0 <= j < size - 1 ==> table[k, r, j] == old(table[k, r, j + 1])
        invariant forall r, j :: i <= r < size && 0 <= j < size ==> table[k, r, j] == old(table[k, r, j])
        invariant forall a, r, j :: 0 <= a < table.Length0 && a != k && 0 <= r < size && 0 <= j < size ==>
                    table[a, r, j] == old(table[a, r, j])
      {
        for j := 0 to size - 1
          invariant forall c :: 0 <= c < j ==> table[k, i, c] == old(table[k, i, c + 1])
          invariant forall c :: j <= c < size ==> table[k, i, c] == old(table[k, i, c])
          invariant forall r, c :: 0 <= r < i && 0 <= c < size - 1 ==> table[k, r, c] == old(table[k, r, c + 1])
          invariant forall r, c :: i < r < size && 0 <= c < size ==> table[k, r, c] == old(table[k, r, c])
          invariant forall a, r, c :: 0 <= a < table.Length0 && a != k && 0 <= r < size && 0 <= c < size ==>
                      table[a, r, c] == old(table[a, r, c])
        {
          table[k, i, j] := table[k, i, j + 1];
        }
      }
    }

    // Enter psyms as the last column of block k.
    method InsertColumn(k: nat, psyms: array<T>)
      requires k < table.Length0 && table.Length1 == table.Length2 == size == psyms.Length
      modifies table
      ensures forall i :: 0 <= i < size ==> table[k, i, size - 1] == psyms[i]
      ensures forall a, i, j :: 0 <= a < table.Length0 && 0 <= i < size && 0 <= j < size ==>
                (a != k || j != size - 1) ==> table[a, i, j] == old(table[a, i, j])
    {
      for i := 0 to size
        invariant forall r :: 0 <= r < i ==> table[k, r, size - 1] == psyms[r]
        invariant forall a, r, j :: 0 <= a < table.Length0 && 0 <= r < size && 0 <= j < size ==>
                    (a != k || j != size - 1) ==> table[a, r, j] == old(table[a, r, j])
      {
        table[k, i, size - 1] := psyms[i];
      }
    }

    // Read the anti-diagonal (forward) or the main diagonal (reverse) of block k.
    method ReadOut(k: nat, psyms: array<T>)
      requires k < table.Length0 && table.Length1 == table.Length2 == size == psyms.Length
      modifies psyms
      ensures forall i :: 0 <= i < size ==> psyms[i] == table[k, i, if fwd then size - i - 1 else i]
    {
      for i := 0 to size
        invariant forall r :: 0 <= r < i ==> psyms[r] == table[k, r, if fwd then size - r - 1 else r]
      {
        var col := if fwd then size - i - 1 else i;
        psyms[i] := table[k, i, col];
      }
    }

    // Row i holds what k blocks have made of column c.
    ghost predicate Entering(psyms: array<T>, k: nat, h: Columns<T>, c: seq<T>)
      requires psyms.Length == size
      reads psyms
    {
      forall i :: 0 <= i < size ==> psyms[i] == At(h + [c], i, |h| - Cells(k, RowDelay(size, fwd, i)), fill)
    }

    method Block(k: nat, psyms: array<T>, ghost h: Columns<T>, ghost c: seq<T>)
      requires k < table.Length0 && table.Length1 == table.Length2 == size == psyms.Length && |c| == size
      requires BlockOk(k, h) && Entering(psyms, k, h, c)
      modifies table, psyms
      ensures BlockOk(k, h + [c]) && Entering(psyms, k + 1, h, c)
      ensures forall a :: 0 <= a < table.Length0 && a != k && old(BlockOk(a, h)) ==> BlockOk(a, h)
      ensures forall a :: 0 <= a < table.Length0 && a != k && old(BlockOk(a, h + [c])) ==> BlockOk(a, h + [c])
    {
      hide At, Cells, RowDelay;
      ShiftBlock(k);
      InsertColumn(k, psyms);
      assert BlockOk(k, h + [c]) by {
        forall i, j | 0 <= i < size && 0 <= j < size
          ensures table[k, i, j] == At(h + [c], i, |h| + 1 - size + j - Cells(k, RowDelay(size, fwd, i)), fill)
        {
          if j < size - 1 { AtGrows(h, c, i, |h| + 1 - size + j - Cells(k, RowDelay(size, fwd, i)), fill); }
        }
      }
      ReadOut(k, psyms);
      forall i | 0 <= i < size { ReadIndex(k, size, fwd, i); }
    }

    // Interleave one column in place: row i comes out depth * RowDelay(i) calls late.
    method Symbols(psyms: array<T>)
      requires Valid() && psyms.Length == size
      modifies this, table, psyms
      ensures Valid() && history == old(history) + [old(psyms[..])]
      ensures forall i :: 0 <= i < size ==> psyms[i] == Output(history, size, depth, fwd, fill, i, |history| - 1)
      ensures forall i :: 0 <= i < size ==>
                psyms[i] == At(history, i, |old(history)| - (if fwd then i * depth else (size - 1 - i) * depth), fill)
    {
      ghost var h, c := history, psyms[..];
      for k := 0 to depth
        invariant Entering(psyms, k, h, c)
        invariant forall a :: 0 <= a < k ==> BlockOk(a, h + [c])
        invariant forall a :: k <= a < depth ==> BlockOk(a, h)
      {
        Block(k, psyms, h, c);
      }
      history := h + [c];
      forall i | 0 <= i < size { DelayIsProduct(size, depth, fwd, i); }
    }
  }

  // --- the two-row special case ---

  class DiagInterleaver<T> {
    const depth: nat
    const fwd: bool
    const table: array2<T> // [k, c]: block, cell 2*row + column
    ghost const fill: T
    ghost var history: Columns<T>

    ghost predicate Valid()
      reads this, table
    {
      && table.Length0 == depth && table.Length1 == 4
      && forall k :: 0 <= k < depth ==> BlockOk(k, history)
    }

    ghost predicate BlockOk(k: nat, h: Columns<T>)
      requires k < table.Length0 && table.Length1 == 4
      reads table
    {
      && table[k, 0] == At(h, 0, |h| - 2 - Cells(k, RowDelay(2, fwd, 0)), fill)
      && table[k, 1] == At(h, 0, |h| - 1 - Cells(k, RowDelay(2, fwd, 0)), fill)
      && table[k, 2] == At(h, 1, |h| - 2 - Cells(k, RowDelay(2, fwd, 1)), fill)
      && table[k, 3] == At(h, 1, |h| - 1 - Cells(k, RowDelay(2, fwd, 1)), fill)
    }

    constructor (depth: nat, fwd: bool, fill: T)
      ensures Valid() && fresh(table) && history == []
      ensures this.depth == depth && this.fwd == fwd && this.fill == fill
    {
      this.depth, this.fwd, this.fill := depth, fwd, fill;
      table := new T[depth, 4]((k, c) => fill);
      history := [];
    }

    ghost predicate Entering(psyms: array<T>, k: nat, h: Columns<T>, c: seq<T>)
      requires psyms.Length == 2
      reads psyms
    {
      && psyms[0] == At(h + [c], 0, |h| - Cells(k, RowDelay(2, fwd, 0)), fill)
      && psyms[1] == At(h + [c], 1, |h| - Cells(k, RowDelay(2, fwd, 1)), fill)
    }

    method Symbols(psyms: array<T>)
      requires Valid() && psyms.Length == 2
      modifies this, table, psyms
      ensures Valid() && history == old(history) + [old(psyms[..])]
      ensures forall i :: 0 <= i < 2 ==> psyms[i] == Output(history, 2, depth, fwd, fill, i, |history| - 1)
      ensures psyms[0] == At(history, 0, |old(history)| - (if fwd then 0 else depth), fill)
      ensures psyms[1] == At(history, 1, |old(history)| - (if fwd then depth else 0), fill)
    {
      ghost var h, c := history, psyms[..];
      for k := 0 to depth
        invariant Entering(psyms, k, h, c)
        invariant forall a :: 0 <= a < k ==> BlockOk(a, h + [c])
        invariant forall a :: k <= a < depth ==> BlockOk(a, h)
      {
        Block(k, psyms, h, c);
      }
      history := h + [c];
      DelayIsProduct(2, depth, fwd, 0);
      DelayIsProduct(2, depth, fwd, 1);
    }

    method Block(k: nat, psyms: array<T>, ghost h: Columns<T>, ghost c: seq<T>)
      requires k < table.Length0 && table.Length1 == 4 && psyms.Length == 2 && |c| == 2
      requires BlockOk(k, h) && Entering(psyms, k, h, c)
      modifies table, psyms
      ensures BlockOk(k, h + [c]) && Entering(psyms, k + 1, h, c)
      ensures forall a :: 0 <= a < table.Length0 && a != k && old(BlockOk(a, h)) ==> BlockOk(a, h)
      ensures forall a :: 0 <= a < table.Length0 && a != k && old(BlockOk(a, h + [c])) ==> BlockOk(a, h + [c])
    {
      table[k, 0] := table[k, 1];
      table[k, 2] := table[k, 3];
      table[k, 1] := psyms[0];
      table[k, 3] := psyms[1];
      if fwd {
        psyms[0] := table[k, 1];
        psyms[1] := table[k, 2];
      } else {
        psyms[0] := table[k, 0];
        psyms[1] := table[k, 3];
      }
    }
  }

  // At size 2 the general interleaver and the special one agree call by call: fed the same
  // pair after equal histories they put out the same pair and end with equal histories.
  method Lockstep<T>(mfsk: MfskInterleaver<T>, diag: DiagInterleaver<T>, a: array<T>, b: array<T>)
    requires mfsk.Valid() && diag.Valid()
    requires mfsk.size == 2 && mfsk.depth == diag.depth && mfsk.fwd == diag.fwd && mfsk.fill == diag.fill
    requires mfsk.history == diag.history
    requires a != b && a.Length == b.Length == 2 && a[..] == b[..]
    modifies mfsk, mfsk.table, diag, diag.table, a, b
    ensures mfsk.Valid() && diag.Valid() && mfsk.history == diag.history
    ensures a[..] == b[..]
  {
    mfsk.Symbols(a);
    diag.Symbols(b);
  }

  // --- forward, then reverse ---

  // All columns an interleaver of this shape puts out for the input h.
  function Outputs<T>(h: Columns<T>, size: nat, depth: nat, fwd: bool, fill: T): (r: Columns<T>)
    ensures |r| == |h| && forall t :: 0 <= t < |r| ==> |r[t]| == size
  {
    seq(|h|, t requires 0 <= t < |h| =>
      seq(size, i requires 0 <= i < size => Output(h, size, depth, fwd, fill, i, t)))
  }

  // What is put out does not depend on later input.
  lemma {:induction false} OutputCausal<T>(h: Columns<T>, h': Columns<T>, size: nat, depth: nat, fwd: bool, fill: T,
                                           i: nat, t: nat)
    requires i < size && t < |h| && h <= h'
    ensures Output(h', size, depth, fwd, fill, i, t) == Output(h, size, depth, fwd, fill, i, t)
  {
  }

  // Every row comes back after (size - 1) * depth calls, fill until then.
  lemma {:induction false} RoundTrip<T>(h: Columns<T>, size: nat, depth: nat, fill: T, i: nat, t: nat)
    requires forall u :: 0 <= u < |h| ==> |h[u]| == size
    requires i < size && t < |h|
    ensures Output(Outputs(h, size, depth, true, fill), size, depth, false, fill, i, t)
            == if t < Cells(depth, size - 1) then fill else h[t - Cells(depth, size - 1)][i]
  {
    CellsSplit(depth, i, size - 1 - i);
    var g := Outputs(h, size, depth, true, fill);
    var u := t - Cells(depth, size - 1 - i);
    if u >= 0 {
      assert g[u][i] == Output(h, size, depth, true, fill, i, u);
    }
  }

  lemma {:induction false} OutputsGrow<T>(h: Columns<T>, c: seq<T>, size: nat, depth: nat, fwd: bool, fill: T)
    requires |c| == size
    ensures Outputs(h + [c], size, depth, fwd, fill)
            == Outputs(h, size, depth, fwd, fill)
               + [seq(size, i requires 0 <= i < size => Output(h + [c], size, depth, fwd, fill, i, |h|))]
  {
    hide Output;
    forall t, i | 0 <= t < |h| && 0 <= i < size
      ensures Outputs(h + [c], size, depth, fwd, fill)[t][i] == Outputs(h, size, depth, fwd, fill)[t][i]
    {
      OutputCausal(h, h + [c], size, depth, fwd, fill, i, t);
    }
    forall t | 0 <= t < |h|
      ensures Outputs(h + [c], size, depth, fwd, fill)[t] == Outputs(h, size, depth, fwd, fill)[t]
    {
    }
  }

  // A sender and a receiver of one shape, the receiver fed with all the sender has put out.
  ghost predicate Paired<T>(tx: MfskInterleaver<T>, rx: MfskInterleaver<T>)
    reads tx, tx.table, rx, rx.table
  {
    && tx != rx && tx.table != rx.table && tx.Valid() && rx.Valid()
    && tx.size == rx.size && tx.depth == rx.depth && tx.fill == rx.fill && tx.fwd && !rx.fwd
    && (forall u :: 0 <= u < |tx.history| ==> |tx.history[u]| == tx.size)
    && rx.history == Outputs(tx.history, tx.size, tx.depth, true, tx.fill)
  }

  // One column through both, in place: it comes out as it went in, (size - 1) * depth calls late.
  method Relay<T>(tx: MfskInterleaver<T>, rx: MfskInterleaver<T>, psyms: array<T>)
    requires Paired(tx, rx) && psyms.Length == tx.size
    modifies tx, tx.table, rx, rx.table, psyms
    ensures Paired(tx, rx) && tx.history == old(tx.history) + [old(psyms[..])]
    ensures var t := |old(tx.history)| - (tx.size - 1) * tx.depth;
            forall i :: 0 <= i < tx.size ==> psyms[i] == if t < 0 then tx.fill else tx.history[t][i]
  {
    hide Output, Outputs, MfskInterleaver<T>.BlockOk;
    ghost var h, c, size, depth := tx.history, psyms[..], tx.size, tx.depth;
    OutputsGrow(h, c, size, depth, true, tx.fill);
    tx.Symbols(psyms);
    ghost var sent := psyms[..];
    assert sent == seq(size, i requires 0 <= i < size => Output(h + [c], size, depth, true, tx.fill, i, |h|));
    rx.Symbols(psyms);
    forall i | 0 <= i < size
      ensures psyms[i] == if |h| < Cells(depth, size - 1) then tx.fill else (h + [c])[|h| - Cells(depth, size - 1)][i]
    {
      RoundTrip(h + [c], size, depth, tx.fill, i, |h|);
    }
    if size > 0 {
      CellsIsProduct(depth, size - 1);
      assert depth * (size - 1) == (size - 1) * depth;
    }
  }
}
