/**
 Why keeping one survivor per state is enough: the dynamic-programming argument shared by
 the block decoder and the streaming decoder.
 */
module ConvSurvivors {
  import opened Bits
  import opened ConvSpec
  import opened Conv
  import opened Options

  type Paths = seq<Option<seq<bit>>>

  // After t steps each reachable state holds a best path into it; `off` is what
  // renormalisation has taken off the stored metrics.
  ghost predicate Survivors(code: ConvCode, t: nat, h: Blocks, metric: seq<Metric>, off: real, paths: Paths)
    requires code.Valid() && Sized(h, t, |code.polys|)
  {
    && |metric| == |paths| == code.States()
    && (forall s :: 0 <= s < |paths| ==> Reaches(code, t, h, s, metric[s], off, paths[s]))
    && (forall q: seq<bit> {:trigger NotAbove(code, q, h, metric, off)} ::
          |q| == t ==> NotAbove(code, q, h, metric, off))
  }

  ghost predicate Reaches(code: ConvCode, t: nat, h: Blocks, s: nat, m: Metric, off: real, path: Option<seq<bit>>)
    requires code.Valid() && Sized(h, t, |code.polys|)
  {
    && (m.Fin? <==> path.Some?)
    && (path.Some? ==>
          && |path.value| == t
          && StateOf(code, path.value) == s
          && PathMetric(code.polys, path.value, h) == m.v + off)
  }

  ghost predicate NotAbove(code: ConvCode, q: seq<bit>, h: Blocks, metric: seq<Metric>, off: real)
    requires code.Valid() && Sized(h, |q|, |code.polys|) && |metric| == code.States()
  {
    var m := metric[StateOf(code, q)];
    m.Fin? && PathMetric(code.polys, q, h) <= m.v + off
  }

  ghost predicate Linked(before: Paths, after: Paths, bits: seq<bit>, prevs: seq<nat>) {
    && |before| == |after| == |bits| == |prevs|
    && forall ns :: 0 <= ns < |after| && after[ns].Some? ==>
         && prevs[ns] < |before|
         && before[prevs[ns]].Some?
         && after[ns].value == before[prevs[ns]].value + [bits[ns]]
  }

  ghost function Extend(paths: Paths, next: seq<Metric>, bits: seq<bit>, prevs: seq<nat>): (r: Paths)
    requires |paths| == |next| == |bits| == |prevs|
    requires forall ns :: 0 <= ns < |next| && next[ns].Fin? ==> prevs[ns] < |paths| && paths[prevs[ns]].Some?
    ensures |r| == |paths| && Linked(paths, r, bits, prevs)
  {
    seq(|paths|, ns requires 0 <= ns < |paths| =>
      if next[ns].Fin? then Some(paths[prevs[ns]].value + [bits[ns]]) else None)
  }

  lemma {:induction false} SurvivorsStart(code: ConvCode, metric: seq<Metric>, paths: Paths)
    requires code.Valid()
    requires metric == seq(code.States(), s => if s == 0 then Fin(0.0) else NegInf)
    requires paths == seq(code.States(), s => if s == 0 then Some([]) else None)
    ensures Survivors(code, 0, [], metric, 0.0, paths)
  {
    EmptyPath(code);
    forall q: seq<bit> | |q| == 0
      ensures NotAbove(code, q, [], metric, 0.0)
    {
      assert q == [];
    }
  }

  lemma {:induction false} EmptyPath(code: ConvCode)
    requires code.Valid()
    ensures StateOf(code, []) == 0 && PathMetric(code.polys, [], []) == 0.0
  {
    LowBound(0, code.k - 1);
  }

  // The principle of optimality: a best path into a state extends a best path.
  lemma {:induction false} SurvivorsStep(code: ConvCode, t: nat, h: Blocks, l: seq<real>, metric: seq<Metric>,
                                         off: real, paths: Paths,
                                         next: seq<Metric>, bits: seq<bit>, prevs: seq<nat>)
    returns (paths': Paths)
    requires code.Valid() && Sized(h, t, |code.polys|) && |l| == |code.polys|
    requires Survivors(code, t, h, metric, off, paths)
    requires |next| == |bits| == |prevs| == code.States()
    requires Selected(code, metric, l, 2 * code.States(), next, bits, prevs)
    ensures Sized(h + [l], t + 1, |code.polys|)
    ensures Survivors(code, t + 1, h + [l], next, off, paths')
    ensures Linked(paths, paths', bits, prevs)
  {
    hide Corr, Low, Symbols, PathMetric;
    forall ns | 0 <= ns < |next| && next[ns].Fin?
      ensures prevs[ns] < |paths| && paths[prevs[ns]].Some?
      ensures Reaches(code, t + 1, h + [l], ns, next[ns], off, Some(paths[prevs[ns]].value + [bits[ns]]))
    {
      ReachCarries(code, t, h, l, metric, off, paths, next, bits, prevs, ns);
    }
    paths' := Extend(paths, next, bits, prevs);
    forall q: seq<bit> | |q| == t + 1
      ensures NotAbove(code, q, h + [l], next, off)
    {
      assert q == q[..t] + [q[t]];
      assert NotAbove(code, q[..t], h, metric, off);
      BoundCarries(code, q[..t], q[t], h, l, metric, off, next, bits, prevs);
    }
  }

  lemma {:induction false} ReachCarries(code: ConvCode, t: nat, h: Blocks, l: seq<real>, metric: seq<Metric>,
                                        off: real, paths: Paths,
                                        next: seq<Metric>, bits: seq<bit>, prevs: seq<nat>, ns: nat)
    requires code.Valid() && Sized(h, t, |code.polys|) && |l| == |code.polys|
    requires |metric| == |paths| == |next| == |bits| == |prevs| == code.States()
    requires forall s :: 0 <= s < |paths| ==> Reaches(code, t, h, s, metric[s], off, paths[s])
    requires ns < code.States() && next[ns].Fin?
    requires Wins(code, metric, l, 2 * code.States(), next[ns].v, ns, prevs[ns], bits[ns])
    ensures Sized(h + [l], t + 1, |code.polys|)
    ensures prevs[ns] < |paths| && paths[prevs[ns]].Some?
    ensures Reaches(code, t + 1, h + [l], ns, next[ns], off, Some(paths[prevs[ns]].value + [bits[ns]]))
  {
    hide Corr, Low, Symbols, PathMetric;
    assert Reaches(code, t, h, prevs[ns], metric[prevs[ns]], off, paths[prevs[ns]]);
    PathIntoState(code, paths[prevs[ns]].value, bits[ns], h, l);
  }

  lemma {:induction false} PathIntoState(code: ConvCode, p: seq<bit>, b: bit, h: Blocks, l: seq<real>)
    requires code.Valid() && Sized(h, |p|, |code.polys|) && |l| == |code.polys|
    ensures var r := 2 * StateOf(code, p) + b;
            && r < 2 * code.States()
            && StateOf(code, p + [b]) == code.Into(r)
            && Sized(h + [l], |p + [b]|, |code.polys|)
            && PathMetric(code.polys, p + [b], h + [l]) == PathMetric(code.polys, p, h) + Branch(code.polys, r, l)
  {
    TrellisEdge(code, p, b);
    PathStep(code.polys, p, b, h, l);
  }

  lemma {:induction false} BoundCarries(code: ConvCode, q: seq<bit>, b: bit, h: Blocks, l: seq<real>,
                                        metric: seq<Metric>, off: real,
                                        next: seq<Metric>, bits: seq<bit>, prevs: seq<nat>)
    requires code.Valid() && Sized(h, |q|, |code.polys|) && |l| == |code.polys|
    requires |metric| == |next| == |bits| == |prevs| == code.States()
    requires Selected(code, metric, l, 2 * code.States(), next, bits, prevs)
    requires NotAbove(code, q, h, metric, off)
    ensures Sized(h + [l], |q + [b]|, |code.polys|) && NotAbove(code, q + [b], h + [l], next, off)
  {
    hide Corr, Low, Symbols, PathMetric;
    PathIntoState(code, q, b, h, l);
    var r := 2 * StateOf(code, q) + b;
    assert r / 2 == StateOf(code, q);
    assert Covered(code, metric, l, next, r);
  }

  // Subtracting a constant from every stored metric moves it into the offset.
  lemma {:induction false} SurvivorsRenormalise(code: ConvCode, t: nat, h: Blocks, metric: seq<Metric>, off: real,
                                                paths: Paths,
                                                best: real, metric': seq<Metric>)
    requires code.Valid() && Sized(h, t, |code.polys|)
    requires Survivors(code, t, h, metric, off, paths)
    requires |metric'| == |metric|
    requires forall s :: 0 <= s < |metric| ==>
               metric'[s] == if metric[s].Fin? then Fin(metric[s].v - best) else NegInf
    ensures Survivors(code, t, h, metric', off + best, paths)
  {
    forall q: seq<bit> | |q| == t
      ensures NotAbove(code, q, h, metric', off + best)
    {
      assert NotAbove(code, q, h, metric, off);
    }
  }

  // --- rows of the flat tables, one per trellis step ---

  function Row<T>(flat: seq<T>, states: nat, i: nat): seq<T> {
    var base := Cells(i, states);
    if base + states <= |flat| then flat[base..base + states] else []
  }

  // Writing row j leaves every other row alone.
  lemma {:induction false} RowFrame<T(!new)>(flat: seq<T>, flat': seq<T>, states: nat, n: nat, j: nat)
    requires |flat| == |flat'| == Cells(n, states) && j < n
    requires forall x :: 0 <= x < |flat| && !(Cells(j, states) <= x < Cells(j + 1, states)) ==> flat'[x] == flat[x]
    ensures forall i :: 0 <= i < n && i != j ==> SameRow(flat, flat', states, i)
  {
    forall i | 0 <= i < n && i != j
      ensures SameRow(flat, flat', states, i)
    {
      CellsMonotone(i + 1, n, states);
      CellsMonotone(j + 1, n, states);
      if i < j { CellsMonotone(i + 1, j, states); } else { CellsMonotone(j + 1, i, states); }
      assert Row(flat', states, i) == Row(flat, states, i);
    }
  }

  ghost predicate SameRow<T(!new)>(flat: seq<T>, flat': seq<T>, states: nat, i: nat) {
    Row(flat', states, i) == Row(flat, states, i)
  }

  // One step of either decoder, its decisions written to row `row` of the tables.
  method TrellisStep(code: ConvCode, metric: seq<Metric>, l: seq<real>, bitAt: array<bit>, prevAt: array<nat>, row: nat,
                     ghost rows: nat, ghost t: nat, ghost h: Blocks, ghost off: real, ghost paths: Paths)
    returns (next: seq<Metric>, ghost paths': Paths)
    requires code.Valid() && Sized(h, t, |code.polys|) && |l| == |code.polys|
    requires Survivors(code, t, h, metric, off, paths)
    requires bitAt.Length == prevAt.Length == Cells(rows, code.States()) && row < rows
    modifies bitAt, prevAt
    ensures Sized(h + [l], t + 1, |code.polys|) && |paths'| == code.States()
    ensures Survivors(code, t + 1, h + [l], next, off, paths')
    ensures Linked(paths, paths', Row(bitAt[..], code.States(), row), Row(prevAt[..], code.States(), row))
    ensures forall i :: 0 <= i < rows && i != row ==> SameRow(old(bitAt[..]), bitAt[..], code.States(), i)
    ensures forall i :: 0 <= i < rows && i != row ==> SameRow(old(prevAt[..]), prevAt[..], code.States(), i)
  {
    hide Corr, Low, Symbols, PathMetric;
    var states := code.States();
    var base := Cells(row, states);
    CellsMonotone(row + 1, rows, states);
    next := AddCompareSelect(code, metric, l, bitAt, prevAt, base);
    RowFrame(old(bitAt[..]), bitAt[..], states, rows, row);
    RowFrame(old(prevAt[..]), prevAt[..], states, rows, row);
    assert bitAt[base..base + states] == Row(bitAt[..], states, row);
    assert prevAt[base..base + states] == Row(prevAt[..], states, row);
    paths' := SurvivorsStep(code, t, h, l, metric, off, paths, next,
                            Row(bitAt[..], states, row), Row(prevAt[..], states, row));
  }

  // Following the recorded predecessor of a survivor takes off its last bit.
  lemma {:induction false} FollowBack(before: Paths, after: Paths, bits: seq<bit>, prevs: seq<nat>, states: nat,
                                      row: nat, rows: nat,
                                      s: nat, p: seq<bit>, t: nat)
    requires |bits| == |prevs| == Cells(rows, states) && row < rows
    requires Linked(before, after, Row(bits, states, row), Row(prevs, states, row))
    requires s < |after| && t < |p| && after[s] == Some(p[..t + 1])
    ensures |before| == states && Cells(row, states) + s < |bits|
    ensures bits[Cells(row, states) + s] == p[t]
    ensures prevs[Cells(row, states) + s] < states && before[prevs[Cells(row, states) + s]] == Some(p[..t])
  {
    CellsMonotone(row + 1, rows, states);
    assert Row(bits, states, row)[s] == bits[Cells(row, states) + s];
    assert Row(prevs, states, row)[s] == prevs[Cells(row, states) + s];
    var x := before[prevs[Cells(row, states) + s]].value;
    assert p[..t + 1] == x + [bits[Cells(row, states) + s]];
    assert x == p[..t + 1][..t] == p[..t];
  }
}
