/**
 The ensemble's duplicate filter: frames with equal content within a window of sample
 offsets are admitted once. Records out of reach are pruned after every feed.
 */
module Dedup {
  // A decoded frame: its content key and its sample offset.
  datatype Frame = Frame(key: nat, offset: nat)

  function Distance(a: nat, b: nat): nat {
    if a < b then b - a else a - b
  }

  // Equal contents, neither more than the window ahead of the other.
  predicate Near(w: nat, a: Frame, b: Frame) {
    a.key == b.key && a.offset <= b.offset + w && b.offset <= a.offset + w
  }

  ghost predicate Duplicate(w: nat, seen: seq<Frame>, f: Frame) {
    exists i :: 0 <= i < |seen| && Near(w, seen[i], f)
  }

  function Max(a: nat, b: nat): nat {
    if a < b then b else a
  }

  // Records not yet out of reach of the cutoff, in order.
  function Retained(w: nat, seen: seq<Frame>, cutoff: nat): (r: seq<Frame>)
    ensures forall f :: f in r <==> f in seen && f.offset + w >= cutoff
  {
    if seen == [] then []
    else
      var n := |seen| - 1;
      Retained(w, seen[..n], cutoff) + (if seen[n].offset + w >= cutoff then [seen[n]] else [])
  }

  // --- the filter as a function ---

  // Records after admitting the frames of one feed in turn.
  ghost function SeenAfter(w: nat, seen: seq<Frame>, frames: seq<Frame>): seq<Frame> {
    if frames == [] then seen
    else
      var n := |frames| - 1;
      var s := SeenAfter(w, seen, frames[..n]);
      if Duplicate(w, s, frames[n]) then s else s + [frames[n]]
  }

  // The frames let through.
  ghost function Emitted(w: nat, seen: seq<Frame>, frames: seq<Frame>): seq<Frame> {
    if frames == [] then []
    else
      var n := |frames| - 1;
      var s := SeenAfter(w, seen, frames[..n]);
      Emitted(w, seen, frames[..n]) + (if Duplicate(w, s, frames[n]) then [] else [frames[n]])
  }

  function Latest(latest: nat, frames: seq<Frame>): (r: nat)
    ensures r >= latest && forall i :: 0 <= i < |frames| ==> frames[i].offset <= r
    ensures r == latest || exists i :: 0 <= i < |frames| && frames[i].offset == r
  {
    if frames == [] then latest
    else Max(Latest(latest, frames[..|frames| - 1]), frames[|frames| - 1].offset)
  }

  function Flat(xs: seq<seq<Frame>>): seq<Frame> {
    if xs == [] then [] else xs[0] + Flat(xs[1..])
  }

  lemma {:induction false} FlatLast(xs: seq<seq<Frame>>)
    requires xs != []
    ensures Flat(xs) == Flat(xs[..|xs| - 1]) + xs[|xs| - 1]
  {
    if |xs| == 1 {
      assert xs[1..] == [] && xs[..0] == [];
    } else {
      FlatLast(xs[1..]);
      assert xs[1..][..|xs| - 2] == xs[..|xs| - 1][1..];
    }
  }

  lemma {:induction false} NothingFed(latest: nat, w: nat, seen: seq<Frame>, members: seq<seq<Frame>>)
    ensures Flat(members[..0]) == [] && Latest(latest, []) == latest
    ensures SeenAfter(w, seen, []) == seen && Emitted(w, seen, []) == []
  {
  }

  lemma {:induction false} OneMore(latest: nat, w: nat, seen: seq<Frame>, frames: seq<Frame>, f: Frame)
    ensures Latest(latest, frames + [f]) == Max(Latest(latest, frames), f.offset)
    ensures var s := SeenAfter(w, seen, frames);
            var dup := Duplicate(w, s, f);
            && SeenAfter(w, seen, frames + [f]) == (if dup then s else s + [f])
            && Emitted(w, seen, frames + [f]) == Emitted(w, seen, frames) + (if dup then [] else [f])
  {
    assert (frames + [f])[..|frames|] == frames;
  }

  // --- the filter as an object ---

  class DedupWindow {
    const windowSamples: nat
    var latest: nat
    var seen: seq<Frame>

    // No two records of one content are within the window, and none is past the horizon.
    ghost predicate Valid()
      reads this
    {
      Apart(windowSamples, seen) && forall i :: 0 <= i < |seen| ==> seen[i].offset <= latest
    }

    constructor (windowSamples: nat)
      ensures Valid() && this.windowSamples == windowSamples && latest == 0 && seen == []
    {
      this.windowSamples, latest, seen := windowSamples, 0, [];
    }

    method Admit(f: Frame) returns (novel: bool)
      requires Valid()
      modifies this
      ensures Valid() && latest == Max(old(latest), f.offset)
      ensures novel <==> !Duplicate(windowSamples, old(seen), f)
      ensures novel <==> forall g :: g in old(seen) && g.key == f.key ==>
                           g.offset + windowSamples < f.offset || f.offset + windowSamples < g.offset
      ensures seen == if novel then old(seen) + [f] else old(seen)
    {
      DuplicateIn(windowSamples, seen, f);
      latest := Max(latest, f.offset);
      var dup := false;
      for i := 0 to |seen|
        invariant dup <==> exists j :: 0 <= j < i && Near(windowSamples, seen[j], f)
      {
        if seen[i].key == f.key && Distance(seen[i].offset, f.offset) <= windowSamples {
          dup := true;
        }
      }
      if dup {
        novel := false;
      } else {
        seen := seen + [f];
        novel := true;
      }
    }

    method Prune(cutoff: nat)
      requires Valid()
      modifies this
      ensures Valid() && latest == old(latest) && seen == Retained(windowSamples, old(seen), cutoff)
    {
      var kept: seq<Frame> := [];
      for i := 0 to |seen|
        invariant kept == Retained(windowSamples, seen[..i], cutoff)
      {
        assert seen[..i + 1][..i] == seen[..i];
        if seen[i].offset + windowSamples >= cutoff {
          kept := kept + [seen[i]];
        }
      }
      assert seen[..|seen|] == seen;
      RetainedApart(windowSamples, seen, cutoff);
      RetainedBounded(windowSamples, seen, cutoff, latest);
      seen := kept;
    }

    method PruneToLatest()
      requires Valid()
      modifies this
      ensures Valid() && latest == old(latest) && seen == Retained(windowSamples, old(seen), latest)
      ensures OnePerKey(seen)
    {
      ghost var before := seen;
      Prune(latest);
      OneLeft(windowSamples, seen, latest);
    }

    // One feed: every member's frames in turn, then the prune.
    method Feed(members: seq<seq<Frame>>) returns (out: seq<Frame>)
      requires Valid()
      modifies this
      ensures Valid() && latest == Latest(old(latest), Flat(members))
      ensures out == Emitted(windowSamples, old(seen), Flat(members))
      ensures seen == Retained(windowSamples, SeenAfter(windowSamples, old(seen), Flat(members)), latest)
      ensures OnePerKey(seen)
    {
      hide Latest, SeenAfter, Emitted, Retained, Flat, Duplicate, Valid;
      out := [];
      assert Fed(latest, seen, Flat(members[..0]), out) by { NothingFed(latest, windowSamples, seen, members); }
      for m := 0 to |members|
        invariant Fed(old(latest), old(seen), Flat(members[..m]), out)
      {
        ghost var before := Flat(members[..m]);
        assert before + members[m][..0] == before;
        for i := 0 to |members[m]|
          invariant Fed(old(latest), old(seen), before + members[m][..i], out)
        {
          assert before + members[m][..i + 1] == before + members[m][..i] + [members[m][i]];
          OneMore(old(latest), windowSamples, old(seen), before + members[m][..i], members[m][i]);
          var novel := Admit(members[m][i]);
          if novel {
            out := out + [members[m][i]];
          }
        }
        assert members[m][..|members[m]|] == members[m];
        assert members[..m + 1][..m] == members[..m];
        FlatLast(members[..m + 1]);
      }
      assert members[..|members|] == members;
      PruneToLatest();
    }

    ghost predicate Fed(latest0: nat, seen0: seq<Frame>, frames: seq<Frame>, out: seq<Frame>)
      reads this
    {
      && Valid() && latest == Latest(latest0, frames)
      && seen == SeenAfter(windowSamples, seen0, frames)
      && out == Emitted(windowSamples, seen0, frames)
    }

    method Clear()
      modifies this
      ensures Valid() && latest == 0 && seen == []
    {
      seen := [];
      latest := 0;
    }
  }

  ghost predicate Apart(w: nat, seen: seq<Frame>) {
    forall i, j :: 0 <= i < j < |seen| ==> !Near(w, seen[i], seen[j])
  }

  ghost predicate OnePerKey(seen: seq<Frame>) {
    forall i, j :: 0 <= i < j < |seen| ==> seen[i].key != seen[j].key
  }

  lemma {:induction false} RetainedApart(w: nat, seen: seq<Frame>, cutoff: nat)
    requires Apart(w, seen)
    ensures Apart(w, Retained(w, seen, cutoff))
  {
    if seen != [] {
      var n := |seen| - 1;
      RetainedApart(w, seen[..n], cutoff);
      var r := Retained(w, seen[..n], cutoff);
      forall i | 0 <= i < |r| ensures !Near(w, r[i], seen[n]) {
        assert r[i] in seen[..n];
      }
    }
  }

  lemma {:induction false} RetainedBounded(w: nat, seen: seq<Frame>, cutoff: nat, latest: nat)
    requires forall i :: 0 <= i < |seen| ==> seen[i].offset <= latest
    ensures forall i :: 0 <= i < |Retained(w, seen, cutoff)| ==> Retained(w, seen, cutoff)[i].offset <= latest
  {
    var r := Retained(w, seen, cutoff);
    forall i | 0 <= i < |r| ensures r[i].offset <= latest {
      assert r[i] in seen;
    }
  }

  // Records within one window of the horizon, pairwise further apart than the window, differ in content.
  lemma {:induction false} OneLeft(w: nat, seen: seq<Frame>, latest: nat)
    requires Apart(w, seen) && forall i :: 0 <= i < |seen| ==> seen[i].offset <= latest
    requires forall f :: f in seen ==> f.offset + w >= latest
    ensures OnePerKey(seen)
  {
    forall i, j | 0 <= i < j < |seen| ensures seen[i].key != seen[j].key {
      assert seen[i] in seen && seen[j] in seen;
      assert !Near(w, seen[i], seen[j]);
    }
  }

  // Feeding in pieces is feeding at once: what is let through keeps its order.
  lemma {:induction false} InPieces(w: nat, seen: seq<Frame>, a: seq<Frame>, b: seq<Frame>)
    ensures SeenAfter(w, seen, a + b) == SeenAfter(w, SeenAfter(w, seen, a), b)
    ensures Emitted(w, seen, a + b) == Emitted(w, seen, a) + Emitted(w, SeenAfter(w, seen, a), b)
  {
    hide Duplicate;
    if b == [] {
      assert a + b == a;
    } else {
      var n := |b| - 1;
      InPieces(w, seen, a, b[..n]);
      assert (a + b)[..|a + b| - 1] == a + b[..n] && (a + b)[|a + b| - 1] == b[n];
    }
  }

  // One frame alone.
  lemma {:induction false} LetThrough(w: nat, seen: seq<Frame>, f: Frame)
    ensures Emitted(w, seen, [f])
            == if forall g :: g in seen && g.key == f.key ==> g.offset + w < f.offset || f.offset + w < g.offset
               then [f] else []
  {
    DuplicateIn(w, seen, f);
    assert [f][..0] == [];
  }

  // --- pruning never shows ---

  // No frame is older than the horizon it meets, while the horizon is past the first window.
  predicate Fresh(w: nat, latest: nat, f: Frame) {
    f.offset >= latest || w >= latest
  }

  // Every frame of a feed lies at or after everything fed before.
  ghost predicate InOrder(w: nat, latest: nat, feeds: seq<seq<Frame>>)
    decreases |feeds|
  {
    feeds == []
    || ((forall i :: 0 <= i < |feeds[0]| ==> Fresh(w, latest, feeds[0][i]))
        && InOrder(w, Latest(latest, feeds[0]), feeds[1..]))
  }

  // What a filter lets through over many feeds, pruning after each or never.
  ghost function AllEmitted(w: nat, latest: nat, seen: seq<Frame>, feeds: seq<seq<Frame>>, prune: bool): seq<seq<Frame>>
    decreases |feeds|
  {
    if feeds == [] then []
    else
      var latest' := Latest(latest, feeds[0]);
      var s := SeenAfter(w, seen, feeds[0]);
      [Emitted(w, seen, feeds[0])]
      + AllEmitted(w, latest', if prune then Retained(w, s, latest') else s, feeds[1..], prune)
  }

  // The pruned records are the others less some that are out of reach of `latest`.
  ghost predicate Covers(w: nat, latest: nat, pruned: seq<Frame>, full: seq<Frame>) {
    && (forall f :: f in pruned ==> f in full)
    && (forall f :: f in full && f !in pruned ==> f.offset + w < latest)
  }

  lemma {:induction false} DuplicateIn(w: nat, seen: seq<Frame>, f: Frame)
    ensures Duplicate(w, seen, f) <==> exists g :: g in seen && Near(w, g, f)
  {
    if g :| g in seen && Near(w, g, f) {
      var i :| 0 <= i < |seen| && seen[i] == g;
      assert Near(w, seen[i], f);
    }
    if Duplicate(w, seen, f) {
      var i :| 0 <= i < |seen| && Near(w, seen[i], f);
      assert seen[i] in seen;
    }
  }

  lemma {:induction false} SameVerdict(w: nat, latest: nat, pruned: seq<Frame>, full: seq<Frame>, f: Frame)
    requires Covers(w, latest, pruned, full) && Fresh(w, latest, f)
    ensures Duplicate(w, pruned, f) <==> Duplicate(w, full, f)
  {
    DuplicateIn(w, pruned, f);
    DuplicateIn(w, full, f);
  }

  lemma {:induction false} SameFeed(w: nat, latest: nat, pruned: seq<Frame>, full: seq<Frame>, frames: seq<Frame>)
    requires Covers(w, latest, pruned, full)
    requires forall i :: 0 <= i < |frames| ==> Fresh(w, latest, frames[i])
    ensures Emitted(w, pruned, frames) == Emitted(w, full, frames)
    ensures Covers(w, latest, SeenAfter(w, pruned, frames), SeenAfter(w, full, frames))
  {
    if frames != [] {
      var n := |frames| - 1;
      SameFeed(w, latest, pruned, full, frames[..n]);
      SameVerdict(w, latest, SeenAfter(w, pruned, frames[..n]), SeenAfter(w, full, frames[..n]), frames[n]);
    }
  }

  // With feeds in order, pruning after every feed never changes which frames are let through.
  lemma {:induction false} PruningUnseen(w: nat, latest: nat, pruned: seq<Frame>, full: seq<Frame>,
                                         feeds: seq<seq<Frame>>)
    requires Covers(w, latest, pruned, full) && InOrder(w, latest, feeds)
    ensures AllEmitted(w, latest, pruned, feeds, true) == AllEmitted(w, latest, full, feeds, false)
    decreases |feeds|
  {
    if feeds != [] {
      SameFeed(w, latest, pruned, full, feeds[0]);
      var latest' := Latest(latest, feeds[0]);
      var p, f := SeenAfter(w, pruned, feeds[0]), SeenAfter(w, full, feeds[0]);
      assert Covers(w, latest', Retained(w, p, latest'), f);
      PruningUnseen(w, latest', Retained(w, p, latest'), f, feeds[1..]);
    }
  }

  // Exactly when a prune is harmless to a frame, whatever the records: the frame is not older
  // than the horizon, or the horizon is still within one window of the start.
  lemma {:induction false} PruneHarmless(w: nat, latest: nat, f: Frame)
    ensures (forall seen: seq<Frame> :: Duplicate(w, Retained(w, seen, latest), f) <==> Duplicate(w, seen, f))
            <==> Fresh(w, latest, f)
  {
    if Fresh(w, latest, f) {
      forall seen: seq<Frame>
        ensures Duplicate(w, Retained(w, seen, latest), f) <==> Duplicate(w, seen, f)
      {
        DuplicateIn(w, seen, f);
        DuplicateIn(w, Retained(w, seen, latest), f);
      }
    } else {
      // A record the prune drops although the late frame still repeats it.
      var o := if f.offset < w then 0 else f.offset - w;
      var g := Frame(f.key, o);
      assert Near(w, [g][0], f);
      assert Duplicate(w, [g], f);
      assert [g][..0] == [] && Retained(w, [g], latest) == [];
      assert !Duplicate(w, Retained(w, [g], latest), f);
    }
  }

  // --- what is let through is spread out ---

  // Without pruning the records are exactly the frames let through.
  lemma {:induction false} SeenIsEmitted(w: nat, seen: seq<Frame>, frames: seq<Frame>)
    ensures SeenAfter(w, seen, frames) == seen + Emitted(w, seen, frames)
  {
    if frames == [] {
      assert seen + [] == seen;
    } else {
      var n := |frames| - 1;
      SeenIsEmitted(w, seen, frames[..n]);
    }
  }

  lemma {:induction false} AdmittedApart(w: nat, seen: seq<Frame>, frames: seq<Frame>)
    requires Apart(w, seen)
    ensures Apart(w, SeenAfter(w, seen, frames))
  {
    if frames != [] {
      AdmittedApart(w, seen, frames[..|frames| - 1]);
    }
  }

  lemma {:induction false} FullApart(w: nat, latest: nat, seen: seq<Frame>, feeds: seq<seq<Frame>>)
    requires Apart(w, seen)
    ensures Apart(w, seen + Flat(AllEmitted(w, latest, seen, feeds, false)))
    decreases |feeds|
  {
    if feeds == [] {
      assert seen + [] == seen;
    } else {
      var s := SeenAfter(w, seen, feeds[0]);
      AdmittedApart(w, seen, feeds[0]);
      SeenIsEmitted(w, seen, feeds[0]);
      FullApart(w, Latest(latest, feeds[0]), s, feeds[1..]);
      var e, rest := Emitted(w, seen, feeds[0]), AllEmitted(w, Latest(latest, feeds[0]), s, feeds[1..], false);
      assert ([e] + rest)[1..] == rest;
      assert seen + (e + Flat(rest)) == s + Flat(rest);
    }
  }

  // Over a whole run in order, frames of equal content let through by the pruning filter are
  // pairwise more than the window apart.
  lemma {:induction false} RunApart(w: nat, feeds: seq<seq<Frame>>)
    requires InOrder(w, 0, feeds)
    ensures Apart(w, Flat(AllEmitted(w, 0, [], feeds, true)))
  {
    PruningUnseen(w, 0, [], [], feeds);
    FullApart(w, 0, [], feeds);
    var out := Flat(AllEmitted(w, 0, [], feeds, false));
    assert [] + out == out;
  }
}
