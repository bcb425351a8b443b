/**
 The auto-save pipeline of the Configure view: saves are serialised, coalesced, and
 drained before the view closes. The daemon may confirm or fail any save, at any time.
 */
module Autosave {
  import opened Options

  // The persistable form fields (`cfgSig`).
  datatype Sig = Sig(
    name: string, modeIdx: int, modeSig: string, rxID: string, txID: string, pttID: string,
    methodIdx: int, rsidTx: bool, rsidRx: bool, txDelayMs: string, txTailMs: string)

  datatype View = View(form: Sig, saved: Sig, inflight: Sig, applying: bool, closing: bool, open: bool)

  predicate Saveable(f: Sig) {
    f.rxID != "" && f.name != ""
  }

  // --- the handlers as functions: the new view and the save started, if any ---

  function MaybePersist(v: View): (View, Option<Sig>) {
    if v.applying || v.form == v.saved || !Saveable(v.form) then (v, None)
    else (v.(applying := true, inflight := v.form), Some(v.form))
  }

  function SaveDone(v: View, ok: bool): (View, Option<Sig>) {
    if !ok then (v.(applying := false, open := v.open && !v.closing), None)
    else
      var (w, cmd) := MaybePersist(v.(applying := false, saved := v.inflight));
      (if cmd.None? then w.(open := w.open && !w.closing) else w, cmd)
  }

  function Esc(v: View): (View, Option<Sig>) {
    var (w, cmd) := MaybePersist(v.(closing := true));
    (if cmd.None? && !w.applying then w.(open := false) else w, cmd)
  }

  // --- the handlers as methods ---

  class ConfigView {
    var form: Sig
    var saved: Sig
    var inflight: Sig
    var applying: bool
    var closing: bool
    var open: bool

    function Abs(): View
      reads this
    {
      View(form, saved, inflight, applying, closing, open)
    }

    constructor (loaded: Sig)
      ensures Abs() == Opened(loaded, inflight)
    {
      form, saved, applying, closing, open := loaded, loaded, false, false, true;
    }

    method Persist() returns (cmd: Option<Sig>)
      modifies this
      ensures (Abs(), cmd) == MaybePersist(old(Abs()))
    {
      if applying {
        return None;
      }
      var cur := form;
      if cur == saved || cur.rxID == "" || cur.name == "" {
        return None;
      }
      applying := true;
      inflight := cur;
      return Some(cur);
    }

    method OnSaveDone(ok: bool) returns (cmd: Option<Sig>)
      modifies this
      ensures (Abs(), cmd) == SaveDone(old(Abs()), ok)
    {
      applying := false;
      if !ok {
        if closing {
          open := false;
        }
        return None;
      }
      saved := inflight;
      cmd := Persist();
      if cmd.Some? {
        return;
      }
      if closing {
        open := false;
      }
    }

    method OnEsc() returns (cmd: Option<Sig>)
      modifies this
      ensures (Abs(), cmd) == Esc(old(Abs()))
    {
      closing := true;
      cmd := Persist();
      if cmd.Some? || applying {
        return;
      }
      open := false;
    }

    // A key that changes the form; some handlers also offer it for saving at once.
    method OnEdit(f: Sig, offer: bool) returns (cmd: Option<Sig>)
      modifies this
      ensures (Abs(), cmd) == Edited(old(Abs()), f, offer)
    {
      form := f;
      cmd := None;
      if offer {
        cmd := Persist();
      }
    }
  }

  function Edited(v: View, f: Sig, offer: bool): (View, Option<Sig>) {
    if offer then MaybePersist(v.(form := f)) else (v.(form := f), None)
  }

  function Opened(loaded: Sig, any: Sig): View {
    View(loaded, loaded, any, false, false, true)
  }

  // --- the view together with the daemon ---

  datatype Outcome = Outcome(sig: Sig, ok: bool)

  // `pending` holds the saves running in their own goroutines, `log` the finished ones;
  // `started` every save ever started, in order.
  datatype System = System(view: View, pending: seq<Sig>, started: seq<Sig>, log: seq<Outcome>)

  // `Done(i, ok)`: the i-th running save finishes. Nothing fixes the order in which they do.
  datatype Event = Edit(form: Sig, offer: bool) | Done(i: nat, ok: bool) | Leave

  function Start(s: System, r: (View, Option<Sig>)): System {
    match r.1
    case None => s.(view := r.0)
    case Some(sig) => s.(view := r.0, pending := s.pending + [sig], started := s.started + [sig])
  }

  // A view that has left the stack gets no more messages.
  function Step(s: System, e: Event): System {
    match e
    case Edit(f, offer) => if s.view.open then Start(s, Edited(s.view, f, offer)) else s
    case Leave => if s.view.open then Start(s, Esc(s.view)) else s
    case Done(i, ok) =>
      if i >= |s.pending| then s
      else
        var t := s.(pending := s.pending[..i] + s.pending[i + 1..], log := s.log + [Outcome(s.pending[i], ok)]);
        if s.view.open then Start(t, SaveDone(s.view, ok)) else t
  }

  function Run(s: System, events: seq<Event>): System
    decreases |events|
  {
    if events == [] then s else Run(Step(s, events[0]), events[1..])
  }

  function Boot(loaded: Sig, any: Sig): System {
    System(Opened(loaded, any), [], [], [])
  }

  function Sigs(log: seq<Outcome>): seq<Sig> {
    if log == [] then [] else Sigs(log[..|log| - 1]) + [log[|log| - 1].sig]
  }

  // What the daemon last confirmed, or what was loaded.
  function Confirmed(loaded: Sig, log: seq<Outcome>): Sig {
    if log == [] then loaded
    else if log[|log| - 1].ok then log[|log| - 1].sig
    else Confirmed(loaded, log[..|log| - 1])
  }

  predicate LastFailed(log: seq<Outcome>) {
    log != [] && !log[|log| - 1].ok
  }

  predicate Durable(v: View) {
    v.form == v.saved || !Saveable(v.form)
  }

  /** What every reachable state satisfies. */
  ghost predicate Inv(loaded: Sig, s: System) {
    var v := s.view;
    // At most one save runs, it is the one the view believes in, and it could be saved.
    && s.pending == (if v.applying then [v.inflight] else [])
    && (v.applying ==> Saveable(v.inflight) && v.inflight != v.saved)
    // Saves finish in the order they started.
    && s.started == Sigs(s.log) + s.pending
    // The baseline is the last confirmed save.
    && v.saved == Confirmed(loaded, s.log)
    // A view asked to leave is still here only while a save runs; one that left has none
    // running and nothing unsaved, unless the last save failed.
    && (v.closing && v.open ==> v.applying)
    && (!v.open ==> v.closing && !v.applying && (Durable(v) || LastFailed(s.log)))
  }

  // In a reachable state only the first index names a running save.
  function Finished(s: System, ok: bool): System {
    s.(pending := [], log := s.log + [Outcome(s.view.inflight, ok)])
  }

  lemma {:induction false} DoneStep(loaded: Sig, s: System, i: nat, ok: bool)
    requires Inv(loaded, s)
    ensures Step(s, Done(i, ok))
            == if i > 0 || !s.view.applying then s else Start(Finished(s, ok), SaveDone(s.view, ok))
  {
    hide Sigs, Confirmed, SaveDone, Start;
    if i < |s.pending| {
      assert s.pending[..i] + s.pending[i + 1..] == [];
    }
  }

  lemma {:induction false} LogGrows(loaded: Sig, log: seq<Outcome>, o: Outcome)
    ensures Sigs(log + [o]) == Sigs(log) + [o.sig]
    ensures Confirmed(loaded, log + [o]) == if o.ok then o.sig else Confirmed(loaded, log)
    ensures LastFailed(log + [o]) <==> !o.ok
  {
    assert (log + [o])[..|log|] == log;
  }

  lemma {:induction false} DoneKeeps(loaded: Sig, s: System, ok: bool)
    requires Inv(loaded, s) && s.view.applying
    ensures Inv(loaded, Start(Finished(s, ok), SaveDone(s.view, ok)))
  {
    LogGrows(loaded, s.log, Outcome(s.view.inflight, ok));
    hide Sigs, Confirmed;
    assert Sigs(Finished(s, ok).log) == s.started;
  }

  lemma {:induction false} StepKeeps(loaded: Sig, s: System, e: Event)
    requires Inv(loaded, s)
    ensures Inv(loaded, Step(s, e))
  {
    hide Sigs, Confirmed;
    match e
    case Done(i, ok) =>
      DoneStep(loaded, s, i, ok);
      if i == 0 && s.view.applying {
        DoneKeeps(loaded, s, ok);
      }
    case _ =>
  }

  // Every interleaving of edits, completions, failures and leaving keeps the protocol's invariant.
  lemma {:induction false} RunKeeps(loaded: Sig, s: System, events: seq<Event>)
    requires Inv(loaded, s)
    ensures Inv(loaded, Run(s, events))
    decreases |events|
  {
    if events != [] {
      StepKeeps(loaded, s, events[0]);
      RunKeeps(loaded, Step(s, events[0]), events[1..]);
    }
  }

  lemma {:induction false} Reachable(loaded: Sig, any: Sig, events: seq<Event>)
    ensures Inv(loaded, Run(Boot(loaded, any), events))
  {
    RunKeeps(loaded, Boot(loaded, any), events);
  }

  // A step that closes the view leaves nothing running, and nothing unsaved unless it was a failure.
  lemma {:induction false} ClosesSafely(loaded: Sig, any: Sig, events: seq<Event>, e: Event)
    requires Run(Boot(loaded, any), events).view.open
    requires !Step(Run(Boot(loaded, any), events), e).view.open
    ensures var t := Step(Run(Boot(loaded, any), events), e);
            && t.pending == []
            && ((Durable(t.view) && t.view.saved == Confirmed(loaded, t.log)) || (e.Done? && !e.ok))
  {
    Reachable(loaded, any, events);
    StepKeeps(loaded, Run(Boot(loaded, any), events), e);
  }

  // --- which forms are saved ---

  // Every save ever started names a channel and has a receive device.
  lemma {:induction false} StartedHaveDevice(s: System, events: seq<Event>)
    requires forall x :: x in s.started ==> x.rxID != "" && x.name != ""
    ensures forall x :: x in Run(s, events).started ==> x.rxID != "" && x.name != ""
    decreases |events|
  {
    if events != [] {
      StartedHaveDevice(Step(s, events[0]), events[1..]);
    }
  }

  // A view that closed with no failed last save shows what the daemon confirmed last, or a form
  // without a receive device or a name.
  lemma {:induction false} ClosedIsConfirmed(loaded: Sig, any: Sig, events: seq<Event>)
    ensures var t := Run(Boot(loaded, any), events);
            !t.view.open && !LastFailed(t.log) ==>
              t.view.form == Confirmed(loaded, t.log) || t.view.form.rxID == "" || t.view.form.name == ""
  {
    hide Run, Confirmed;
    Reachable(loaded, any, events);
  }

  // With no save running an offer starts one exactly when the form differs from the last confirmed
  // one and has a receive device and a name; nothing else about the form matters.
  lemma {:induction false} OfferStarts(loaded: Sig, s: System, e: Event)
    requires Inv(loaded, s) && s.view.open && !s.view.applying
    requires e.Leave? || (e.Edit? && e.offer)
    ensures var t := Step(s, e);
            var form := if e.Edit? then e.form else s.view.form;
            && t.view.form == form
            && if form != Confirmed(loaded, s.log) && form.rxID != "" && form.name != ""
               then t.started == s.started + [form] && t.pending == [form]
               else t.started == s.started && t.pending == []
  {
    hide Sigs, Confirmed;
  }

  // --- draining ---

  // The completions a view still needs: two when the form has moved on from the running save.
  function Rank(v: View): nat {
    if !v.applying then 0 else if v.form == v.inflight || !Saveable(v.form) then 1 else 2
  }

  // The form stays at f and saves succeed; leaving and offers of the unchanged form may come at any time.
  predicate Quiet(f: Sig, e: Event) {
    match e
    case Edit(g, _) => g == f
    case Done(_, ok) => ok
    case Leave => true
  }

  // Completions to come, counting the one an offer would start.
  function Need(v: View): nat {
    if v.applying then Rank(v) else if Durable(v) then 0 else 1
  }

  lemma {:induction false} QuietStep(loaded: Sig, s: System, e: Event)
    requires Inv(loaded, s) && Quiet(s.view.form, e)
    ensures var t := Step(s, e);
            && t.view.form == s.view.form
            && |t.log| + Need(t.view) <= |s.log| + Need(s.view)
            && (s.view.applying || Durable(s.view) ==> t.view.applying || Durable(t.view))
  {
    hide Sigs, Confirmed;
    if e.Done? { DoneStep(loaded, s, e.i, e.ok); }
  }

  // With edits stopped and saves succeeding at most two saves complete, whatever else happens
  // between them; with one running at the start, the form is durable when none runs any more, and
  // so after the second completion at the latest.
  lemma {:induction false} TwoCompletions(loaded: Sig, s: System, events: seq<Event>)
    requires Inv(loaded, s) && forall i :: 0 <= i < |events| ==> Quiet(s.view.form, events[i])
    ensures var t := Run(s, events);
            && t.view.form == s.view.form
            && |t.log| + Need(t.view) <= |s.log| + Need(s.view) <= |s.log| + 2
            && (|t.log| == |s.log| + 2 ==> Durable(t.view) && t.pending == [])
            && (s.view.applying && !t.view.applying ==> Durable(t.view) && t.pending == [])
    decreases |events|
  {
    hide Sigs, Confirmed, Step;
    DurableRun(loaded, s, events);
    RunKeeps(loaded, s, events);
  }

  lemma {:induction false} DurableRun(loaded: Sig, s: System, events: seq<Event>)
    requires Inv(loaded, s) && forall i :: 0 <= i < |events| ==> Quiet(s.view.form, events[i])
    ensures var t := Run(s, events);
            && t.view.form == s.view.form
            && |t.log| + Need(t.view) <= |s.log| + Need(s.view)
            && (s.view.applying || Durable(s.view) ==> t.view.applying || Durable(t.view))
    decreases |events|
  {
    hide Inv, Step, Need, Quiet;
    if events != [] {
      StepKeeps(loaded, s, events[0]);
      QuietStep(loaded, s, events[0]);
      DurableRun(loaded, Step(s, events[0]), events[1..]);
    }
  }

  // With nothing running, completions alone never save: the form is durable exactly if it was.
  // A name still being typed, or a form whose save failed, waits for the next offer.
  lemma {:induction false} OfferNeeded(loaded: Sig, s: System, e: Event)
    requires Inv(loaded, s) && s.view.open && !s.view.applying && !s.view.closing
    ensures (e.Done? ==> Step(s, e) == s)
    ensures (e.Leave? || (e.Edit? && e.offer)) ==>
              var t := Step(s, e);
              t.view.applying <==> !Durable(t.view)
  {
  }

  function Edits(events: seq<Event>): nat {
    if events == [] then 0 else (if events[0].Edit? then 1 else 0) + Edits(events[1..])
  }

  // Leaving drains: once asked to leave, the view is gone after two completions, and one more
  // for each later edit, whatever succeeds or fails.
  lemma {:induction false} LeavingDrains(loaded: Sig, s: System, events: seq<Event>)
    requires Inv(loaded, s) && s.view.closing
    ensures var t := Run(s, events);
            && |t.log| <= |s.log| + Rank(s.view) + Edits(events)
            && (t.view.open ==> |t.log| < |s.log| + Rank(s.view) + Edits(events))
    decreases |events|
  {
    if events == [] {
      assert s.view.open ==> Rank(s.view) >= 1;
    } else {
      var s' := Step(s, events[0]);
      StepKeeps(loaded, s, events[0]);
      RankFalls(loaded, s, events[0]);
      LeavingDrains(loaded, s', events[1..]);
    }
  }

  lemma {:induction false} RankFalls(loaded: Sig, s: System, e: Event)
    requires Inv(loaded, s) && s.view.closing
    ensures var s' := Step(s, e);
            && s'.view.closing
            && |s'.log| + Rank(s'.view) <= |s.log| + Rank(s.view) + (if e.Edit? then 1 else 0)
  {
  }

  // A closed view whose form is neither saved nor what the last save tried.
  predicate Dropped(s: System) {
    && !s.view.open && !Durable(s.view)
    && (s.log == [] || s.log[|s.log| - 1].sig != s.view.form)
  }

  // Leaving waits for every change, except when the running save fails: exactly then a change
  // made meanwhile is dropped without having been tried.
  lemma {:induction false} DroppedExactly(loaded: Sig, s: System, e: Event)
    requires Inv(loaded, s) && s.view.open
    ensures Dropped(Step(s, e)) <==>
              && e.Done? && e.i == 0 && !e.ok && s.view.closing
              && s.view.form != s.view.inflight && !Durable(s.view)
  {
    StepKeeps(loaded, s, e);
  }

  // Such a run: the second change was never started.
  lemma {:induction false} NeverTried(a: Sig, b: Sig, c: Sig, any: Sig)
    requires a != b && c != a && c != b && Saveable(b) && Saveable(c)
    ensures var t := Run(Boot(a, any), [Edit(b, true), Edit(c, true), Leave, Done(0, false)]);
            && !t.view.open && t.view.form == c && t.view.saved == a
            && t.started == [b] && Dropped(t)
  {
    var s1 := Step(Boot(a, any), Edit(b, true));
    assert s1 == System(View(b, a, b, true, false, true), [b], [b], []);
    var s2 := Step(s1, Edit(c, true));
    assert s2 == s1.(view := s1.view.(form := c));
    var s3 := Step(s2, Leave);
    assert s3 == s2.(view := s2.view.(closing := true));
    var s4 := Step(s3, Done(0, false));
    assert s3.pending[..0] + s3.pending[1..] == [];
    RunFour(Boot(a, any), Edit(b, true), Edit(c, true), Leave, Done(0, false));
  }

  lemma {:induction false} RunFour(s: System, a: Event, b: Event, c: Event, d: Event)
    ensures Run(s, [a, b, c, d]) == Step(Step(Step(Step(s, a), b), c), d)
  {
    hide Step;
    assert [a, b, c, d][1..] == [b, c, d] && [b, c, d][1..] == [c, d] && [c, d][1..] == [d] && [d][1..] == [];
    assert Run(s, [a, b, c, d]) == Run(Step(s, a), [b, c, d]);
    assert Run(Step(s, a), [b, c, d]) == Run(Step(Step(s, a), b), [c, d]);
    assert Run(Step(Step(s, a), b), [c, d]) == Run(Step(Step(Step(s, a), b), c), [d]);
  }
}
