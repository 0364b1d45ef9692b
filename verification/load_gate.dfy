/**
 The gate that loads the TinyMCE script on first use (RichTextEditor.js
 lines 40-47, 73-90 and 196-198): one process-wide flag `editorScriptLoaded`
 that only ever becomes true, and for every mounted editor an
 `EditorLoadingState` that starts Loaded when the flag is already set and
 NotLoaded otherwise.  A NotLoaded editor issues a script load while it
 renders and moves to Loading; a completed load sets the flag and moves the
 editor that issued it to Loaded; TinyMCE's `onInit` moves an editor to
 Initialized.  Whether the spinner or the editor is drawn depends on the
 flag alone.
 */
module LoadGate {

  /** `EditorLoadingState`. */
  datatype LoadState = NotLoaded | Loading | Loaded | Initialized

  /** One mounted editor: its loading state and how many script loads it has issued. */
  datatype Instance = Instance(state: LoadState, loads: nat)

  /**
   The whole gate: the process-wide flag, the mounted editors in mount order,
   the loads still in flight (each named by the editor that issued it) and
   the number of loads issued so far.
   */
  datatype Gate = Gate(scriptLoaded: bool, instances: seq<Instance>, inFlight: seq<nat>, loadsIssued: nat)

  datatype Event =
    | Mount            // a new editor is rendered for the first time
    | Render(i: nat)   // editor `i` renders again
    | Complete(j: nat) // the `j`-th load still in flight resolves
    | Init(i: nat)     // TinyMCE calls `onInit` for editor `i`

  /** What an editor draws. */
  datatype View = Spinner | EditorView

  /** Before any editor has been mounted. */
  const Start := Gate(false, [], [], 0)

  /** The state a new editor starts in, read from the process-wide flag. */
  function InitialState(scriptLoaded: bool): (s: LoadState)
    ensures s == Loaded <==> scriptLoaded
    ensures s == NotLoaded <==> !scriptLoaded
  {
    if scriptLoaded then Loaded else NotLoaded
  }

  /** The render decision: the spinner while the script has not loaded, the editor after. */
  function FlagView(scriptLoaded: bool): (v: View)
    ensures v == Spinner <==> !scriptLoaded
    ensures v == EditorView <==> scriptLoaded
  {
    if !scriptLoaded then Spinner else EditorView
  }

  /** What editor `i` draws: the spinner exactly while the process-wide flag is false. */
  function ViewOf(g: Gate, i: nat): (v: View)
    requires i < |g.instances|
    ensures v == Spinner <==> !g.scriptLoaded
    ensures v == EditorView <==> g.scriptLoaded
  {
    FlagView(g.scriptLoaded)
  }

  /**
   The render-time check: a NotLoaded editor issues a load and moves to
   Loading in the same step; any other editor renders without loading.
   */
  function RenderStep(g: Gate, i: nat): (r: Gate)
    requires i < |g.instances|
    ensures |r.instances| == |g.instances| && r.scriptLoaded == g.scriptLoaded
    ensures r.loadsIssued == g.loadsIssued + (if g.instances[i].state == NotLoaded then 1 else 0)
    ensures forall k :: 0 <= k < |g.instances| && k != i ==> r.instances[k] == g.instances[k]
  {
    var inst := g.instances[i];
    if inst.state == NotLoaded then
      Gate(g.scriptLoaded, g.instances[i := Instance(Loading, inst.loads + 1)],
           g.inFlight + [i], g.loadsIssued + 1)
    else g
  }

  /** The remainder of `s` once its `j`-th element is taken out. */
  function RemoveAt(s: seq<nat>, j: nat): (r: seq<nat>)
    requires j < |s|
    ensures |r| == |s| - 1
    ensures forall k :: 0 <= k < |r| ==> r[k] in s
    ensures j <= |r| && r[..j] + [s[j]] + r[j..] == s
  {
    var r := s[..j] + s[j + 1..];
    assert r[..j] == s[..j] && r[j..] == s[j + 1..];
    r
  }

  /** Exactly one entry, the `j`-th, leaves the loads in flight. */
  lemma RemoveAtMultiset(s: seq<nat>, j: nat)
    requires j < |s|
    ensures multiset(RemoveAt(s, j)) + multiset{s[j]} == multiset(s)
  {
    var r := RemoveAt(s, j);
    assert r == r[..j] + r[j..];
    assert multiset(s) == multiset(r[..j]) + multiset{s[j]} + multiset(r[j..]);
  }

  /** Taking out the first entry leaves the rest. */
  lemma RemoveHead(s: seq<nat>)
    requires |s| > 0
    ensures RemoveAt(s, 0) == s[1..]
  {
  }

  /** One event. Events naming an editor or a load that does not exist change nothing. */
  function Step(g: Gate, e: Event): (r: Gate)
    ensures g.scriptLoaded ==> r.scriptLoaded
    ensures |r.instances| >= |g.instances|
    ensures r.loadsIssued <= g.loadsIssued + 1
  {
    match e
    case Mount =>
      var added := Gate(g.scriptLoaded, g.instances + [Instance(InitialState(g.scriptLoaded), 0)],
                        g.inFlight, g.loadsIssued);
      RenderStep(added, |g.instances|)
    case Render(i) =>
      if i < |g.instances| then RenderStep(g, i) else g
    case Complete(j) =>
      if j < |g.inFlight| then
        var i := g.inFlight[j];
        var insts := if i < |g.instances| then g.instances[i := Instance(Loaded, g.instances[i].loads)]
                     else g.instances;
        Gate(true, insts, RemoveAt(g.inFlight, j), g.loadsIssued)
      else g
    case Init(i) =>
      if i < |g.instances| && g.scriptLoaded then
        Gate(g.scriptLoaded, g.instances[i := Instance(Initialized, g.instances[i].loads)],
             g.inFlight, g.loadsIssued)
      else g
  }

  /** The events in order. */
  function Run(g: Gate, events: seq<Event>): (r: Gate)
    ensures g.scriptLoaded ==> r.scriptLoaded
    ensures |r.instances| >= |g.instances|
    decreases |events|
  {
    if |events| == 0 then g else Run(Step(g, events[0]), events[1..])
  }

  /** Total number of loads issued by `insts`. */
  function LoadSum(insts: seq<Instance>): nat
    decreases |insts|
  {
    if |insts| == 0 then 0 else insts[0].loads + LoadSum(insts[1..])
  }

  /** The per-editor facts: at most one load, none before leaving NotLoaded, one while Loading. */
  predicate InstanceOk(inst: Instance)
  {
    inst.loads <= 1
    && (inst.state == NotLoaded ==> inst.loads == 0)
    && (inst.state == Loading ==> inst.loads == 1)
  }

  /**
   The invariant every reachable gate keeps.  No editor is NotLoaded for
   longer than its first render.
   */
  predicate Inv(g: Gate)
  {
    (forall i :: 0 <= i < |g.instances| ==> InstanceOk(g.instances[i]) && g.instances[i].state != NotLoaded)
    && (forall i :: 0 <= i < |g.instances| ==>
          g.instances[i].state == Loaded || g.instances[i].state == Initialized ==> g.scriptLoaded)
    && (forall j :: 0 <= j < |g.inFlight| ==> g.inFlight[j] < |g.instances|)
    && g.loadsIssued == LoadSum(g.instances)
  }

  /** Replacing one editor changes the total by the difference of its counts. */
  lemma {:induction false} LoadSumUpdate(insts: seq<Instance>, i: nat, inst: Instance)
    requires i < |insts|
    ensures LoadSum(insts[i := inst]) + insts[i].loads == LoadSum(insts) + inst.loads
    decreases |insts|
  {
    if i > 0 {
      LoadSumUpdate(insts[1..], i - 1, inst);
      assert insts[i := inst][1..] == insts[1..][i - 1 := inst];
    }
  }

  /** Appending an editor adds its count to the total. */
  lemma {:induction false} LoadSumAppend(insts: seq<Instance>, inst: Instance)
    ensures LoadSum(insts + [inst]) == LoadSum(insts) + inst.loads
    decreases |insts|
  {
    if |insts| == 0 {
      assert insts + [inst] == [inst];
    } else {
      assert (insts + [inst])[1..] == insts[1..] + [inst];
      LoadSumAppend(insts[1..], inst);
    }
  }

  /** The total is at most the number of editors when each issued at most one load. */
  lemma {:induction false} LoadSumBound(insts: seq<Instance>)
    requires forall i :: 0 <= i < |insts| ==> insts[i].loads <= 1
    ensures LoadSum(insts) <= |insts|
    decreases |insts|
  {
    if |insts| > 0 {
      LoadSumBound(insts[1..]);
    }
  }

  /** Every event keeps the invariant. */
  lemma StepPreservesInv(g: Gate, e: Event)
    requires Inv(g)
    ensures Inv(Step(g, e))
  {
    match e
    case Mount =>
      var inst := Instance(InitialState(g.scriptLoaded), 0);
      var added := Gate(g.scriptLoaded, g.instances + [inst], g.inFlight, g.loadsIssued);
      LoadSumAppend(g.instances, inst);
      var r := RenderStep(added, |g.instances|);
      if g.scriptLoaded {
        assert r == added;
      } else {
        LoadSumUpdate(added.instances, |g.instances|, Instance(Loading, 1));
      }
    case Render(i) =>
    case Complete(j) =>
      if j < |g.inFlight| {
        var i := g.inFlight[j];
        LoadSumUpdate(g.instances, i, Instance(Loaded, g.instances[i].loads));
      }
    case Init(i) =>
      if i < |g.instances| && g.scriptLoaded {
        LoadSumUpdate(g.instances, i, Instance(Initialized, g.instances[i].loads));
      }
  }

  /** Every run keeps the invariant. */
  lemma {:induction false} RunPreservesInv(g: Gate, events: seq<Event>)
    requires Inv(g)
    ensures Inv(Run(g, events))
    decreases |events|
  {
    if |events| > 0 {
      StepPreservesInv(g, events[0]);
      RunPreservesInv(Step(g, events[0]), events[1..]);
    }
  }

  /**
   From the start, whatever happens: each editor issues at most one load, so
   there are never more loads than editors; and an editor that reached Loaded
   or Initialized did so only with the flag set.
   */
  lemma AtMostOneLoadPerEditor(events: seq<Event>)
    ensures forall i :: 0 <= i < |Run(Start, events).instances| ==> Run(Start, events).instances[i].loads <= 1
    ensures Run(Start, events).loadsIssued <= |Run(Start, events).instances|
  {
    assert Inv(Start);
    RunPreservesInv(Start, events);
    var g := Run(Start, events);
    LoadSumBound(g.instances);
  }

  /** A load is issued only by an editor that was NotLoaded, which leaves that state at once. */
  lemma LoadOnlyFromNotLoaded(g: Gate, i: nat)
    requires i < |g.instances|
    ensures RenderStep(g, i).loadsIssued > g.loadsIssued <==> g.instances[i].state == NotLoaded
    ensures RenderStep(g, i).instances[i].state != NotLoaded
  {
  }

  /** The spinner shows exactly while the flag is false, the same for every editor whatever its state. */
  lemma SpinnerFollowsFlag(g: Gate, i: nat, k: nat)
    requires i < |g.instances| && k < |g.instances|
    ensures ViewOf(g, i) == Spinner <==> !g.scriptLoaded
    ensures ViewOf(g, i) == ViewOf(g, k)
  {
  }

  /** Once the flag is set every later editor starts Loaded and issues no load. */
  lemma {:induction false} LoadedFlagStopsLoads(g: Gate, events: seq<Event>)
    requires Inv(g) && g.scriptLoaded
    ensures Run(g, events).loadsIssued == g.loadsIssued
    decreases |events|
  {
    if |events| > 0 {
      var g1 := Step(g, events[0]);
      StepPreservesInv(g, events[0]);
      LoadedFlagStopsLoads(g1, events[1..]);
    }
  }

  /**
   Two editors mounted before any load completes issue a load each: the
   flag is process-wide but the guard is per editor, so loads are not
   shared between editors.
   */
  lemma TwoEditorsLoadTwice()
    ensures Run(Start, [Mount, Mount]).loadsIssued == 2
    ensures |Run(Start, [Mount, Mount]).inFlight| == 2
  {
    var g1 := Step(Start, Mount);
    assert g1.loadsIssued == 1 && |g1.inFlight| == 1 && |g1.instances| == 1 && !g1.scriptLoaded;
    var g2 := Step(g1, Mount);
    assert g2.loadsIssued == 2 && |g2.inFlight| == 2;
    assert [Mount, Mount][1..] == [Mount];
  }

  /**
   An editor can fall back from Initialized to Loaded: the first editor's
   load completes, the second editor (still Loading) draws TinyMCE and is
   initialized, and then its own load completes.
   */
  lemma InitializedCanRevert()
    ensures Run(Start, [Mount, Mount, Complete(0), Init(1)]).instances[1].state == Initialized
    ensures Run(Start, [Mount, Mount, Complete(0), Init(1), Complete(0)]).instances[1].state == Loaded
  {
    var g2 := Run(Start, [Mount, Mount]);
    assert g2.inFlight == [0, 1] && |g2.instances| == 2 by {
      TwoEditorsLoadTwice();
      var g1 := Step(Start, Mount);
      assert g1.inFlight == [0];
      assert [Mount, Mount][1..] == [Mount];
    }
    var g3 := Step(g2, Complete(0));
    assert g3.inFlight == [1] && g3.scriptLoaded by {
      RemoveHead(g2.inFlight);
    }
    var g4 := Step(g3, Init(1));
    assert g4.instances[1].state == Initialized;
    var g5 := Step(g4, Complete(0));
    assert g5.instances[1].state == Loaded;
    RunSplits(Start, [Mount, Mount], [Complete(0), Init(1)]);
    RunSplits(Start, [Mount, Mount], [Complete(0), Init(1), Complete(0)]);
    assert [Mount, Mount] + [Complete(0), Init(1)] == [Mount, Mount, Complete(0), Init(1)];
    assert [Mount, Mount] + [Complete(0), Init(1), Complete(0)] == [Mount, Mount, Complete(0), Init(1), Complete(0)];
  }

  /** Running two stretches of events one after the other is running them together. */
  lemma {:induction false} RunSplits(g: Gate, xs: seq<Event>, ys: seq<Event>)
    ensures Run(g, xs + ys) == Run(Run(g, xs), ys)
    decreases |xs|
  {
    if |xs| == 0 {
      assert xs + ys == ys;
    } else {
      assert (xs + ys)[0] == xs[0];
      assert (xs + ys)[1..] == xs[1..] + ys;
      RunSplits(Step(g, xs[0]), xs[1..], ys);
    }
  }
}
