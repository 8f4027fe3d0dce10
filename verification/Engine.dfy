/** The interpreter's engine (microstep.go): the state it keeps, one step, commit, and
    what holds over whole runs. */
module Engines {
  import opened Definitions
  import opened Configurations
  import opened Entry
  import opened Selection
  import opened Microsteps
  import opened Histories
  import opened Staging
  import opened Completions

  datatype Status = Starting | Running | Done | Error | Stopped
  {
    predicate Terminal() { Done? || Error? || Stopped? }
  }

  datatype Reason = AlwaysLoopExceeded | ObserverFailed(cause: string)

  datatype Queued = Queued(descriptor: string, payload: Payload)

  datatype Chart = Chart(d: Definition, b: Behavior, alwaysLimit: nat)

  const DEFAULT_ALWAYS_LIMIT: nat := 100

  datatype State = State(
    cfg: set<Node>,
    ctx: Ctx,
    hist: Hist,
    internalQueue: seq<Queued>,
    pendingExternal: Option<Queued>,
    alwaysRun: nat,
    status: Status,
    errReason: Option<Reason>,
    lastEvt: Payload)

  /** A guard passes when absent or when the injected closure says so. */
  function Pass(b: Behavior, ctx: Ctx, evt: Payload): Transition -> bool
  {
    (t: Transition) => t.guard == None || b.evalGuard(t.guard.value.callsite, ctx, evt)
  }

  /** What the engine needs to be run at all, and what every run keeps, on any well-formed
      chart and whatever was recorded. */
  ghost predicate Runnable(c: Chart, s: State)
  {
    WellFormed(c.d) && Rooted(c.d, s.cfg) && EntryReady(c.d, s.hist)
  }

  /** The same with a legal configuration, single records, and a chart that keeps it so. */
  ghost predicate Sound(c: Chart, s: State)
  {
    Runnable(c, s) && Tame(c.d) && Legal(c.d, s.cfg) && Singles(c.d, s.hist)
  }

  lemma RunnableTree(c: Chart, s: State)
    requires Runnable(c, s)
    ensures IsTree(c.d)
  {
  }

  /** Queues play no part in it. */
  lemma RunnableQueues(c: Chart, s: State, s1: State)
    requires Runnable(c, s) && s1.cfg == s.cfg && s1.hist == s.hist
    ensures Runnable(c, s1)
  {
  }

  lemma SoundRunnable(c: Chart, s: State)
    requires Sound(c, s)
    ensures Runnable(c, s) && IsTree(c.d) && HistoryOk(c.d, s.hist)
  {
    SinglesOk(c.d, s.hist);
  }

  function Matching(c: Chart, s: State, trigger: Trigger, evt: Payload): seq<Transition>
    requires IsTree(c.d)
  {
    Select(c.d, s.cfg, trigger, Pass(c.b, s.ctx, evt))
  }

  /** What matches is a conflict-free set of edges that may fire. */
  lemma MatchingChooses(c: Chart, s: State, trigger: Trigger, evt: Payload)
    requires Runnable(c, s)
    ensures Selected(c.d, s.cfg, Matching(c, s, trigger, evt))
    ensures forall t | t in Matching(c, s, trigger, evt) ::
              Fires(trigger, Pass(c.b, s.ctx, evt), t) && IsEdge(c.d, t) && t in Offered(c.d, trigger, t.source)
  {
    SelectChooses(c.d, s.cfg, trigger, Pass(c.b, s.ctx, evt));
  }

  // ------------------------------------------------------------------ one step

  lemma ExitsKnown(c: Chart, s: State, ts: seq<Transition>)
    requires Runnable(c, s)
    ensures UnionOfExits(c.d, s.cfg, ts) <= s.cfg && forall n | n in UnionOfExits(c.d, s.cfg, ts) :: InTree(c.d, n)
  {
    ExitsBelowDomains(c.d, s.cfg, ts);
  }

  ghost function MicrostepFor(c: Chart, s: State, ts: seq<Transition>, evt: Payload, triggered: bool): Staged
    requires Runnable(c, s) && Selected(c.d, s.cfg, ts)
  {
    StagedRooted(c.d, s.hist, s.cfg, ts);
    ExitsKnown(c, s, ts);
    DescendingSorted(UnionOfExits(c.d, s.cfg, ts), |c.d.nodes|);
    StageStep(c.d, c.b, s.cfg, s.ctx, s.hist, Descending(UnionOfExits(c.d, s.cfg, ts), |c.d.nodes|), ts,
              EntrySetOf(c.d, s.hist, ts), evt, triggered)
  }

  datatype Outcome = Settled | Next(ms: Staged)

  ghost function StepInternal(c: Chart, s: State): (State, Outcome)
    requires Runnable(c, s)
    decreases |s.internalQueue|
  {
    if s.internalQueue == [] then StepExternal(c, s)
    else
      var qe := s.internalQueue[0];
      var s1 := s.(internalQueue := s.internalQueue[1..]);
      MatchingChooses(c, s, OnEvent(qe.descriptor), qe.payload);
      var ts := Matching(c, s, OnEvent(qe.descriptor), qe.payload);
      if ts != [] then (s1.(lastEvt := qe.payload), Next(MicrostepFor(c, s1, ts, qe.payload, true)))
      else StepInternal(c, s1)
  }

  ghost function StepExternal(c: Chart, s: State): (State, Outcome)
    requires Runnable(c, s)
  {
    match s.pendingExternal
    case None => (s, Settled)
    case Some(qe) =>
      var s1 := s.(pendingExternal := None);
      MatchingChooses(c, s, OnEvent(qe.descriptor), qe.payload);
      var ts := Matching(c, s, OnEvent(qe.descriptor), qe.payload);
      if ts != [] then (s1.(lastEvt := qe.payload), Next(MicrostepFor(c, s1, ts, qe.payload, true)))
      else (s1, Settled)
  }

  /** Eventless edges first, then internal events, then the pending external event. */
  ghost function Step(c: Chart, s: State): (State, Outcome)
    requires Runnable(c, s)
  {
    MatchingChooses(c, s, Always, c.b.zero);
    var ts := Matching(c, s, Always, c.b.zero);
    if ts == [] then StepInternal(c, s)
    else if s.alwaysRun >= c.alwaysLimit then (s.(status := Error, errReason := Some(AlwaysLoopExceeded)), Settled)
    else (s.(alwaysRun := s.alwaysRun + 1, lastEvt := c.b.zero), Next(MicrostepFor(c, s, ts, c.b.zero, false)))
  }

  function DoneQueue(b: Behavior, names: seq<string>): seq<Queued>
  {
    if names == [] then [] else [Queued(names[0], b.zero)] + DoneQueue(b, names[1..])
  }

  function CommitState(c: Chart, s: State, ms: Staged): State
  {
    s.(cfg := ms.cfg, hist := ms.hist, ctx := ms.ctx,
       internalQueue := s.internalQueue + DoneQueue(c.b, ms.internalEnqueue),
       status := if ms.reachedFinal then Done else if s.status == Starting then Running else s.status,
       alwaysRun := if ms.triggered then 0 else s.alwaysRun)
  }

  function InitialState(b: Behavior, ctx: Ctx): State
  {
    State({}, ctx, map[], [], None, 0, Starting, None, b.zero)
  }

  lemma StartEnters(c: Chart)
    requires WellFormed(c.d)
    ensures EntryReady(c.d, map[]) && HistoryOk(c.d, map[]) && Singles(c.d, map[])
    ensures Legal(c.d, AddDescendants(c.d, map[], ROOT, {}))
  {
    SinglesOk(c.d, map[]);
    StartLegal(c.d, map[]);
  }

  ghost function StartStep(c: Chart, ctx: Ctx): Staged
    requires WellFormed(c.d)
  {
    StartEnters(c);
    StageStep(c.d, c.b, {}, ctx, map[], [], [], AddDescendants(c.d, map[], ROOT, {}), c.b.zero, false)
  }

  /** The engine right after its start microstep is committed. */
  ghost function Started(c: Chart, ctx: Ctx): State
    requires WellFormed(c.d)
  {
    CommitState(c, InitialState(c.b, ctx), StartStep(c, ctx))
  }

  // ------------------------------------------------------------------ what a step stages

  /** How a staged microstep relates to the state it was computed from. */
  ghost predicate StagesMicrostep(c: Chart, s: State, ms: Staged)
    requires Runnable(c, s)
  {
    && Selected(c.d, s.cfg, ms.transitions)
    && (forall t | t in ms.transitions :: EndsInTree(c.d, t) && IsEdge(c.d, t))
    && ms.cfg == StagedConfiguration(c.d, s.hist, s.cfg, ms.transitions)
    && (forall n | n in ms.exited :: InTree(c.d, n) && n in s.cfg)
    && ms.hist == RecordAll(c.d, s.cfg, ms.exited, s.hist)
    && Members(ms.exited) == UnionOfExits(c.d, s.cfg, ms.transitions)
    && StrictlyDescending(ms.exited)
    && AllInTree(c.d, ms.entered) && StrictlyAscending(ms.entered)
    && Members(ms.entered) == EntrySetOf(c.d, s.hist, ms.transitions)
    && ms.internalEnqueue == DoneEvents(c.d, Completed(c.d, s.cfg - Members(ms.exited), ms.entered))
    && ms.prevActive == Ids(c.d, Leaves(c.d, s.cfg)) && ms.nextActive == Ids(c.d, Leaves(c.d, ms.cfg))
  }

  lemma StagesFor(c: Chart, s: State, ts: seq<Transition>, evt: Payload, triggered: bool)
    requires Runnable(c, s) && Selected(c.d, s.cfg, ts) && forall t | t in ts :: IsEdge(c.d, t)
    ensures StagesMicrostep(c, s, MicrostepFor(c, s, ts, evt, triggered))
  {
    StagedRooted(c.d, s.hist, s.cfg, ts);
    ExitsKnown(c, s, ts);
    DescendingSorted(UnionOfExits(c.d, s.cfg, ts), |c.d.nodes|);
    var ms := MicrostepFor(c, s, ts, evt, triggered);
    assert Members(ms.exited) == UnionOfExits(c.d, s.cfg, ts);
    AscendingSorted(EntrySetOf(c.d, s.hist, ts), |c.d.nodes|);
    assert Members(ms.entered) == EntrySetOf(c.d, s.hist, ts);
  }

  /** What a step leaves alone: configuration, context and history change only by commit. */
  ghost predicate Untouched(s: State, s': State)
  {
    s'.cfg == s.cfg && s'.ctx == s.ctx && s'.hist == s.hist
  }

  lemma {:induction false} InternalStages(c: Chart, s: State)
    requires Runnable(c, s)
    ensures Untouched(s, StepInternal(c, s).0) && StepInternal(c, s).0.alwaysRun == s.alwaysRun
    ensures StepInternal(c, s).0.status == s.status
    ensures StepInternal(c, s).1.Next? ==>
            StagesMicrostep(c, s, StepInternal(c, s).1.ms) && StepInternal(c, s).1.ms.triggered
    decreases |s.internalQueue|
  {
    hide WellFormed, Rooted, EntryReady, Selected, Select, Fires, Offered, IsEdge, EndsInTree;
    RunnableTree(c, s);
    if s.internalQueue == [] {
      if s.pendingExternal.Some? {
        var qe := s.pendingExternal.value;
        EventStages(c, s, s.(pendingExternal := None), qe);
      }
    } else {
      var qe := s.internalQueue[0];
      var s1 := s.(internalQueue := s.internalQueue[1..]);
      EventStages(c, s, s1, qe);
      if Matching(c, s, OnEvent(qe.descriptor), qe.payload) == [] { InternalStages(c, s1); }
    }
  }

  /** With no eventless edge enabled, an internal event that matches is taken first. */
  lemma StepTakesInternal(c: Chart, s: State, ts: seq<Transition>)
    requires Runnable(c, s) && Matching(c, s, Always, c.b.zero) == [] && s.internalQueue != [] && ts != []
    requires ts == Matching(c, s, OnEvent(s.internalQueue[0].descriptor), s.internalQueue[0].payload)
    ensures Selected(c.d, s.cfg, ts)
    ensures var q, s1 := s.internalQueue[0], s.(internalQueue := s.internalQueue[1..]);
            Step(c, s) == (s1.(lastEvt := q.payload), Next(MicrostepFor(c, s1, ts, q.payload, true)))
  {
    hide Select, Selected, MicrostepFor, WellFormed, Rooted, EntryReady;
    RunnableTree(c, s);
    MatchingChooses(c, s, OnEvent(s.internalQueue[0].descriptor), s.internalQueue[0].payload);
  }

  /** And with no internal event either, the pending external event is. */
  lemma StepTakesExternal(c: Chart, s: State, ts: seq<Transition>)
    requires Runnable(c, s) && Matching(c, s, Always, c.b.zero) == [] && s.internalQueue == [] && ts != []
    requires s.pendingExternal.Some?
    requires ts == Matching(c, s, OnEvent(s.pendingExternal.value.descriptor), s.pendingExternal.value.payload)
    ensures Selected(c.d, s.cfg, ts)
    ensures var q, s1 := s.pendingExternal.value, s.(pendingExternal := None);
            Step(c, s) == (s1.(lastEvt := q.payload), Next(MicrostepFor(c, s1, ts, q.payload, true)))
  {
    hide Select, Selected, MicrostepFor, WellFormed, Rooted, EntryReady;
    RunnableTree(c, s);
    MatchingChooses(c, s, OnEvent(s.pendingExternal.value.descriptor), s.pendingExternal.value.payload);
  }

  lemma MicrostepFields(c: Chart, s: State, ts: seq<Transition>, evt: Payload, triggered: bool)
    requires Runnable(c, s) && Selected(c.d, s.cfg, ts)
    ensures var ms := MicrostepFor(c, s, ts, evt, triggered);
            && ms.transitions == ts && ms.triggered == triggered
            && AllInTree(c.d, ms.entered) && (ms.reachedFinal <==> ReachesFinal(c.d, ms.entered))
  {
    StagedRooted(c.d, s.hist, s.cfg, ts);
    AscendingSorted(EntrySetOf(c.d, s.hist, ts), |c.d.nodes|);
  }

  /** Queues play no part in what a microstep stages. */
  lemma EventStages(c: Chart, s: State, s1: State, qe: Queued)
    requires Runnable(c, s) && Untouched(s, s1)
    ensures Selected(c.d, s.cfg, Matching(c, s, OnEvent(qe.descriptor), qe.payload))
    ensures var ts := Matching(c, s, OnEvent(qe.descriptor), qe.payload);
            StagesMicrostep(c, s, MicrostepFor(c, s1, ts, qe.payload, true))
  {
    MatchingChooses(c, s, OnEvent(qe.descriptor), qe.payload);
    StagesFor(c, s1, Matching(c, s, OnEvent(qe.descriptor), qe.payload), qe.payload, true);
  }

  // ------------------------------------------------------------------ what a step takes

  datatype Source = Eventless | Queue(place: nat) | Outside

  /** The events before place k of the queue select nothing. */
  ghost predicate Dropped(c: Chart, s: State, k: nat)
    requires IsTree(c.d) && k <= |s.internalQueue|
  {
    forall j | 0 <= j < k ::
      Matching(c, s, OnEvent(s.internalQueue[j].descriptor), s.internalQueue[j].payload) == []
  }

  /** What a step does before it stages anything: eventless edges come first and count against
      the limit; else the first queued event that selects something is taken, and those before
      it are dropped; else all of them are, and the pending external event is taken. */
  ghost predicate TakenFrom(c: Chart, s: State, from: Source, trigger: Trigger, evt: Payload, s': State)
    requires IsTree(c.d)
  {
    match from
    case Eventless =>
      && trigger == Always && evt == c.b.zero && s.alwaysRun < c.alwaysLimit
      && s' == s.(alwaysRun := s.alwaysRun + 1, lastEvt := evt)
    case Queue(k) =>
      && Matching(c, s, Always, c.b.zero) == [] && k < |s.internalQueue| && Dropped(c, s, k)
      && trigger == OnEvent(s.internalQueue[k].descriptor) && evt == s.internalQueue[k].payload
      && s' == s.(internalQueue := s.internalQueue[k + 1..], lastEvt := evt)
    case Outside =>
      && Matching(c, s, Always, c.b.zero) == [] && Dropped(c, s, |s.internalQueue|) && s.pendingExternal.Some?
      && trigger == OnEvent(s.pendingExternal.value.descriptor) && evt == s.pendingExternal.value.payload
      && s' == s.(internalQueue := [], pendingExternal := None, lastEvt := evt)
  }

  lemma DroppedOneMore(c: Chart, s: State, s1: State, k: nat)
    requires IsTree(c.d) && s.internalQueue != [] && s1 == s.(internalQueue := s.internalQueue[1..])
    requires Matching(c, s, OnEvent(s.internalQueue[0].descriptor), s.internalQueue[0].payload) == []
    requires k <= |s1.internalQueue| && Dropped(c, s1, k)
    ensures Dropped(c, s, k + 1)
  {
    hide Select;
    forall j | 0 <= j < k + 1
      ensures Matching(c, s, OnEvent(s.internalQueue[j].descriptor), s.internalQueue[j].payload) == []
    {
      if j > 0 {
        var q := s1.internalQueue[j - 1];
        assert q == s.internalQueue[j] && Matching(c, s1, OnEvent(q.descriptor), q.payload) == [];
      }
    }
  }

  lemma SameMicrostep(c: Chart, s: State, s1: State, ts: seq<Transition>, evt: Payload)
    requires Runnable(c, s) && Untouched(s, s1) && Selected(c.d, s.cfg, ts)
    ensures Runnable(c, s1) && MicrostepFor(c, s1, ts, evt, true) == MicrostepFor(c, s, ts, evt, true)
  {
    hide WellFormed, Rooted, EntryReady, Selected, StageStep;
  }

  lemma {:induction false} InternalTakes(c: Chart, s: State) returns (from: Source, trigger: Trigger, evt: Payload)
    requires Runnable(c, s) && Matching(c, s, Always, c.b.zero) == [] && StepInternal(c, s).1.Next?
    ensures IsTree(c.d) && TakenFrom(c, s, from, trigger, evt, StepInternal(c, s).0) && from != Eventless
    ensures var ts := Matching(c, s, trigger, evt);
            && ts != [] && Selected(c.d, s.cfg, ts) && StepInternal(c, s).1.ms == MicrostepFor(c, s, ts, evt, true)
    decreases |s.internalQueue|
  {
    hide WellFormed, Rooted, EntryReady, Selected, Select, MicrostepFor;
    RunnableTree(c, s);
    if s.internalQueue == [] {
      var qe := s.pendingExternal.value;
      from, trigger, evt := Outside, OnEvent(qe.descriptor), qe.payload;
      MatchingChooses(c, s, trigger, evt);
      SameMicrostep(c, s, s.(pendingExternal := None), Matching(c, s, trigger, evt), evt);
    } else {
      var qe, s1 := s.internalQueue[0], s.(internalQueue := s.internalQueue[1..]);
      MatchingChooses(c, s, OnEvent(qe.descriptor), qe.payload);
      var ts := Matching(c, s, OnEvent(qe.descriptor), qe.payload);
      if ts != [] {
        from, trigger, evt := Queue(0), OnEvent(qe.descriptor), qe.payload;
        SameMicrostep(c, s, s1, ts, evt);
      } else {
        var from1;
        from1, trigger, evt := InternalTakes(c, s1);
        from := if from1.Queue? then Queue(from1.place + 1) else from1;
        DroppedOneMore(c, s, s1, if from1.Queue? then from1.place else |s1.internalQueue|);
        MatchingChooses(c, s, trigger, evt);
        SameMicrostep(c, s, s1, Matching(c, s, trigger, evt), evt);
        assert from1.Queue? ==> s1.internalQueue[from1.place + 1..] == s.internalQueue[from1.place + 2..];
      }
    }
  }

  /** What a step that stages something takes, and that it stages the microstep of exactly the
      edges selected for it. */
  lemma StepTakes(c: Chart, s: State) returns (from: Source, trigger: Trigger, evt: Payload)
    requires Runnable(c, s) && Step(c, s).1.Next?
    ensures IsTree(c.d) && TakenFrom(c, s, from, trigger, evt, Step(c, s).0)
    ensures var ts := Matching(c, s, trigger, evt);
            && ts != [] && Selected(c.d, s.cfg, ts)
            && Step(c, s).1.ms == MicrostepFor(c, s, ts, evt, from != Eventless)
  {
    hide WellFormed, Rooted, EntryReady, Selected, Select, MicrostepFor, StepInternal;
    RunnableTree(c, s);
    MatchingChooses(c, s, Always, c.b.zero);
    if Matching(c, s, Always, c.b.zero) == [] {
      from, trigger, evt := InternalTakes(c, s);
    } else {
      from, trigger, evt := Eventless, Always, c.b.zero;
    }
  }

  lemma {:induction false} InternalLeaves(c: Chart, s: State)
    requires Runnable(c, s) && StepInternal(c, s).1.Settled?
    ensures IsTree(c.d) && Dropped(c, s, |s.internalQueue|)
    ensures s.pendingExternal.Some? ==>
              Matching(c, s, OnEvent(s.pendingExternal.value.descriptor), s.pendingExternal.value.payload) == []
    ensures StepInternal(c, s).0 == s.(internalQueue := [], pendingExternal := None)
    decreases |s.internalQueue|
  {
    hide WellFormed, Rooted, EntryReady, Selected, Select, MicrostepFor;
    RunnableTree(c, s);
    if s.internalQueue == [] {
    } else {
      var qe, s1 := s.internalQueue[0], s.(internalQueue := s.internalQueue[1..]);
      RunnableQueues(c, s, s1);
      InternalLeaves(c, s1);
      DroppedOneMore(c, s, s1, |s1.internalQueue|);
    }
  }

  /** A step that stages nothing: the engine gives up exactly if an eventless edge is selected
      and the limit is reached; else nothing matches and every event is dropped. */
  lemma StepLeaves(c: Chart, s: State)
    requires Runnable(c, s)
    ensures IsTree(c.d)
    ensures Matching(c, s, Always, c.b.zero) != [] && s.alwaysRun >= c.alwaysLimit ==>
              Step(c, s).1.Settled? && Step(c, s).0 == s.(status := Error, errReason := Some(AlwaysLoopExceeded))
    ensures Step(c, s).1.Settled? && !(Matching(c, s, Always, c.b.zero) != [] && s.alwaysRun >= c.alwaysLimit) ==>
              && Matching(c, s, Always, c.b.zero) == [] && Dropped(c, s, |s.internalQueue|)
              && (s.pendingExternal.Some? ==>
                    Matching(c, s, OnEvent(s.pendingExternal.value.descriptor), s.pendingExternal.value.payload) == [])
              && Step(c, s).0 == s.(internalQueue := [], pendingExternal := None)
    ensures s.status != Error ==>
              (Step(c, s).0.status == Error <==>
                 Matching(c, s, Always, c.b.zero) != [] && s.alwaysRun >= c.alwaysLimit)
  {
    hide WellFormed, Rooted, EntryReady, Selected, Select, MicrostepFor, StepInternal, Dropped;
    RunnableTree(c, s);
    MatchingChooses(c, s, Always, c.b.zero);
    if Matching(c, s, Always, c.b.zero) == [] {
      InternalKeepsStatus(c, s);
      if StepInternal(c, s).1.Settled? { InternalLeaves(c, s); }
    }
  }

  lemma InternalKeepsStatus(c: Chart, s: State)
    requires Runnable(c, s)
    ensures StepInternal(c, s).0.status == s.status
  {
    InternalStages(c, s);
  }

  /** A guard is evaluated on the live context and the event taken. */
  lemma PassMeaning(b: Behavior, ctx: Ctx, evt: Payload, u: Transition)
    ensures Pass(b, ctx, evt)(u) <==> u.guard == None || b.evalGuard(u.guard.value.callsite, ctx, evt)
  {
  }

  /** Every edge that a step takes has passed its guard and is what some active leaf finds,
      looking outwards. */
  lemma StepChooses(c: Chart, s: State) returns (trigger: Trigger)
    requires Runnable(c, s) && Step(c, s).1.Next?
    ensures IsTree(c.d) && if Step(c, s).1.ms.triggered then trigger.OnEvent? else trigger == Always
    ensures var evt := Step(c, s).0.lastEvt;
            forall t | t in Step(c, s).1.ms.transitions ::
              && (t.guard == None || c.b.evalGuard(t.guard.value.callsite, s.ctx, evt))
              && exists leaf :: leaf in s.cfg && IsLeaf(c.d, leaf)
                   && Innermost(c.d, trigger, Pass(c.b, s.ctx, evt), leaf, t)
  {
    hide WellFormed, Rooted, EntryReady, Selected, Select, MicrostepFor, Innermost, Step, Dropped, Pass, Fires;
    RunnableRooted(c, s);
    var from, on, evt := StepTakes(c, s);
    trigger := on;
    var ts := Matching(c, s, trigger, evt);
    ChosenInnermost(c, s, trigger, evt);
    MicrostepFields(c, s, ts, evt, from != Eventless);
    forall t | t in ts ensures t.guard == None || c.b.evalGuard(t.guard.value.callsite, s.ctx, evt) {
      PassMeaning(c.b, s.ctx, evt, t);
    }
  }

  lemma ChosenInnermost(c: Chart, s: State, trigger: Trigger, evt: Payload)
    requires Runnable(c, s)
    ensures IsTree(c.d)
    ensures forall t | t in Matching(c, s, trigger, evt) ::
              && Pass(c.b, s.ctx, evt)(t)
              && exists leaf :: leaf in s.cfg && IsLeaf(c.d, leaf)
                   && Innermost(c.d, trigger, Pass(c.b, s.ctx, evt), leaf, t)
  {
    hide Innermost, Select, Pass, Selected;
    MatchingChooses(c, s, trigger, evt);
    SelectInnermost(c.d, s.cfg, trigger, Pass(c.b, s.ctx, evt));
  }

  lemma RunnableRooted(c: Chart, s: State)
    requires Runnable(c, s)
    ensures IsTree(c.d) && Rooted(c.d, s.cfg)
  {
  }

  /** The context and the outbox of a staged microstep come from running, on the event evt, the
      exit actions of the exited states in their order, then the actions of the transitions,
      then the entry actions of the entered states in theirs. */
  ghost predicate RunsActions(c: Chart, s: State, evt: Payload, ms: Staged)
  {
    && AllInTree(c.d, ms.exited) && AllInTree(c.d, ms.entered)
    && var calls := Flat(ExitCalls(c.d, ms.exited)) + Flat(TransitionCalls(ms.transitions))
                    + Flat(EntryCalls(c.d, ms.entered));
       RunsTo(c.b, evt, calls, Pending(s.ctx, []), Pending(ms.ctx, ms.effects))
  }

  lemma MicrostepRuns(c: Chart, s: State, ts: seq<Transition>, evt: Payload, triggered: bool)
    requires Runnable(c, s) && Selected(c.d, s.cfg, ts)
    ensures RunsActions(c, s, evt, MicrostepFor(c, s, ts, evt, triggered))
  {
    hide WellFormed, Rooted, EntryReady, Selected, RunsTo, RunActions, ActionOrder;
    RunnableTree(c, s);
    StagedRooted(c.d, s.hist, s.cfg, ts);
    ExitsKnown(c, s, ts);
    DescendingSorted(UnionOfExits(c.d, s.cfg, ts), |c.d.nodes|);
    AscendingSorted(EntrySetOf(c.d, s.hist, ts), |c.d.nodes|);
    var ms := MicrostepFor(c, s, ts, evt, triggered);
    ActionsInOrder(c.d, c.b, evt, ms.exited, ts, ms.entered, Pending(s.ctx, []));
  }

  /** What a step stages was computed on the event it takes. */
  lemma StepRuns(c: Chart, s: State)
    requires Runnable(c, s) && Step(c, s).1.Next?
    ensures RunsActions(c, s, Step(c, s).0.lastEvt, Step(c, s).1.ms)
  {
    hide WellFormed, Rooted, EntryReady, Selected, Select, MicrostepFor, RunsActions, Step, Dropped;
    var from, trigger, evt := StepTakes(c, s);
    MicrostepRuns(c, s, Matching(c, s, trigger, evt), evt, from != Eventless);
  }

  /** So does the start microstep, on the zero event, and it exits nothing. */
  lemma StartRuns(c: Chart, ctx: Ctx)
    requires WellFormed(c.d)
    ensures RunsActions(c, InitialState(c.b, ctx), c.b.zero, StartStep(c, ctx))
    ensures StartStep(c, ctx).exited == [] && StartStep(c, ctx).transitions == []
  {
    hide WellFormed, RunsTo, RunActions, ActionOrder, Legal;
    TreeInOrder(c.d);
    StartEnters(c);
    LegalRooted(c.d, AddDescendants(c.d, map[], ROOT, {}));
    AscendingSorted(AddDescendants(c.d, map[], ROOT, {}), |c.d.nodes|);
    var ms := StartStep(c, ctx);
    ActionsInOrder(c.d, c.b, c.b.zero, [], [], ms.entered, Pending(ctx, []));
  }

  /** A microstep ends the machine exactly if it enters a final child of the root. */
  lemma EndsExactly(d: Definition, entered: seq<Node>)
    requires WellFormed(d) && AllInTree(d, entered)
    ensures ReachesFinal(d, entered) <==>
              exists n :: n in entered && Kind(d, n) == Final && Parent(d, n) == Some(ROOT)
  {
    forall n | n in entered ensures EndsMachine(d, n) <==> Kind(d, n) == Final && Parent(d, n) == Some(ROOT) {
      if Parent(d, n) == None { assert n == ROOT; }
    }
  }

  /** What a commit does to the queue, the status and the loop counter: completion events go
      behind those waiting, in order and with the zero payload; a microstep that an event
      triggered resets the counter. */
  lemma CommitExactly(c: Chart, s: State, ms: Staged)
    ensures var q, names, s' := s.internalQueue, ms.internalEnqueue, CommitState(c, s, ms);
            && |s'.internalQueue| == |q| + |names| && q <= s'.internalQueue
            && (forall i | 0 <= i < |names| :: s'.internalQueue[|q| + i] == Queued(names[i], c.b.zero))
            && s'.cfg == ms.cfg && s'.hist == ms.hist && s'.ctx == ms.ctx
            && s'.pendingExternal == s.pendingExternal && s'.lastEvt == s.lastEvt && s'.errReason == s.errReason
            && (s'.status == Done <==> ms.reachedFinal || s.status == Done)
            && (s.status == Starting && !ms.reachedFinal ==> s'.status == Running)
            && (s.status != Starting && !ms.reachedFinal ==> s'.status == s.status)
            && (ms.triggered ==> s'.alwaysRun == 0) && (!ms.triggered ==> s'.alwaysRun == s.alwaysRun)
  {
    DoneQueueIs(c.b, ms.internalEnqueue);
  }

  lemma {:induction false} DoneQueueIs(b: Behavior, names: seq<string>)
    ensures |DoneQueue(b, names)| == |names|
    ensures forall i | 0 <= i < |names| :: DoneQueue(b, names)[i] == Queued(names[i], b.zero)
  {
    if names == [] {
    } else {
      DoneQueueIs(b, names[1..]);
    }
  }

  /** One step: the live configuration, context and history are left alone, the loop counter
      grows exactly by eventless microsteps, what is staged belongs to a selected set, and its
      context and outbox come from running all actions in order. */
  lemma StepStages(c: Chart, s: State)
    requires Runnable(c, s)
    ensures Untouched(s, Step(c, s).0)
    ensures Step(c, s).1.Next? ==>
              && StagesMicrostep(c, s, Step(c, s).1.ms) && Step(c, s).0.status == s.status
              && RunsActions(c, s, Step(c, s).0.lastEvt, Step(c, s).1.ms)
              && (if Step(c, s).1.ms.triggered then Step(c, s).0.alwaysRun == s.alwaysRun
                  else s.alwaysRun < c.alwaysLimit && Step(c, s).0.alwaysRun == s.alwaysRun + 1)
    ensures Step(c, s).1.Settled? ==> Step(c, s).0.alwaysRun == s.alwaysRun
  {
    hide WellFormed, Rooted, EntryReady, Selected, Select, Fires, Offered, IsEdge, StagesMicrostep, StepInternal;
    RunnableTree(c, s);
    MatchingChooses(c, s, Always, c.b.zero);
    var ts := Matching(c, s, Always, c.b.zero);
    if ts == [] { InternalStages(c, s); } else { StagesFor(c, s, ts, c.b.zero, false); }
    if Step(c, s).1.Next? { StepRuns(c, s); }
  }

  lemma StagesRunnable(c: Chart, s: State, ms: Staged)
    requires Runnable(c, s) && StagesMicrostep(c, s, ms)
    ensures Rooted(c.d, ms.cfg) && EntryReady(c.d, ms.hist)
  {
    StagedRooted(c.d, s.hist, s.cfg, ms.transitions);
    RecordAllReady(c.d, s.cfg, ms.exited, s.hist);
  }

  /** The engine stays runnable, whatever the chart. */
  lemma StepRunnable(c: Chart, s: State)
    requires Runnable(c, s)
    ensures Runnable(c, Step(c, s).0)
    ensures Step(c, s).1.Next? ==> Runnable(c, CommitState(c, Step(c, s).0, Step(c, s).1.ms))
  {
    hide WellFormed, Rooted, EntryReady, Step, StagesMicrostep;
    StepStages(c, s);
    if Step(c, s).1.Next? { StagesRunnable(c, s, Step(c, s).1.ms); }
  }

  /** From a legal configuration with history that restores properly, a step that takes no
      edge of the root stages a legal configuration. */
  lemma StepLegal(c: Chart, s: State)
    requires Runnable(c, s) && Legal(c.d, s.cfg) && HistoryOk(c.d, s.hist)
    requires Step(c, s).1.Next? && NoRootEdges(Step(c, s).1.ms.transitions)
    ensures Legal(c.d, Step(c, s).1.ms.cfg)
  {
    StepStages(c, s);
    MicrostepLegal(c.d, s.hist, s.cfg, Step(c, s).1.ms.transitions);
  }

  /** A step that takes an edge of the root alone stages a legal configuration exactly when
      it enters nothing new. */
  lemma RootStepExactly(c: Chart, s: State, t: Transition)
    requires Runnable(c, s) && Legal(c.d, s.cfg)
    requires Step(c, s).1.Next? && Step(c, s).1.ms.transitions == [t] && RootEdge(t)
    ensures Legal(c.d, Step(c, s).1.ms.cfg) <==> Members(Step(c, s).1.ms.entered) <= s.cfg
  {
    StepStages(c, s);
    assert t in [t];
    RootEdgeExactly(c.d, s.hist, s.cfg, t);
  }

  lemma StagesAvoidRoot(c: Chart, s: State, ms: Staged)
    requires Runnable(c, s) && StagesMicrostep(c, s, ms) && RootFree(c.d)
    ensures NoRootEdges(ms.transitions)
  {
    forall t | t in ms.transitions ensures !RootEdge(t) { EdgesAvoidRoot(c.d, t); }
  }

  lemma StagesSingles(c: Chart, s: State, ms: Staged)
    requires Sound(c, s) && StagesMicrostep(c, s, ms)
    ensures Singles(c.d, ms.hist)
  {
    RecordAllSingles(c.d, s.cfg, ms.exited, s.hist);
  }

  /** On a tame chart a sound engine stays sound. */
  lemma StepSound(c: Chart, s: State)
    requires Sound(c, s)
    ensures Untouched(s, Step(c, s).0) && Sound(c, Step(c, s).0)
    ensures Step(c, s).1.Next? ==>
              && NoRootEdges(Step(c, s).1.ms.transitions)
              && Sound(c, CommitState(c, Step(c, s).0, Step(c, s).1.ms))
  {
    hide WellFormed, Rooted, EntryReady, Legal, Singles, HistoryOk, Step, StagesMicrostep, NoRootEdges, Runnable;
    SoundRunnable(c, s);
    StepRunnable(c, s);
    StepStages(c, s);
    if Step(c, s).1.Next? {
      StagesAvoidRoot(c, s, Step(c, s).1.ms);
      StagesSingles(c, s, Step(c, s).1.ms);
      StepLegal(c, s);
    }
  }

  /** After start the configuration is legal and nothing is recorded. */
  lemma StartedRunnable(c: Chart, ctx: Ctx)
    requires WellFormed(c.d)
    ensures Runnable(c, Started(c, ctx)) && Legal(c.d, Started(c, ctx).cfg) && Started(c, ctx).hist == map[]
    ensures HistoryOk(c.d, Started(c, ctx).hist) && Started(c, ctx).alwaysRun == 0
    ensures Tame(c.d) ==> Sound(c, Started(c, ctx))
  {
    StartEnters(c);
    assert {} - Members([]) + AddDescendants(c.d, map[], ROOT, {}) == AddDescendants(c.d, map[], ROOT, {});
    LegalRooted(c.d, AddDescendants(c.d, map[], ROOT, {}));
  }

  // ------------------------------------------------------------------ runs

  /** What can happen to a started engine: an external event is offered, a step is taken
      and committed, or a step is taken and abandoned (an observer refused it). */
  datatype Move = Offer(evt: Queued) | Take | Abandon

  ghost function Do(c: Chart, s: State, m: Move): State
    requires Runnable(c, s)
  {
    match m
    case Offer(q) => s.(pendingExternal := Some(q))
    case Abandon => Step(c, s).0
    case Take => if Step(c, s).1.Next? then CommitState(c, Step(c, s).0, Step(c, s).1.ms) else Step(c, s).0
  }

  lemma MoveRunnable(c: Chart, s: State, m: Move)
    requires Runnable(c, s)
    ensures Runnable(c, Do(c, s, m))
  {
    hide Step, WellFormed, Rooted, EntryReady;
    StepRunnable(c, s);
  }

  ghost function Exec(c: Chart, s: State, moves: seq<Move>): (r: State)
    requires Runnable(c, s)
    ensures Runnable(c, r)
    decreases |moves|
  {
    MoveRunnable(c, s, if moves == [] then Abandon else moves[0]);
    if moves == [] then s else Exec(c, Do(c, s, moves[0]), moves[1..])
  }

  /** A run can be cut anywhere. */
  lemma {:induction false} ExecAppend(c: Chart, s: State, a: seq<Move>, b: seq<Move>)
    requires Runnable(c, s)
    ensures Exec(c, s, a + b) == Exec(c, Exec(c, s, a), b)
    decreases |a|
  {
    hide Runnable, Do;
    if a == [] {
      assert a + b == b;
    } else {
      assert (a + b)[0] == a[0] && (a + b)[1..] == a[1..] + b;
      MoveRunnable(c, s, a[0]);
      ExecAppend(c, Do(c, s, a[0]), a[1..], b);
    }
  }

  /** What a move commits, if anything. */
  ghost function Committed(c: Chart, s: State, m: Move): seq<State>
    requires Runnable(c, s)
  {
    if m.Take? && Step(c, s).1.Next? then [Do(c, s, m)] else []
  }

  /** The states committed in a run, in order. */
  ghost function Trail(c: Chart, s: State, moves: seq<Move>): seq<State>
    requires Runnable(c, s)
    decreases |moves|
  {
    MoveRunnable(c, s, if moves == [] then Abandon else moves[0]);
    if moves == [] then [] else Committed(c, s, moves[0]) + Trail(c, Do(c, s, moves[0]), moves[1..])
  }

  lemma {:induction false} TrailMore(c: Chart, s: State, moves: seq<Move>, m: Move)
    requires Runnable(c, s)
    ensures Trail(c, s, moves + [m]) == Trail(c, s, moves) + Committed(c, Exec(c, s, moves), m)
    decreases |moves|
  {
    hide Runnable, Do, Committed;
    if moves == [] {
      MoveRunnable(c, s, m);
      assert [] + [m] == [m] && [m][1..] == [] && Trail(c, Do(c, s, m), []) == [];
    } else {
      assert (moves + [m])[0] == moves[0] && (moves + [m])[1..] == moves[1..] + [m];
      MoveRunnable(c, s, moves[0]);
      TrailMore(c, Do(c, s, moves[0]), moves[1..], m);
    }
  }

  /** The engine after the start microstep and these moves. */
  ghost function After(c: Chart, ctx: Ctx, moves: seq<Move>): (s: State)
    requires WellFormed(c.d)
    ensures Runnable(c, s)
  {
    StartedRunnable(c, ctx);
    Exec(c, Started(c, ctx), moves)
  }

  /** The states it was in between microsteps: the initial one, and one for every microstep
      committed since, the start microstep included. */
  ghost function Course(c: Chart, ctx: Ctx, moves: seq<Move>): seq<State>
    requires WellFormed(c.d)
  {
    StartedRunnable(c, ctx);
    [InitialState(c.b, ctx), Started(c, ctx)] + Trail(c, Started(c, ctx), moves)
  }

  lemma OneMoreMove(c: Chart, ctx: Ctx, moves: seq<Move>, m: Move)
    requires WellFormed(c.d)
    ensures After(c, ctx, moves + [m]) == Do(c, After(c, ctx, moves), m)
    ensures Course(c, ctx, moves + [m]) == Course(c, ctx, moves) + Committed(c, After(c, ctx, moves), m)
  {
    hide Runnable, Do, Committed, WellFormed, Started;
    StartedRunnable(c, ctx);
    var s := After(c, ctx, moves);
    MoveRunnable(c, s, m);
    assert [m][1..] == [] && Exec(c, Do(c, s, m), []) == Do(c, s, m);
    assert Exec(c, s, [m]) == Do(c, s, m);
    ExecAppend(c, Started(c, ctx), moves, [m]);
    TrailMore(c, Started(c, ctx), moves, m);
  }

  /** The events offered in a run, in order. */
  function Offers(moves: seq<Move>): seq<Queued>
  {
    if moves == [] then []
    else
      var last := moves[|moves| - 1];
      Offers(moves[..|moves| - 1]) + if last.Offer? then [last.evt] else []
  }

  lemma OffersMore(moves: seq<Move>, m: Move)
    ensures Offers(moves + [m]) == Offers(moves) + if m.Offer? then [m.evt] else []
  {
    assert (moves + [m])[..|moves|] == moves;
  }

  /** At no point of the run is an edge of the root taken, or history stored that would not
      restore properly. */
  ghost predicate Benign(c: Chart, s: State, moves: seq<Move>)
    requires Runnable(c, s)
    decreases |moves|
  {
    && HistoryOk(c.d, s.hist)
    && (moves == [] ||
        (MoveRunnable(c, s, moves[0]);
         && (moves[0].Take? && Step(c, s).1.Next? ==> NoRootEdges(Step(c, s).1.ms.transitions))
         && Benign(c, Do(c, s, moves[0]), moves[1..])))
  }

  lemma MoveLegal(c: Chart, s: State, m: Move)
    requires Runnable(c, s) && Legal(c.d, s.cfg) && HistoryOk(c.d, s.hist)
    requires m.Take? && Step(c, s).1.Next? ==> NoRootEdges(Step(c, s).1.ms.transitions)
    ensures Legal(c.d, Do(c, s, m).cfg)
  {
    hide Step, WellFormed, Legal, Rooted, EntryReady, HistoryOk, NoRootEdges;
    StepStages(c, s);
    if m.Take? && Step(c, s).1.Next? { StepLegal(c, s); }
  }

  /** A benign run reaches only legal configurations. */
  lemma {:induction false} BenignLegal(c: Chart, s: State, moves: seq<Move>)
    requires Runnable(c, s) && Legal(c.d, s.cfg) && Benign(c, s, moves)
    ensures Legal(c.d, Exec(c, s, moves).cfg) && HistoryOk(c.d, Exec(c, s, moves).hist)
    decreases |moves|
  {
    hide Step, Legal, HistoryOk, NoRootEdges, Runnable, Do;
    if moves == [] {
    } else {
      MoveRunnable(c, s, moves[0]);
      MoveLegal(c, s, moves[0]);
      BenignLegal(c, Do(c, s, moves[0]), moves[1..]);
    }
  }

  lemma MoveSound(c: Chart, s: State, m: Move)
    requires Sound(c, s)
    ensures Runnable(c, s) && Sound(c, Do(c, s, m)) && HistoryOk(c.d, s.hist)
    ensures m.Take? && Step(c, s).1.Next? ==> NoRootEdges(Step(c, s).1.ms.transitions)
  {
    SoundRunnable(c, s);
    hide Step, WellFormed, Legal, Rooted, EntryReady, HistoryOk, Singles, NoRootEdges;
    StepSound(c, s);
  }

  /** On a tame chart every run is benign and stays sound. */
  lemma {:induction false} TameBenign(c: Chart, s: State, moves: seq<Move>)
    requires Sound(c, s)
    ensures Runnable(c, s) && Benign(c, s, moves) && Sound(c, Exec(c, s, moves))
    decreases |moves|
  {
    hide Step, Legal, HistoryOk, NoRootEdges, Sound, Do;
    SoundRunnable(c, s);
    if moves == [] {
    } else {
      MoveRunnable(c, s, moves[0]);
      MoveSound(c, s, moves[0]);
      TameBenign(c, Do(c, s, moves[0]), moves[1..]);
    }
  }

  /** Any sequence of offers, steps, commits and aborts after start reaches only legal
      configurations: on every tame chart, and on every other one as long as no edge of the
      root is taken and all records restore properly. */
  lemma ReachableLegal(c: Chart, ctx: Ctx, moves: seq<Move>)
    requires WellFormed(c.d)
    ensures Runnable(c, Started(c, ctx))
    ensures Tame(c.d) ==> Benign(c, Started(c, ctx), moves)
    ensures Benign(c, Started(c, ctx), moves) ==> Legal(c.d, Exec(c, Started(c, ctx), moves).cfg)
  {
    StartedRunnable(c, ctx);
    if Tame(c.d) { TameBenign(c, Started(c, ctx), moves); }
    if Benign(c, Started(c, ctx), moves) { BenignLegal(c, Started(c, ctx), moves); }
  }

  /** So does every state such a run commits. */
  lemma {:induction false} TrailLegal(c: Chart, s: State, moves: seq<Move>)
    requires Runnable(c, s) && Legal(c.d, s.cfg) && Benign(c, s, moves)
    ensures forall x | x in Trail(c, s, moves) :: Legal(c.d, x.cfg)
    decreases |moves|
  {
    hide Step, Legal, HistoryOk, NoRootEdges, Runnable, Do;
    if moves == [] {
    } else {
      MoveRunnable(c, s, moves[0]);
      MoveLegal(c, s, moves[0]);
      TrailLegal(c, Do(c, s, moves[0]), moves[1..]);
    }
  }

  ghost predicate BenignCourse(c: Chart, ctx: Ctx, moves: seq<Move>)
    requires WellFormed(c.d)
  {
    StartedRunnable(c, ctx);
    Benign(c, Started(c, ctx), moves)
  }

  /** From the start microstep on everything is legal. */
  lemma CourseLegal(c: Chart, ctx: Ctx, moves: seq<Move>)
    requires WellFormed(c.d) && (Tame(c.d) || BenignCourse(c, ctx, moves))
    ensures Legal(c.d, After(c, ctx, moves).cfg)
    ensures forall x | x in Course(c, ctx, moves)[1..] :: Legal(c.d, x.cfg)
  {
    hide WellFormed, Tame, Legal, Started, Benign, Trail, InitialState;
    StartedRunnable(c, ctx);
    ReachableLegal(c, ctx, moves);
    TrailLegal(c, Started(c, ctx), moves);
    assert Course(c, ctx, moves)[1..] == [Started(c, ctx)] + Trail(c, Started(c, ctx), moves);
  }

  /** On every well-formed chart, whatever edges are taken and whatever is recorded, a move
      leaves no active node without the active children it demands. */
  lemma MoveInhabited(c: Chart, s: State, m: Move)
    requires Runnable(c, s) && Inhabited(c.d, s.cfg)
    ensures Inhabited(c.d, Do(c, s, m).cfg)
  {
    hide Step, Inhabited, StagedConfiguration;
    StepStages(c, s);
    if m.Take? && Step(c, s).1.Next? { StagedInhabited(c.d, s.hist, s.cfg, Step(c, s).1.ms.transitions); }
  }

  lemma {:induction false} RunInhabited(c: Chart, s: State, moves: seq<Move>)
    requires Runnable(c, s) && Inhabited(c.d, s.cfg)
    ensures Inhabited(c.d, Exec(c, s, moves).cfg)
    ensures forall x | x in Trail(c, s, moves) :: Inhabited(c.d, x.cfg)
    decreases |moves|
  {
    hide Step, Inhabited, Runnable, Do;
    if moves == [] {
    } else {
      MoveRunnable(c, s, moves[0]);
      MoveInhabited(c, s, moves[0]);
      RunInhabited(c, Do(c, s, moves[0]), moves[1..]);
    }
  }

  /** So after any run from start, on any well-formed chart, the one thing that can be wrong with
      the configuration is that a compound has two active children. */
  lemma ReachableInhabited(c: Chart, ctx: Ctx, moves: seq<Move>)
    requires WellFormed(c.d)
    ensures var s := After(c, ctx, moves);
            && Rooted(c.d, s.cfg) && Inhabited(c.d, s.cfg) && (Legal(c.d, s.cfg) <==> Unsplit(c.d, s.cfg))
    ensures forall x | x in Course(c, ctx, moves)[1..] :: Inhabited(c.d, x.cfg)
  {
    hide Inhabited, Unsplit, Legal, Started, Trail, WellFormed, Rooted, Runnable, HistoryOk, Singles, EntryReady, Exec;
    StartedRunnable(c, ctx);
    RunnableRooted(c, Started(c, ctx));
    LegalIsUnsplit(c.d, Started(c, ctx).cfg);
    RunInhabited(c, Started(c, ctx), moves);
    RunnableRooted(c, After(c, ctx, moves));
    LegalIsUnsplit(c.d, After(c, ctx, moves).cfg);
    assert Course(c, ctx, moves)[1..] == [Started(c, ctx)] + Trail(c, Started(c, ctx), moves);
  }

  ghost function CommitsBy(c: Chart, s: State, m: Move, triggered: bool): nat
    requires Runnable(c, s)
  {
    if m.Take? && Step(c, s).1.Next? && Step(c, s).1.ms.triggered == triggered then 1 else 0
  }

  /** The number of event-triggered (or of eventless) microsteps committed in a run. */
  ghost function Commits(c: Chart, s: State, moves: seq<Move>, triggered: bool): nat
    requires Runnable(c, s)
    decreases |moves|
  {
    MoveRunnable(c, s, if moves == [] then Abandon else moves[0]);
    if moves == [] then 0
    else
      CommitsBy(c, s, moves[0], triggered) + Commits(c, Do(c, s, moves[0]), moves[1..], triggered)
  }

  lemma MoveBudget(c: Chart, s: State, m: Move)
    requires Runnable(c, s) && s.alwaysRun <= c.alwaysLimit
    ensures Runnable(c, Do(c, s, m)) && Do(c, s, m).alwaysRun <= c.alwaysLimit
    ensures CommitsBy(c, s, m, true) <= 1 && (CommitsBy(c, s, m, true) == 1 ==> CommitsBy(c, s, m, false) == 0)
    ensures CommitsBy(c, s, m, true) == 0 ==> s.alwaysRun + CommitsBy(c, s, m, false) <= Do(c, s, m).alwaysRun
  {
    hide Step, WellFormed, Rooted, EntryReady;
    MoveRunnable(c, s, m);
    StepStages(c, s);
  }

  lemma CommitsUnfold(c: Chart, s: State, moves: seq<Move>, triggered: bool)
    requires Runnable(c, s) && moves != []
    ensures Runnable(c, Do(c, s, moves[0]))
    ensures Commits(c, s, moves, triggered)
         == CommitsBy(c, s, moves[0], triggered) + Commits(c, Do(c, s, moves[0]), moves[1..], triggered)
  {
    MoveRunnable(c, s, moves[0]);
  }

  lemma NoCommits(c: Chart, s: State)
    requires Runnable(c, s)
    ensures Commits(c, s, [], true) == 0 && Commits(c, s, [], false) == 0
  {
  }

  function Budget(limit: nat, t: nat): nat { limit * (1 + t) }

  lemma BudgetStep(limit: nat, a: nat, e: nat, t: nat, a': nat, e': nat, t': nat)
    requires a <= limit && t <= 1 && (t == 1 ==> e == 0) && (t == 0 ==> a + e <= a')
    requires a' + e' <= Budget(limit, t')
    ensures a + (e + e') <= Budget(limit, t + t')
  {
    assert limit * (1 + (1 + t')) == limit * (1 + t') + limit;
  }

  lemma {:induction false} EventlessBudget(c: Chart, s: State, moves: seq<Move>)
    requires Runnable(c, s) && s.alwaysRun <= c.alwaysLimit
    ensures s.alwaysRun + Commits(c, s, moves, false) <= Budget(c.alwaysLimit, Commits(c, s, moves, true))
    decreases |moves|
  {
    hide Runnable, Step, Do, Commits, CommitsBy;
    if moves == [] {
      NoCommits(c, s);
      assert Budget(c.alwaysLimit, 0) == c.alwaysLimit;
    } else {
      var m, rest := moves[0], moves[1..];
      MoveBudget(c, s, m);
      CommitsUnfold(c, s, moves, true);
      CommitsUnfold(c, s, moves, false);
      var s' := Do(c, s, m);
      EventlessBudget(c, s', rest);
      BudgetStep(c.alwaysLimit, s.alwaysRun, CommitsBy(c, s, m, false), CommitsBy(c, s, m, true),
                 s'.alwaysRun, Commits(c, s', rest, false), Commits(c, s', rest, true));
    }
  }

  // ------------------------------------------------------------------ the loop counter over runs

  /** The i-th move of the run takes an eventless step, committed or not. */
  ghost predicate StepsEventless(c: Chart, ctx: Ctx, moves: seq<Move>, i: nat)
    requires WellFormed(c.d) && i < |moves|
  {
    var s := After(c, ctx, moves[..i]);
    !moves[i].Offer? && Step(c, s).1.Next? && !Step(c, s).1.ms.triggered
  }

  /** The i-th move of the run commits a microstep that an event triggered. */
  ghost predicate CommitsEvent(c: Chart, ctx: Ctx, moves: seq<Move>, i: nat)
    requires WellFormed(c.d) && i < |moves|
  {
    var s := After(c, ctx, moves[..i]);
    moves[i].Take? && Step(c, s).1.Next? && Step(c, s).1.ms.triggered
  }

  /** How many of the moves from place k on take an eventless step. */
  ghost function EventlessFrom(c: Chart, ctx: Ctx, moves: seq<Move>, k: nat): nat
    requires WellFormed(c.d)
    decreases |moves|
  {
    if |moves| <= k then 0
    else
      EventlessFrom(c, ctx, moves[..|moves| - 1], k) + if StepsEventless(c, ctx, moves, |moves| - 1) then 1 else 0
  }

  /** Place k is right behind the last committed event-triggered microstep, or at the start. */
  ghost predicate SinceEvent(c: Chart, ctx: Ctx, moves: seq<Move>, k: nat)
    requires WellFormed(c.d)
  {
    && k <= |moves| && (k > 0 ==> CommitsEvent(c, ctx, moves, k - 1))
    && forall i | k <= i < |moves| :: !CommitsEvent(c, ctx, moves, i)
  }

  lemma CounterMoves(c: Chart, s: State, m: Move)
    requires Runnable(c, s)
    ensures m.Take? && Step(c, s).1.Next? && Step(c, s).1.ms.triggered ==> Do(c, s, m).alwaysRun == 0
    ensures !(m.Take? && Step(c, s).1.Next? && Step(c, s).1.ms.triggered) ==>
              Do(c, s, m).alwaysRun
              == s.alwaysRun + if !m.Offer? && Step(c, s).1.Next? && !Step(c, s).1.ms.triggered then 1 else 0
  {
    hide Step, CommitState, StagesMicrostep, RunsActions;
    StepStages(c, s);
    if Step(c, s).1.Next? { CommitExactly(c, Step(c, s).0, Step(c, s).1.ms); }
  }

  /** The loop counter is the number of eventless steps taken since the last committed
      microstep that an event triggered. */
  lemma {:induction false} CounterExactly(c: Chart, ctx: Ctx, moves: seq<Move>, k: nat)
    requires WellFormed(c.d) && SinceEvent(c, ctx, moves, k)
    ensures After(c, ctx, moves).alwaysRun == EventlessFrom(c, ctx, moves, k)
    decreases |moves|
  {
    hide WellFormed, Step, Started, After, Do;
    if moves == [] {
      NothingMoved(c, ctx);
    } else {
      var last := |moves| - 1;
      var before, m := moves[..last], moves[last];
      assert moves == before + [m];
      OneMoreMove(c, ctx, before, m);
      CounterMoves(c, After(c, ctx, before), m);
      assert k <= last <==> !CommitsEvent(c, ctx, moves, last);
      if k <= last {
        SinceBefore(c, ctx, moves, k);
        CounterExactly(c, ctx, before, k);
      }
    }
  }

  lemma NothingMoved(c: Chart, ctx: Ctx)
    requires WellFormed(c.d)
    ensures After(c, ctx, []).alwaysRun == 0
  {
    StartedRunnable(c, ctx);
  }

  lemma SinceBefore(c: Chart, ctx: Ctx, moves: seq<Move>, k: nat)
    requires WellFormed(c.d) && moves != [] && k < |moves| && SinceEvent(c, ctx, moves, k)
    ensures SinceEvent(c, ctx, moves[..|moves| - 1], k)
  {
    hide WellFormed, Step, After;
    var before := moves[..|moves| - 1];
    forall i | 0 <= i < |before| ensures CommitsEvent(c, ctx, before, i) <==> CommitsEvent(c, ctx, moves, i) {
      assert before[..i] == moves[..i];
    }
  }

  /** Such a place always exists. */
  lemma {:induction false} EventPlace(c: Chart, ctx: Ctx, moves: seq<Move>, n: nat) returns (k: nat)
    requires WellFormed(c.d) && n <= |moves| && forall i | n <= i < |moves| :: !CommitsEvent(c, ctx, moves, i)
    ensures SinceEvent(c, ctx, moves, k)
    decreases n
  {
    hide WellFormed, CommitsEvent, After, Step;
    if n == 0 || CommitsEvent(c, ctx, moves, n - 1) {
      k := n;
    } else {
      k := EventPlace(c, ctx, moves, n - 1);
    }
  }

  /** After any run the next step gives up exactly if an eventless edge is selected and the limit
      of eventless steps since the last event is reached. */
  lemma GivesUpExactly(c: Chart, ctx: Ctx, moves: seq<Move>) returns (k: nat)
    requires WellFormed(c.d) && After(c, ctx, moves).status != Error
    ensures IsTree(c.d) && SinceEvent(c, ctx, moves, k)
    ensures var s := After(c, ctx, moves);
            && (Step(c, s).0.status == Error <==>
                  Matching(c, s, Always, c.b.zero) != [] && EventlessFrom(c, ctx, moves, k) == c.alwaysLimit)
            && (Step(c, s).0.status == Error ==> Step(c, s).0.errReason == Some(AlwaysLoopExceeded))
  {
    hide WellFormed, Step, Started, Exec, Select, CommitsEvent, EventlessFrom;
    k := EventPlace(c, ctx, moves, |moves|);
    CounterExactly(c, ctx, moves, k);
    CounterWithin(c, ctx, moves);
    StepLeaves(c, After(c, ctx, moves));
  }

  lemma CounterWithin(c: Chart, ctx: Ctx, moves: seq<Move>)
    requires WellFormed(c.d)
    ensures After(c, ctx, moves).alwaysRun <= c.alwaysLimit
  {
    StartedRunnable(c, ctx);
    RunWithin(c, Started(c, ctx), moves);
  }

  lemma {:induction false} RunWithin(c: Chart, s: State, moves: seq<Move>)
    requires Runnable(c, s) && s.alwaysRun <= c.alwaysLimit
    ensures Exec(c, s, moves).alwaysRun <= c.alwaysLimit
    decreases |moves|
  {
    hide Runnable, Step, Do;
    if moves == [] {
    } else {
      MoveBudget(c, s, moves[0]);
      RunWithin(c, Do(c, s, moves[0]), moves[1..]);
    }
  }

  /** The committed states are as many as the committed microsteps. */
  lemma {:induction false} TrailLength(c: Chart, s: State, moves: seq<Move>)
    requires Runnable(c, s)
    ensures |Trail(c, s, moves)| == Commits(c, s, moves, true) + Commits(c, s, moves, false)
    decreases |moves|
  {
    hide Runnable, Do;
    if moves == [] {
    } else {
      MoveRunnable(c, s, moves[0]);
      TrailLength(c, Do(c, s, moves[0]), moves[1..]);
    }
  }

  lemma CourseLength(c: Chart, ctx: Ctx, moves: seq<Move>)
    requires WellFormed(c.d)
    ensures Runnable(c, Started(c, ctx))
    ensures |Course(c, ctx, moves)|
            == 2 + Commits(c, Started(c, ctx), moves, true) + Commits(c, Started(c, ctx), moves, false)
  {
    hide WellFormed, Started, Commits, Trail;
    StartedRunnable(c, ctx);
    TrailLength(c, Started(c, ctx), moves);
  }

  /** Over a whole run the eventless microsteps never exceed the limit times one more than
      the event-triggered ones. */
  lemma EventlessBounded(c: Chart, ctx: Ctx, moves: seq<Move>)
    requires WellFormed(c.d)
    ensures Runnable(c, Started(c, ctx))
    ensures Commits(c, Started(c, ctx), moves, false) <= c.alwaysLimit * (1 + Commits(c, Started(c, ctx), moves, true))
  {
    StartedRunnable(c, ctx);
    EventlessBudget(c, Started(c, ctx), moves);
  }

  // ------------------------------------------------------------------ completion events of a step

  ghost predicate UniqueIds(d: Definition)
  {
    forall m: Node, n: Node | InTree(d, m) && InTree(d, n) && d.nodes[m].id == d.nodes[n].id :: m == n
  }

  /** How often a step stages the completion event of a parallel: once for every entered final
      child of it, and once for every entered final child of a region from the node on with
      which the last region gets an active final. */
  lemma StepCompletesParallel(c: Chart, s: State, p: Node)
    requires Runnable(c, s) && UniqueIds(c.d) && InTree(c.d, p) && Kind(c.d, p) == Parallel && Step(c, s).1.Next?
    ensures var ms := Step(c, s).1.ms;
            var k := UntilAllFinal(c.d, p, s.cfg - Members(ms.exited), ms.entered);
            && AllInTree(c.d, ms.entered)
            && multiset(ms.internalEnqueue)[DoneEvent(c.d, p)] ==
                 ChildFinals(c.d, p, ms.entered) + RegionFinals(c.d, p, ms.entered, if k == 0 then 0 else k - 1)
  {
    hide Step, WellFormed, Rooted, EntryReady, UntilAllFinal, RegionFinals, Selected;
    RunnableTree(c, s);
    StepStages(c, s);
    var ms := Step(c, s).1.ms;
    var kept := s.cfg - Members(ms.exited);
    ParallelCompletes(c.d, p, kept, ms.entered);
    CompletedInTree(c.d, kept, ms.entered);
    DoneEventsCount(c.d, Completed(c.d, kept, ms.entered), p);
  }

  /** With flat finals, from a legal configuration: once if a region's final is entered and every
      region is final afterwards, else not at all. */
  lemma StepCompletesFlat(c: Chart, s: State, p: Node)
    requires Runnable(c, s) && Legal(c.d, s.cfg) && HistoryOk(c.d, s.hist) && UniqueIds(c.d)
    requires FlatFinals(c.d, p) && Step(c, s).1.Next? && NoRootEdges(Step(c, s).1.ms.transitions)
    ensures var ms := Step(c, s).1.ms;
            multiset(ms.internalEnqueue)[DoneEvent(c.d, p)]
            == if EntersFinalOf(c.d, p, ms.entered) && AllRegionsFinal(c.d, p, ms.cfg) then 1 else 0
  {
    hide Step, WellFormed, Legal, HistoryOk, Rooted, CompoundRegions, FlatFinals, AllRegionsFinal;
    RunnableTree(c, s);
    StepStages(c, s);
    StepLegal(c, s);
    var ms := Step(c, s).1.ms;
    MicrostepLocal(c.d, s.hist, s.cfg, ms.transitions);
    var kept := s.cfg - Members(ms.exited);
    assert ms.cfg == kept + Members(ms.entered);
    FlatShape(c.d, p);
    FlatCompletesOnce(c.d, p, kept, ms.entered, ms.cfg);
    CompletedInTree(c.d, kept, ms.entered);
    DoneEventsCount(c.d, Completed(c.d, kept, ms.entered), p);
  }

  /** A step stages the documented completion events if it never finds all regions of a
      parallel final too early; if all finals are flat it never does. */
  lemma StepAsDocumented(c: Chart, s: State)
    requires Runnable(c, s) && Step(c, s).1.Next?
    ensures var ms := Step(c, s).1.ms;
            var kept := s.cfg - Members(ms.exited);
            && AllInTree(c.d, ms.entered)
            && (Timely(c.d, kept, ms.entered) ==>
                  ms.internalEnqueue == DoneEvents(c.d, Documented(c.d, kept, ms.entered)))
            && ((forall p: Node | p < |c.d.nodes| && Kind(c.d, p) == Parallel :: FlatFinals(c.d, p)) ==>
                  Timely(c.d, kept, ms.entered))
  {
    hide Step, WellFormed, Rooted, EntryReady, FlatFinals, Timely, Selected, Documented, Completed;
    RunnableTree(c, s);
    StepStages(c, s);
    var ms := Step(c, s).1.ms;
    var kept := s.cfg - Members(ms.exited);
    CompletesAsDocumented(c.d, kept, ms.entered);
    if forall p: Node | p < |c.d.nodes| && Kind(c.d, p) == Parallel :: FlatFinals(c.d, p) {
      FlatAsDocumented(c.d, kept, ms.entered);
    }
  }

  /** A step stages one event for each completion q, in the order in which the finals that
      cause them are entered, a region before the parallel it completes. */
  lemma StepDoneInOrder(c: Chart, s: State) returns (q: seq<Node>, at: seq<nat>)
    requires Runnable(c, s) && Step(c, s).1.Next?
    ensures var ms := Step(c, s).1.ms;
            && InEntryOrder(c.d, s.cfg - Members(ms.exited), ms.entered, q, at)
            && |ms.internalEnqueue| == |q|
            && forall j | 0 <= j < |q| ::
                 InTree(c.d, q[j]) && ms.internalEnqueue[j] == "done.state." + c.d.nodes[q[j]].id
  {
    hide Step, WellFormed, Rooted, EntryReady, Selected, Completed, InEntryOrder;
    RunnableTree(c, s);
    StepStages(c, s);
    var ms := Step(c, s).1.ms;
    var kept := s.cfg - Members(ms.exited);
    q := Completed(c.d, kept, ms.entered);
    at := CompletesInOrder(c.d, kept, ms.entered);
    CompletedInTree(c.d, kept, ms.entered);
    DoneEventsAre(c.d, q);
  }

  lemma {:induction false} CompletedInTree(d: Definition, base: set<Node>, entered: seq<Node>)
    requires IsTree(d) && AllInTree(d, entered)
    ensures AllInTree(d, Completed(d, base, entered))
  {
    if entered == [] {
    } else {
      var last := |entered| - 1;
      forall n | n in entered[..last] ensures n in entered { }
      CompletedInTree(d, base, entered[..last]);
      assert entered[last] in entered;
      CompletedByInTree(d, entered[last], base + Members(entered));
      hide CompletedBy;
      assert forall n | n in Completed(d, base, entered) ::
             n in Completed(d, base, entered[..last]) || n in CompletedBy(d, entered[last], base + Members(entered));
    }
  }

  lemma CompletedByInTree(d: Definition, s: Node, stage: set<Node>)
    requires IsTree(d) && InTree(d, s)
    ensures AllInTree(d, CompletedBy(d, s, stage))
  {
  }
}
