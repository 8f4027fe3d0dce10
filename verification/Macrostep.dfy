/** Macrosteps (microstep.go step, machine.go runMacrostep): run to completion, priority of
    internal over external work, and when a macrostep must come to an end. */
module Macrosteps {
  import opened Definitions
  import opened Configurations
  import opened Entry
  import opened Selection
  import opened Microsteps
  import opened Staging
  import opened Engines

  /** Quiet: nothing left to do; Ended: the engine became terminal; OutOfFuel: more than
      the given number of microsteps, the next one being staged but not committed. */
  datatype MacroResult = Quiet(s: State) | Ended(s: State) | OutOfFuel(s: State)

  /** At most `fuel` microsteps of one macrostep, all accepted by the observers. */
  ghost function Macrostep(c: Chart, s: State, fuel: nat): MacroResult
    requires Runnable(c, s)
    decreases fuel
  {
    StepRunnable(c, s);
    var (s', outcome) := Step(c, s);
    match outcome
    case Settled => if s'.status == Error then Ended(s') else Quiet(s')
    case Next(ms) =>
      if fuel == 0 then OutOfFuel(s')
      else
        var s'' := CommitState(c, s', ms);
        if s''.status.Terminal() then Ended(s'') else Macrostep(c, s'', fuel - 1)
  }

  /** Nothing is enabled, nothing is queued, nothing is pending. */
  ghost predicate Complete(c: Chart, s: State)
  {
    && IsTree(c.d)
    && Matching(c, s, Always, c.b.zero) == []
    && s.internalQueue == []
    && s.pendingExternal == None
  }

  /** In a legal configuration nothing is selected exactly when no active node has an edge
      that may fire. */
  lemma NothingMatches(c: Chart, s: State, trigger: Trigger, evt: Payload)
    requires Runnable(c, s) && Legal(c.d, s.cfg)
    ensures Matching(c, s, trigger, evt) == [] <==> NothingFires(c.d, s.cfg, trigger, Pass(c.b, s.ctx, evt))
  {
    SelectMeaning(c.d, s.cfg, trigger, Pass(c.b, s.ctx, evt));
  }

  lemma {:induction false} InternalSettled(c: Chart, s: State)
    requires Runnable(c, s) && StepInternal(c, s).1.Settled?
    ensures StepInternal(c, s).0.internalQueue == [] && StepInternal(c, s).0.pendingExternal == None
    decreases |s.internalQueue|
  {
    if s.internalQueue == [] {
    } else {
      InternalSettled(c, s.(internalQueue := s.internalQueue[1..]));
    }
  }

  lemma StepSettled(c: Chart, s: State)
    requires Runnable(c, s) && Step(c, s).1.Settled? && Step(c, s).0.status != Error
    ensures Complete(c, Step(c, s).0)
  {
    StepStages(c, s);
    if Matching(c, s, Always, c.b.zero) == [] {
      InternalSettled(c, s);
      InternalStages(c, s);
    }
  }

  lemma MacrostepUnfold(c: Chart, s: State, fuel: nat)
    requires Runnable(c, s)
    ensures var (s', outcome) := Step(c, s);
            match outcome
            case Settled => Macrostep(c, s, fuel) == if s'.status == Error then Ended(s') else Quiet(s')
            case Next(ms) =>
              var s'' := CommitState(c, s', ms);
              if fuel == 0 then Macrostep(c, s, fuel) == OutOfFuel(s')
              else if s''.status.Terminal() then Macrostep(c, s, fuel) == Ended(s'')
              else Runnable(c, s'') && Macrostep(c, s, fuel) == Macrostep(c, s'', fuel - 1)
  {
    hide Runnable, Step, CommitState;
    StepRunnable(c, s);
  }

  /** Run to completion: a macrostep that ends quietly leaves no eventless edge enabled in
      the live configuration and context, no internal event and no external event; and it
      can be continued. */
  lemma {:induction false} RunToCompletion(c: Chart, s: State, fuel: nat)
    requires Runnable(c, s) && Macrostep(c, s, fuel).Quiet?
    ensures Complete(c, Macrostep(c, s, fuel).s) && Runnable(c, Macrostep(c, s, fuel).s)
    decreases fuel
  {
    hide Runnable, Complete, Step, CommitState, Macrostep;
    MacrostepUnfold(c, s, fuel);
    var (s', outcome) := Step(c, s);
    if outcome.Settled? {
      StepRunnable(c, s);
      StepSettled(c, s);
    } else {
      RunToCompletion(c, CommitState(c, s', outcome.ms), fuel - 1);
    }
  }

  /** No queued internal event selects anything. */
  ghost predicate QueueIdle(c: Chart, s: State)
    requires Runnable(c, s)
  {
    forall q | q in s.internalQueue :: Matching(c, s, OnEvent(q.descriptor), q.payload) == []
  }

  lemma {:induction false} InternalTakesExternalLast(c: Chart, s: State)
    requires Runnable(c, s) && s.pendingExternal.Some? && StepInternal(c, s).0.pendingExternal == None
    ensures QueueIdle(c, s) && StepInternal(c, s).0.internalQueue == []
    decreases |s.internalQueue|
  {
    if s.internalQueue == [] {
    } else {
      var q := s.internalQueue[0];
      var s1 := s.(internalQueue := s.internalQueue[1..]);
      InternalTakesExternalLast(c, s1);
      assert forall x :: x in s.internalQueue <==> x == q || x in s1.internalQueue;
    }
  }

  /** An external event is consumed only when no eventless edge is enabled and no internal
      event in the queue selects anything. */
  lemma ExternalLast(c: Chart, s: State)
    requires Runnable(c, s) && s.pendingExternal.Some? && Step(c, s).0.pendingExternal == None
    ensures Matching(c, s, Always, c.b.zero) == [] && QueueIdle(c, s) && Step(c, s).0.internalQueue == []
  {
    InternalTakesExternalLast(c, s);
  }

  // ------------------------------------------------------------------ termination

  predicate IsDoneName(name: string) { "done.state." <= name }

  /** No edge of the chart reacts to a `done.state` event, not even by the catch-all. */
  ghost predicate NoDoneEdges(c: Chart)
  {
    forall n: Node, t | n < |c.d.nodes| && t in EventedEdges(c.d.nodes[n]) && !t.Eventless() ::
      t.event != "*" && !IsDoneName(t.event)
  }

  predicate DoneOnly(q: seq<Queued>) { forall e | e in q :: IsDoneName(e.descriptor) }

  lemma {:induction false} DoneEventsAreDone(d: Definition, q: seq<Node>)
    ensures forall e | e in DoneEvents(d, q) :: IsDoneName(e)
  {
    if q == [] {
    } else {
      DoneEventsAreDone(d, q[1..]);
    }
  }

  lemma {:induction false} DoneQueueIsDone(b: Behavior, names: seq<string>)
    requires forall e | e in names :: IsDoneName(e)
    ensures DoneOnly(DoneQueue(b, names))
  {
    if names == [] {
    } else {
      forall e | e in names[1..] ensures IsDoneName(e) { assert e in names; }
      DoneQueueIsDone(b, names[1..]);
    }
  }

  lemma NothingDone(c: Chart, s: State, e: Queued)
    requires Runnable(c, s) && NoDoneEdges(c) && IsDoneName(e.descriptor)
    ensures Matching(c, s, OnEvent(e.descriptor), e.payload) == []
  {
    MatchingChooses(c, s, OnEvent(e.descriptor), e.payload);
    forall t | t in Matching(c, s, OnEvent(e.descriptor), e.payload) ensures false { }
  }

  lemma {:induction false} OnlyExternalFires(c: Chart, s: State)
    requires Runnable(c, s) && NoDoneEdges(c) && DoneOnly(s.internalQueue)
    ensures DoneOnly(StepInternal(c, s).0.internalQueue)
    ensures StepInternal(c, s).1.Next? ==> s.pendingExternal.Some? && StepInternal(c, s).0.pendingExternal == None
    ensures StepInternal(c, s).1.Next? ==> forall e | e in StepInternal(c, s).1.ms.internalEnqueue :: IsDoneName(e)
    decreases |s.internalQueue|
  {
    if s.internalQueue == [] {
      if StepExternal(c, s).1.Next? {
        var qe := s.pendingExternal.value;
        MatchingChooses(c, s, OnEvent(qe.descriptor), qe.payload);
        var ts := Matching(c, s, OnEvent(qe.descriptor), qe.payload);
        EnqueuesDone(c, s.(pendingExternal := None), ts, qe.payload, true);
      }
    } else {
      NothingDone(c, s, s.internalQueue[0]);
      OnlyExternalFires(c, s.(internalQueue := s.internalQueue[1..]));
    }
  }

  lemma EnqueuesDone(c: Chart, s: State, ts: seq<Transition>, evt: Payload, triggered: bool)
    requires Runnable(c, s) && Selected(c.d, s.cfg, ts)
    ensures forall e | e in MicrostepFor(c, s, ts, evt, triggered).internalEnqueue :: IsDoneName(e)
  {
    StagedRooted(c.d, s.hist, s.cfg, ts);
    var E := EntrySetOf(c.d, s.hist, ts);
    AscendingSorted(E, |c.d.nodes|);
    var kept := s.cfg - Members(Descending(UnionOfExits(c.d, s.cfg, ts), |c.d.nodes|));
    DoneEventsAreDone(c.d, Completed(c.d, kept, Ascending(E, |c.d.nodes|)));
  }

  /** An upper bound on the microsteps that are left in a macrostep. */
  function Remaining(c: Chart, s: State): nat
    requires s.alwaysRun <= c.alwaysLimit
  {
    c.alwaysLimit - s.alwaysRun + (if s.pendingExternal.Some? then c.alwaysLimit + 1 else 0)
  }

  lemma StepUsesUp(c: Chart, s: State)
    requires Runnable(c, s) && NoDoneEdges(c) && DoneOnly(s.internalQueue) && s.alwaysRun <= c.alwaysLimit
    requires Step(c, s).1.Next?
    ensures var s' := CommitState(c, Step(c, s).0, Step(c, s).1.ms);
            s'.alwaysRun <= c.alwaysLimit && Remaining(c, s') < Remaining(c, s) && DoneOnly(s'.internalQueue)
  {
    StepStages(c, s);
    var (s1, outcome) := Step(c, s);
    var ts := Matching(c, s, Always, c.b.zero);
    MatchingChooses(c, s, Always, c.b.zero);
    if ts != [] { EnqueuesDone(c, s, ts, c.b.zero, false); } else { OnlyExternalFires(c, s); }
    DoneQueueIsDone(c.b, outcome.ms.internalEnqueue);
  }

  /** If nothing in the chart reacts to `done.state` events, a macrostep ends within twice
      the loop limit plus one microsteps. */
  lemma {:induction false} MacrostepEnds(c: Chart, s: State, fuel: nat)
    requires Runnable(c, s) && NoDoneEdges(c) && DoneOnly(s.internalQueue) && s.alwaysRun <= c.alwaysLimit
    requires fuel >= Remaining(c, s)
    ensures !Macrostep(c, s, fuel).OutOfFuel?
    decreases fuel
  {
    hide Runnable, NoDoneEdges, DoneOnly, Remaining, Step, CommitState, Macrostep;
    MacrostepUnfold(c, s, fuel);
    StepRunnable(c, s);
    var (s', outcome) := Step(c, s);
    if outcome.Next? {
      StepUsesUp(c, s);
      var s'' := CommitState(c, s', outcome.ms);
      if !s''.status.Terminal() { MacrostepEnds(c, s'', fuel - 1); }
    }
  }

  lemma MacrostepBounded(c: Chart, s: State)
    requires Runnable(c, s) && NoDoneEdges(c) && DoneOnly(s.internalQueue) && s.alwaysRun <= c.alwaysLimit
    ensures !Macrostep(c, s, 2 * c.alwaysLimit + 1).OutOfFuel?
  {
    MacrostepEnds(c, s, 2 * c.alwaysLimit + 1);
  }

  lemma {:induction false} InternalKeepsDone(c: Chart, s: State)
    requires Runnable(c, s) && DoneOnly(s.internalQueue)
    ensures DoneOnly(StepInternal(c, s).0.internalQueue)
    ensures StepInternal(c, s).1.Next? ==> forall e | e in StepInternal(c, s).1.ms.internalEnqueue :: IsDoneName(e)
    decreases |s.internalQueue|
  {
    hide WellFormed, Rooted, EntryReady, Selected, Fires, IsEdge, Offered;
    RunnableTree(c, s);
    if s.internalQueue == [] {
      if StepExternal(c, s).1.Next? {
        var qe := s.pendingExternal.value;
        MatchingChooses(c, s, OnEvent(qe.descriptor), qe.payload);
        var ts := Matching(c, s, OnEvent(qe.descriptor), qe.payload);
        EnqueuesDone(c, s.(pendingExternal := None), ts, qe.payload, true);
      }
    } else {
      var qe := s.internalQueue[0];
      var s1 := s.(internalQueue := s.internalQueue[1..]);
      var ts := Matching(c, s, OnEvent(qe.descriptor), qe.payload);
      MatchingChooses(c, s, OnEvent(qe.descriptor), qe.payload);
      if ts != [] { EnqueuesDone(c, s1, ts, qe.payload, true); } else { InternalKeepsDone(c, s1); }
    }
  }

  lemma MoveKeepsDone(c: Chart, s: State, m: Move)
    requires Runnable(c, s) && DoneOnly(s.internalQueue)
    ensures DoneOnly(Do(c, s, m).internalQueue)
  {
    hide WellFormed, Rooted, EntryReady, Selected, Fires, IsEdge, Offered;
    RunnableTree(c, s);
    var ts := Matching(c, s, Always, c.b.zero);
    MatchingChooses(c, s, Always, c.b.zero);
    if ts != [] { EnqueuesDone(c, s, ts, c.b.zero, false); } else { InternalKeepsDone(c, s); }
    if Step(c, s).1.Next? { DoneQueueIsDone(c.b, Step(c, s).1.ms.internalEnqueue); }
  }

  lemma {:induction false} RunKeepsDone(c: Chart, s: State, moves: seq<Move>)
    requires Runnable(c, s) && DoneOnly(s.internalQueue) && s.alwaysRun <= c.alwaysLimit
    ensures DoneOnly(Exec(c, s, moves).internalQueue) && Exec(c, s, moves).alwaysRun <= c.alwaysLimit
    decreases |moves|
  {
    hide WellFormed, Rooted, EntryReady, Step, Do;
    if moves == [] {
    } else {
      MoveBudget(c, s, moves[0]);
      MoveKeepsDone(c, s, moves[0]);
      RunKeepsDone(c, Do(c, s, moves[0]), moves[1..]);
    }
  }

  lemma StartKeepsDone(c: Chart, ctx: Ctx)
    requires WellFormed(c.d)
    ensures DoneOnly(Started(c, ctx).internalQueue)
  {
    StartEnters(c);
    var E := AddDescendants(c.d, map[], ROOT, {});
    AscendingSorted(E, |c.d.nodes|);
    DoneEventsAreDone(c.d, Completed(c.d, {} - Members([]), Ascending(E, |c.d.nodes|)));
    DoneQueueIsDone(c.b, StartStep(c, ctx).internalEnqueue);
  }

  /** After any run of such a chart, whatever was offered, the next macrostep ends. */
  lemma MacrostepsTerminate(c: Chart, ctx: Ctx, moves: seq<Move>)
    requires WellFormed(c.d) && NoDoneEdges(c)
    ensures Runnable(c, Started(c, ctx))
    ensures !Macrostep(c, Exec(c, Started(c, ctx), moves), 2 * c.alwaysLimit + 1).OutOfFuel?
  {
    StartedRunnable(c, ctx);
    StartKeepsDone(c, ctx);
    RunKeepsDone(c, Started(c, ctx), moves);
    MacrostepBounded(c, Exec(c, Started(c, ctx), moves));
  }
}
