/** Macrosteps of charts with completion edges (microstep.go step, machine.go runMacrostep): if
    completions cannot go round in a circle, every macrostep ends, and this is how soon. */
module Rankings {
  import opened Definitions
  import opened Configurations
  import opened Entry
  import opened Selection
  import opened Microsteps
  import opened Staging
  import opened Completions
  import opened Engines
  import opened Macrosteps

  /** Some edge of the chart reacts to the event. */
  ghost predicate Reacts(d: Definition, name: string)
  {
    exists u: Transition :: IsEdge(d, u) && !u.Eventless() && (u.event == name || u.event == "*")
  }

  /** Entering f stages this event: f is a final that completes its parent, or the parallel above it. */
  predicate Names(d: Definition, f: Node, name: string)
    requires IsTree(d)
  {
    && InTree(d, f) && Kind(d, f) == Final && !EndsMachine(d, f)
    && (name == DoneEvent(d, Parent(d, f).value)
        || (Parent(d, Parent(d, f).value).Some? && name == DoneEvent(d, Parent(d, Parent(d, f).value).value)))
  }

  /** Taking t can stage the event: t can enter a final that does. */
  ghost predicate CanComplete(d: Definition, t: Transition, name: string)
    requires IsTree(d)
  {
    EndsInTree(d, t) && exists hist: Hist, E: set<Node>, f: Node :: Enters(d, hist, t, E, f) && Names(d, f, name)
  }

  ghost predicate Enters(d: Definition, hist: Hist, t: Transition, E: set<Node>, f: Node)
    requires IsTree(d) && EndsInTree(d, t)
  {
    EntryReady(d, hist) && f in AddTransition(d, hist, t, E) && f !in E
  }

  /** Completions do not go round in a circle: what an edge can complete, as far as anything
      reacts to it, ranks below every completion event that the edge itself reacts to and at
      most at the top; eventless edges complete nothing that anything reacts to. */
  ghost predicate Ranked(d: Definition, rank: string -> nat, top: nat)
    requires IsTree(d)
  {
    forall t: Transition, name: string | IsEdge(d, t) && CanComplete(d, t, name) && Reacts(d, name) ::
      && !t.Eventless() && rank(name) <= top
      && forall e: string | IsDoneName(e) && (t.event == e || t.event == "*") :: rank(name) < rank(e)
  }

  // ------------------------------------------------------------------ weights

  function Pow(w: nat, k: nat): (r: nat)
    ensures w > 0 ==> r > 0
  {
    if k == 0 then 1 else w * Pow(w, k - 1)
  }

  lemma {:induction false} PowGrows(w: nat, k: nat, m: nat)
    requires w > 0 && k <= m
    ensures Pow(w, k) <= Pow(w, m)
    decreases m
  {
    if k == m {
    } else {
      PowGrows(w, k, m - 1);
      assert Pow(w, m) == w * Pow(w, m - 1) >= Pow(w, m - 1);
    }
  }

  /** More than the events one microstep can stage. */
  function Base(d: Definition): nat { 2 * |d.nodes| + 1 }

  ghost function Weight(d: Definition, rank: string -> nat, name: string): nat
  {
    if Reacts(d, name) then Pow(Base(d), rank(name)) else 0
  }

  ghost function Weights(d: Definition, rank: string -> nat, names: seq<string>): nat
  {
    if names == [] then 0 else Weight(d, rank, names[0]) + Weights(d, rank, names[1..])
  }

  function Descriptors(q: seq<Queued>): seq<string>
  {
    seq(|q|, i requires 0 <= i < |q| => q[i].descriptor)
  }

  lemma {:induction false} WeightsAppend(d: Definition, rank: string -> nat, a: seq<string>, b: seq<string>)
    ensures Weights(d, rank, a + b) == Weights(d, rank, a) + Weights(d, rank, b)
    decreases |a|
  {
    if a == [] {
      assert a + b == b;
    } else {
      assert (a + b)[1..] == a[1..] + b;
      WeightsAppend(d, rank, a[1..], b);
    }
  }

  /** If each of the names weighs at most w, all of them weigh at most w for each. */
  lemma {:induction false} WeightsAtMost(d: Definition, rank: string -> nat, names: seq<string>, w: nat)
    requires forall x | x in names :: Weight(d, rank, x) <= w
    ensures Weights(d, rank, names) <= |names| * w
    decreases |names|
  {
    if names == [] {
    } else {
      hide Weight;
      WeightsAtMost(d, rank, names[1..], w);
      OneMore(|names[1..]|, w);
    }
  }

  lemma OneMore(k: nat, w: nat)
    ensures (k + 1) * w == w + k * w
  {
  }

  lemma {:induction false} DoneQueueNames(b: Behavior, names: seq<string>)
    ensures Descriptors(DoneQueue(b, names)) == names
    decreases |names|
  {
    if names == [] {
    } else {
      DoneQueueNames(b, names[1..]);
      assert names == [names[0]] + names[1..];
    }
  }

  // ------------------------------------------------------------------ what a microstep stages

  lemma {:induction false} DoneEventsNames(d: Definition, q: seq<Node>, name: string)
    requires name in DoneEvents(d, q)
    ensures exists p: Node :: p in q && InTree(d, p) && name == DoneEvent(d, p)
    decreases |q|
  {
    if q == [] {
    } else if !(InTree(d, q[0]) && name == DoneEvent(d, q[0])) {
      DoneEventsNames(d, q[1..], name);
    } else {
      assert q[0] in q;
    }
  }

  lemma {:induction false} DoneEventsFew(d: Definition, q: seq<Node>)
    ensures |DoneEvents(d, q)| <= |q|
    decreases |q|
  {
    if q == [] {
    } else {
      DoneEventsFew(d, q[1..]);
    }
  }

  lemma {:induction false} CompletedFew(d: Definition, base: set<Node>, entered: seq<Node>)
    requires IsTree(d) && AllInTree(d, entered)
    ensures |Completed(d, base, entered)| <= 2 * |entered|
    decreases |entered|
  {
    if entered == [] {
    } else {
      assert entered[|entered| - 1] in entered;
      CompletedFew(d, base, entered[..|entered| - 1]);
    }
  }

  lemma {:induction false} AscendingFew(q: seq<Node>, n: nat)
    requires StrictlyAscending(q) && forall x | x in q :: x < n
    ensures |q| <= n
    decreases |q|
  {
    if q == [] {
    } else {
      var last := |q| - 1;
      assert q[last] in q;
      forall x | x in q[..last] ensures x < q[last] { }
      AscendingFew(q[..last], q[last]);
    }
  }

  /** What is completed was completed by an entered final. */
  lemma {:induction false} CompletedNames(d: Definition, base: set<Node>, entered: seq<Node>, p: Node)
    requires IsTree(d) && AllInTree(d, entered) && p in Completed(d, base, entered)
    ensures InTree(d, p) && exists f :: f in entered && InTree(d, f) && Names(d, f, DoneEvent(d, p))
    decreases |entered|
  {
    if entered == [] {
    } else {
      var last := |entered| - 1;
      var s := entered[last];
      assert s in entered;
      if p in CompletedBy(d, s, base + Members(entered)) {
        CompletedByInTree(d, s, base + Members(entered));
        assert Names(d, s, DoneEvent(d, p));
      } else {
        CompletedNames(d, base, entered[..last], p);
        var f :| f in entered[..last] && InTree(d, f) && Names(d, f, DoneEvent(d, p));
        assert f in entered;
      }
    }
  }

  /** What is entered is entered by one of the transitions. */
  lemma {:induction false} EnteredBySome(d: Definition, hist: Hist, ts: seq<Transition>, E: set<Node>, f: Node)
    requires IsTree(d) && EntryReady(d, hist) && forall t | t in ts :: EndsInTree(d, t)
    requires f in EntrySetFrom(d, hist, ts, E) && f !in E
    ensures exists t, G: set<Node> :: t in ts && Enters(d, hist, t, G, f)
    decreases |ts|
  {
    if ts == [] {
    } else {
      var F := AddTransition(d, hist, ts[0], E);
      assert EntrySetFrom(d, hist, ts, E) == EntrySetFrom(d, hist, ts[1..], F);
      if f in F {
        assert ts[0] in ts && Enters(d, hist, ts[0], E, f);
      } else {
        EnteredBySome(d, hist, ts[1..], F, f);
        var t, G: set<Node> :| t in ts[1..] && Enters(d, hist, t, G, f);
        assert t in ts;
      }
    }
  }

  /** Every staged event can be completed by one of the transitions taken. */
  lemma StagedCanComplete(c: Chart, s: State, ms: Staged, name: string)
    requires Runnable(c, s) && StagesMicrostep(c, s, ms) && name in ms.internalEnqueue
    ensures exists t :: t in ms.transitions && IsEdge(c.d, t) && CanComplete(c.d, t, name)
  {
    hide WellFormed, Rooted, EntryReady, Selected, Completed, DoneEvents;
    RunnableTree(c, s);
    RunnableReady(c, s);
    var kept := s.cfg - Members(ms.exited);
    DoneEventsNames(c.d, Completed(c.d, kept, ms.entered), name);
    var p: Node :| p in Completed(c.d, kept, ms.entered) && InTree(c.d, p) && name == DoneEvent(c.d, p);
    CompletedNames(c.d, kept, ms.entered, p);
    var f :| f in ms.entered && InTree(c.d, f) && Names(c.d, f, DoneEvent(c.d, p));
    assert f in Members(ms.entered);
    EnteredBySome(c.d, s.hist, ms.transitions, {}, f);
    var t, G: set<Node> :| t in ms.transitions && Enters(c.d, s.hist, t, G, f);
    assert CanComplete(c.d, t, name);
  }

  lemma RunnableReady(c: Chart, s: State)
    requires Runnable(c, s)
    ensures EntryReady(c.d, s.hist)
  {
  }

  lemma StagedFew(c: Chart, s: State, ms: Staged)
    requires Runnable(c, s) && StagesMicrostep(c, s, ms)
    ensures |ms.internalEnqueue| <= 2 * |c.d.nodes|
  {
    RunnableTree(c, s);
    var kept := s.cfg - Members(ms.exited);
    DoneEventsFew(c.d, Completed(c.d, kept, ms.entered));
    CompletedFew(c.d, kept, ms.entered);
    AscendingFew(ms.entered, |c.d.nodes|);
  }

  // ------------------------------------------------------------------ how a step uses up the weight

  /** What a microstep stages weighs nothing if its edges are eventless, less than the event
      that triggered it if that is a completion event, and is bounded in any case. */
  lemma StagedWeight(c: Chart, s: State, ms: Staged, rank: string -> nat, top: nat, e: string)
    requires Runnable(c, s) && StagesMicrostep(c, s, ms) && Ranked(c.d, rank, top)
    ensures (forall t | t in ms.transitions :: t.Eventless()) ==> Weights(c.d, rank, ms.internalEnqueue) == 0
    ensures (forall t | t in ms.transitions :: t.event == e || t.event == "*") && IsDoneName(e) ==>
              Weights(c.d, rank, ms.internalEnqueue) < Pow(Base(c.d), rank(e))
    ensures Weights(c.d, rank, ms.internalEnqueue) <= 2 * |c.d.nodes| * Pow(Base(c.d), top)
  {
    hide Runnable, StagesMicrostep, Reacts, Ranked, CanComplete, Pow;
    RunnableTree(c, s);
    var names, n := ms.internalEnqueue, |c.d.nodes|;
    StagedFew(c, s, ms);
    forall x | x in names
      ensures Weight(c.d, rank, x) <= Pow(Base(c.d), top)
      ensures (forall t | t in ms.transitions :: t.Eventless()) ==> Weight(c.d, rank, x) == 0
      ensures (forall t | t in ms.transitions :: t.event == e || t.event == "*") && IsDoneName(e) ==>
                (if rank(e) == 0 then Weight(c.d, rank, x) == 0
                  else Weight(c.d, rank, x) <= Pow(Base(c.d), rank(e) - 1))
    {
      StagedNameWeight(c, s, ms, rank, top, e, x);
    }
    WeightsAtMost(c.d, rank, names, Pow(Base(c.d), top));
    Scaled(|names|, 2 * n, Pow(Base(c.d), top));
    if forall t | t in ms.transitions :: t.Eventless() { WeightsAtMost(c.d, rank, names, 0); }
    if (forall t | t in ms.transitions :: t.event == e || t.event == "*") && IsDoneName(e) {
      if rank(e) == 0 {
        WeightsAtMost(c.d, rank, names, 0);
      } else {
        var w := Pow(Base(c.d), rank(e) - 1);
        WeightsAtMost(c.d, rank, names, w);
        Scaled(|names|, 2 * n, w);
        PowStep(c.d, rank(e));
      }
    }
  }

  lemma Scaled(a: nat, b: nat, w: nat)
    requires a <= b
    ensures a * w <= b * w
  {
  }

  lemma PowStep(d: Definition, k: nat)
    requires k > 0
    ensures 2 * |d.nodes| * Pow(Base(d), k - 1) < Pow(Base(d), k)
  {
    var w := Pow(Base(d), k - 1);
    assert Pow(Base(d), k) == (2 * |d.nodes| + 1) * w == 2 * |d.nodes| * w + w;
  }

  lemma StagedNameWeight(c: Chart, s: State, ms: Staged, rank: string -> nat, top: nat, e: string, x: string)
    requires Runnable(c, s) && StagesMicrostep(c, s, ms) && IsTree(c.d) && Ranked(c.d, rank, top)
             && x in ms.internalEnqueue
    ensures Weight(c.d, rank, x) <= Pow(Base(c.d), top)
    ensures (forall t | t in ms.transitions :: t.Eventless()) ==> Weight(c.d, rank, x) == 0
    ensures (forall t | t in ms.transitions :: t.event == e || t.event == "*") && IsDoneName(e) ==>
              (if rank(e) == 0 then Weight(c.d, rank, x) == 0 else Weight(c.d, rank, x) <= Pow(Base(c.d), rank(e) - 1))
  {
    hide Runnable, StagesMicrostep, Reacts, CanComplete, Pow;
    StagedCanComplete(c, s, ms, x);
    var t :| t in ms.transitions && IsEdge(c.d, t) && CanComplete(c.d, t, x);
    if Reacts(c.d, x) {
      PowGrows(Base(c.d), rank(x), top);
      if IsDoneName(e) && (t.event == e || t.event == "*") { PowGrows(Base(c.d), rank(x), rank(e) - 1); }
    }
  }

  /** The weight of what an event may still set off: that of the queue, and more than an
      external event can stage if one is pending. */
  ghost function Load(c: Chart, rank: string -> nat, top: nat, s: State): nat
  {
    Weights(c.d, rank, Descriptors(s.internalQueue))
    + (if s.pendingExternal.Some? then 1 + 2 * |c.d.nodes| * Pow(Base(c.d), top) else 0)
  }

  lemma HeadWeight(d: Definition, rank: string -> nat, q: seq<Queued>)
    requires q != []
    ensures Weights(d, rank, Descriptors(q)) == Weight(d, rank, q[0].descriptor) + Weights(d, rank, Descriptors(q[1..]))
  {
    assert Descriptors(q)[1..] == Descriptors(q[1..]);
  }

  /** Taking an event lightens the load, whatever it stages. */
  lemma {:induction false} EventLightens(c: Chart, s: State, rank: string -> nat, top: nat)
    requires Runnable(c, s) && Ranked(c.d, rank, top) && DoneOnly(s.internalQueue) && StepInternal(c, s).1.Next?
    ensures var (s', outcome) := StepInternal(c, s);
            Load(c, rank, top, s') + Weights(c.d, rank, outcome.ms.internalEnqueue) < Load(c, rank, top, s)
    decreases |s.internalQueue|
  {
    hide Runnable, Ranked, StagesMicrostep, Select, Selected, Reacts, Weights, Pow, MicrostepFor;
    RunnableTree(c, s);
    if s.internalQueue == [] {
      var qe, s1 := s.pendingExternal.value, s.(pendingExternal := None);
      EventStages(c, s, s1, qe);
      NothingWeighs(c.d, rank);
      StagedWeight(c, s, StepInternal(c, s).1.ms, rank, top, "");
    } else {
      var qe, s1 := s.internalQueue[0], s.(internalQueue := s.internalQueue[1..]);
      var ts := Matching(c, s, OnEvent(qe.descriptor), qe.payload);
      HeadWeight(c.d, rank, s.internalQueue);
      EventStages(c, s, s1, qe);
      RunnableQueues(c, s, s1);
      if ts == [] {
        EventLightens(c, s1, rank, top);
      } else {
        MicrostepFields(c, s1, ts, qe.payload, true);
        MatchingReacts(c, s, qe);
        StagedWeight(c, s, MicrostepFor(c, s1, ts, qe.payload, true), rank, top, qe.descriptor);
      }
    }
  }

  lemma NothingWeighs(d: Definition, rank: string -> nat)
    ensures Weights(d, rank, Descriptors([])) == 0
  {
  }

  lemma MatchingReacts(c: Chart, s: State, qe: Queued)
    requires Runnable(c, s)
    ensures IsTree(c.d)
    ensures var ts := Matching(c, s, OnEvent(qe.descriptor), qe.payload);
            && (forall t | t in ts :: t.event == qe.descriptor || t.event == "*")
            && (ts != [] ==> Reacts(c.d, qe.descriptor))
  {
    MatchingChooses(c, s, OnEvent(qe.descriptor), qe.payload);
    var ts := Matching(c, s, OnEvent(qe.descriptor), qe.payload);
    if ts != [] { assert ts[0] in ts; }
  }

  lemma MatchingEventless(c: Chart, s: State)
    requires Runnable(c, s)
    ensures IsTree(c.d) && forall t | t in Matching(c, s, Always, c.b.zero) :: t.Eventless()
  {
    MatchingChooses(c, s, Always, c.b.zero);
  }

  /** How many microsteps a macrostep can still take. */
  ghost function Left(c: Chart, rank: string -> nat, top: nat, s: State): nat
    requires s.alwaysRun <= c.alwaysLimit
  {
    c.alwaysLimit - s.alwaysRun + (c.alwaysLimit + 1) * Load(c, rank, top, s)
  }

  lemma {:induction false} InternalTriggered(c: Chart, s: State)
    requires Runnable(c, s) && StepInternal(c, s).1.Next?
    ensures StepInternal(c, s).1.ms.triggered
    decreases |s.internalQueue|
  {
    InternalStages(c, s);
  }

  /** Every microstep uses up some of it. */
  lemma StepLightens(c: Chart, s: State, rank: string -> nat, top: nat)
    requires Runnable(c, s) && Ranked(c.d, rank, top) && DoneOnly(s.internalQueue) && s.alwaysRun <= c.alwaysLimit
    requires Step(c, s).1.Next?
    ensures var s' := CommitState(c, Step(c, s).0, Step(c, s).1.ms);
            s'.alwaysRun <= c.alwaysLimit && Left(c, rank, top, s') < Left(c, rank, top, s)
              && DoneOnly(s'.internalQueue)
  {
    hide Runnable, Ranked, StagesMicrostep, Select, Selected, StepInternal, MicrostepFor, Weights, Pow, DoneOnly;
    StepStages(c, s);
    MatchingEventless(c, s);
    var ts := Matching(c, s, Always, c.b.zero);
    var (s1, outcome) := Step(c, s);
    var names := outcome.ms.internalEnqueue;
    if ts != [] {
      MatchingChooses(c, s, Always, c.b.zero);
      MicrostepFields(c, s, ts, c.b.zero, false);
      StagedWeight(c, s, outcome.ms, rank, top, "");
    } else {
      InternalTriggered(c, s);
      EventLightens(c, s, rank, top);
      TakenBudget(c.alwaysLimit, s.alwaysRun, Load(c, rank, top, s1)
        + Weights(c.d, rank, names), Load(c, rank, top, s));
    }
    MoveKeepsDone(c, s, Take);
    CommitWeighs(c, s1, outcome.ms, rank, top);
  }

  lemma TakenBudget(limit: nat, run: nat, after: nat, before: nat)
    requires after < before && run <= limit
    ensures limit + (limit + 1) * after < limit - run + (limit + 1) * before
  {
    assert (limit + 1) * before >= (limit + 1) * (after + 1) == (limit + 1) * after + (limit + 1);
  }

  /** Committing puts the staged events behind the others. */
  lemma CommitWeighs(c: Chart, s: State, ms: Staged, rank: string -> nat, top: nat)
    ensures Load(c, rank, top, CommitState(c, s, ms)) == Load(c, rank, top, s) + Weights(c.d, rank, ms.internalEnqueue)
  {
    var added := DoneQueue(c.b, ms.internalEnqueue);
    DoneQueueNames(c.b, ms.internalEnqueue);
    assert Descriptors(s.internalQueue + added) == Descriptors(s.internalQueue) + Descriptors(added);
    WeightsAppend(c.d, rank, Descriptors(s.internalQueue), Descriptors(added));
  }

  /** If completions are ranked, a macrostep ends within that many microsteps. */
  lemma {:induction false} RankedMacrostepEnds(c: Chart, s: State, rank: string -> nat, top: nat, fuel: nat)
    requires Runnable(c, s) && Ranked(c.d, rank, top) && DoneOnly(s.internalQueue) && s.alwaysRun <= c.alwaysLimit
    requires fuel >= Left(c, rank, top, s)
    ensures !Macrostep(c, s, fuel).OutOfFuel?
    decreases fuel
  {
    hide Runnable, Ranked, DoneOnly, Left, Step, CommitState, Macrostep;
    RunnableTree(c, s);
    MacrostepUnfold(c, s, fuel);
    StepRunnable(c, s);
    var (s', outcome) := Step(c, s);
    if outcome.Next? {
      StepLightens(c, s, rank, top);
      var s'' := CommitState(c, s', outcome.ms);
      if !s''.status.Terminal() { RankedMacrostepEnds(c, s'', rank, top, fuel - 1); }
    }
  }

  /** After any run of such a chart, whatever was offered, the next macrostep ends. */
  lemma RankedMacrostepsTerminate(c: Chart, ctx: Ctx, moves: seq<Move>, rank: string -> nat, top: nat)
    requires WellFormed(c.d) && Ranked(c.d, rank, top)
    ensures Runnable(c, Started(c, ctx)) && Exec(c, Started(c, ctx), moves).alwaysRun <= c.alwaysLimit
    ensures var s := Exec(c, Started(c, ctx), moves); !Macrostep(c, s, Left(c, rank, top, s)).OutOfFuel?
  {
    StartedRunnable(c, ctx);
    StartKeepsDone(c, ctx);
    RunKeepsDone(c, Started(c, ctx), moves);
    var s := Exec(c, Started(c, ctx), moves);
    RankedMacrostepEnds(c, s, rank, top, Left(c, rank, top, s));
  }

  /** A chart in which nothing reacts to completion events is ranked by anything. */
  lemma NoDoneEdgesRanked(c: Chart, rank: string -> nat, top: nat)
    requires IsTree(c.d) && NoDoneEdges(c)
    ensures Ranked(c.d, rank, top)
  {
    forall t: Transition, name: string | IsEdge(c.d, t) && CanComplete(c.d, t, name) ensures !Reacts(c.d, name) {
      var hist: Hist, E: set<Node>, f: Node :| Enters(c.d, hist, t, E, f) && Names(c.d, f, name);
      assert IsDoneName(name);
    }
  }

  // ------------------------------------------------------------------ bounds known beforehand

  /** As many microsteps as one event at rest can set off. */
  function EventBound(c: Chart, top: nat): nat
  {
    c.alwaysLimit + (c.alwaysLimit + 1) * (1 + 2 * |c.d.nodes| * Pow(Base(c.d), top))
  }

  /** This many microsteps are enough for the macrostep of one event. */
  ghost predicate Enough(c: Chart, fuel: nat)
  {
    && IsTree(c.d)
    && ((NoDoneEdges(c) && fuel >= 2 * c.alwaysLimit + 1)
        || exists rank: string -> nat, top: nat :: Ranked(c.d, rank, top) && fuel >= EventBound(c, top))
  }

  /** And these for what follows the start microstep. */
  ghost predicate EnoughAtStart(c: Chart, ctx: Ctx, fuel: nat)
  {
    && WellFormed(c.d) && Started(c, ctx).alwaysRun <= c.alwaysLimit
    && ((NoDoneEdges(c) && fuel >= 2 * c.alwaysLimit + 1)
        || exists rank: string -> nat, top: nat ::
             Ranked(c.d, rank, top) && fuel >= Left(c, rank, top, Started(c, ctx)))
  }

  lemma LeftOfEvent(c: Chart, s: State, rank: string -> nat, top: nat)
    requires s.internalQueue == [] && s.alwaysRun <= c.alwaysLimit
    ensures Left(c, rank, top, s) <= EventBound(c, top)
  {
    hide Pow;
    NothingWeighs(c.d, rank);
    var k := 1 + 2 * |c.d.nodes| * Pow(Base(c.d), top);
    assert Load(c, rank, top, s) <= k;
    assert (c.alwaysLimit + 1) * Load(c, rank, top, s) <= (c.alwaysLimit + 1) * k;
  }

  /** The macrostep of one event ends if the bound is high enough. */
  lemma EventMacrostepEnds(c: Chart, s: State, fuel: nat)
    requires Runnable(c, s) && s.internalQueue == [] && s.alwaysRun <= c.alwaysLimit && Enough(c, fuel)
    ensures !Macrostep(c, s, fuel).OutOfFuel?
  {
    hide Runnable, NoDoneEdges, Ranked, Left, EventBound, Macrostep;
    if NoDoneEdges(c) && fuel >= 2 * c.alwaysLimit + 1 {
      MacrostepEnds(c, s, fuel);
    } else {
      var rank: string -> nat, top: nat :| Ranked(c.d, rank, top) && fuel >= EventBound(c, top);
      LeftOfEvent(c, s, rank, top);
      RankedMacrostepEnds(c, s, rank, top, fuel);
    }
  }

  lemma StartMacrostepEnds(c: Chart, ctx: Ctx, fuel: nat)
    requires EnoughAtStart(c, ctx, fuel)
    ensures Runnable(c, Started(c, ctx)) && !Macrostep(c, Started(c, ctx), fuel).OutOfFuel?
  {
    hide WellFormed, Runnable, NoDoneEdges, Ranked, Left, Started, Macrostep;
    StartedRunnable(c, ctx);
    RunnableTree(c, Started(c, ctx));
    StartKeepsDone(c, ctx);
    if NoDoneEdges(c) && fuel >= 2 * c.alwaysLimit + 1 {
      MacrostepEnds(c, Started(c, ctx), fuel);
    } else {
      var rank: string -> nat, top: nat :| Ranked(c.d, rank, top) && fuel >= Left(c, rank, top, Started(c, ctx));
      RankedMacrostepEnds(c, Started(c, ctx), rank, top, fuel);
    }
  }

  /** What every run keeps within its limits. */
  lemma RunLimits(c: Chart, ctx: Ctx, moves: seq<Move>)
    requires WellFormed(c.d)
    ensures DoneOnly(After(c, ctx, moves).internalQueue) && After(c, ctx, moves).alwaysRun <= c.alwaysLimit
  {
    hide WellFormed, Runnable, Exec, Started;
    StartedRunnable(c, ctx);
    StartKeepsDone(c, ctx);
    RunKeepsDone(c, Started(c, ctx), moves);
  }
}
