/** The actor around the engine (machine.go, actors.go): published snapshots, versions,
    timers, children, subscribers and the mailbox, kept in step with the engine.

    The actor goroutine is one sequential object; what other goroutines do is the method
    `Enqueue`.  Observers and the clock are uninterpreted functions, and the clock is read
    as often as the code reads it. */
module Machines {
  import opened Definitions
  import opened Configurations
  import opened Entry
  import opened Selection
  import opened Microsteps
  import opened Staging
  import opened Engines
  import opened EngineObjects
  import opened Macrosteps
  import opened Rankings
  import opened Timers

  datatype Snapshot = Snapshot(
    activeStates: seq<string>,
    ctx: Ctx,
    pendingAfter: seq<ScheduledTimer>,
    status: Status,
    errorReason: Option<Reason>,
    version: nat,
    invokeRestarts: map<string, nat>)

  /** A published snapshot and the engine state at the moment of publication. */
  datatype Published = Published(snapshot: Snapshot, state: State)

  type Observer = (Snapshot, Snapshot, Payload) -> Option<string>

  datatype Item = Event(q: Queued) | Ping | DrainClose

  /** A subscriber's channel: what was sent to it since version `since`. */
  datatype Subscription = Subscription(id: nat, since: nat, sent: seq<Snapshot>)

  /** A running child; `instance` counts the spawns of its invoke id. */
  datatype Child = Child(id: string, instance: nat)

  datatype MacroEnd = WentQuiet | WentTerminal | RanOutOfFuel

  // ------------------------------------------------------------------ specification functions

  function FirstRefusal(observers: seq<Observer>, before: Snapshot, after: Snapshot, evt: Payload): Option<string>
  {
    if observers == [] then None
    else
      var verdict := observers[0](before, after, evt);
      if verdict.Some? then verdict else FirstRefusal(observers[1..], before, after, evt)
  }

  predicate Refused(s: Snapshot) { s.errorReason.Some? && s.errorReason.value.ObserverFailed? }

  /** Some observer gives this as its reason. */
  ghost predicate Says(observers: seq<Observer>, cause: string)
  {
    exists i, before, after, evt | 0 <= i < |observers| :: observers[i](before, after, evt) == Some(cause)
  }

  lemma {:induction false} RefusalSaid(observers: seq<Observer>, before: Snapshot, after: Snapshot, evt: Payload)
    requires FirstRefusal(observers, before, after, evt).Some?
    ensures Says(observers, FirstRefusal(observers, before, after, evt).value)
  {
    if observers == [] {
    } else if observers[0](before, after, evt).Some? {
      assert observers[0](before, after, evt) == FirstRefusal(observers, before, after, evt);
    } else {
      var cause := FirstRefusal(observers, before, after, evt).value;
      RefusalSaid(observers[1..], before, after, evt);
      var i, b, a, e :| 0 <= i < |observers[1..]| && observers[1..][i](b, a, e) == Some(cause);
      assert observers[i + 1](b, a, e) == Some(cause);
    }
  }

  /** The first observer, in the order of registration, that refuses gives the reason; those
      before it have agreed. */
  lemma {:induction false} FirstRefusalExactly(observers: seq<Observer>, before: Snapshot, after: Snapshot,
                                               evt: Payload)
    ensures FirstRefusal(observers, before, after, evt) == None <==>
              forall i | 0 <= i < |observers| :: observers[i](before, after, evt) == None
    ensures forall i | 0 <= i < |observers| && observers[i](before, after, evt).Some?
              && (forall j | 0 <= j < i :: observers[j](before, after, evt) == None) ::
              FirstRefusal(observers, before, after, evt) == observers[i](before, after, evt)
  {
    if observers == [] {
    } else {
      FirstRefusalExactly(observers[1..], before, after, evt);
      if observers[0](before, after, evt) == None {
        forall i | 0 < i < |observers| ensures observers[i] == observers[1..][i - 1] { }
        assert forall i | 0 <= i < |observers[1..]| :: observers[1..][i] == observers[i + 1];
      }
    }
  }

  /** Restart counts: spawns beyond the first. */
  function Restarts(spawns: map<string, nat>): map<string, nat>
  {
    map id | id in spawns && spawns[id] > 1 :: spawns[id] - 1
  }

  /** The invoke ids declared by the active states. */
  function Desired(d: Definition, cfg: set<Node>): set<string>
  {
    set n, iv | n in cfg && InTree(d, n) && iv in d.nodes[n].invokes :: iv.id
  }

  /** Some active state declares an invoke with that id. */
  ghost predicate Declared(d: Definition, cfg: set<Node>, id: string)
  {
    exists n, iv :: n in cfg && InTree(d, n) && iv in d.nodes[n].invokes && iv.id == id
  }

  lemma DesiredDeclared(d: Definition, cfg: set<Node>)
    ensures forall id :: id in Desired(d, cfg) <==> Declared(d, cfg, id)
  {
  }

  function Sent(published: seq<Published>): seq<Snapshot>
  {
    if published == [] then [] else [published[0].snapshot] + Sent(published[1..])
  }

  lemma {:induction false} SentAppend(p: seq<Published>, x: Published)
    ensures Sent(p + [x]) == Sent(p) + [x.snapshot]
  {
    if p == [] {
    } else {
      assert (p + [x])[1..] == p[1..] + [x];
      SentAppend(p[1..], x);
    }
  }

  predicate Live(status: Status) { status == Running || status == Done }

  predicate SnapshotOk(d: Definition, p: Published)
  {
    && (p.snapshot.errorReason.Some? <==> p.snapshot.status == Error)
    && (Live(p.snapshot.status) ==>
      p.snapshot.activeStates == Ids(d, Leaves(d, p.state.cfg)) && p.snapshot.ctx == p.state.ctx)
  }

  /** Versions count up from 0, snapshots tell the truth, and only the last may be terminal. */
  ghost predicate StreamOk(d: Definition, published: seq<Published>, snap: Snapshot, version: nat)
  {
    && |published| == version + 1
    && published[version].snapshot == snap
    && (forall i | 0 <= i < |published| :: published[i].snapshot.version == i && SnapshotOk(d, published[i]))
    && (forall i | 0 <= i < version :: !published[i].snapshot.status.Terminal())
  }

  /** A microstep that fits the state it is about to be committed to. */
  ghost predicate Fits(c: Chart, s: State, ms: Staged)
  {
    && Runnable(c, CommitState(c, s, ms))
    && AllInTree(c.d, ms.exited) && AllInTree(c.d, ms.entered) && StrictlyAscending(ms.entered)
    && ms.cfg == (s.cfg - Members(ms.exited)) + Members(ms.entered)
    && (RootFree(c.d) ==> (s.cfg - Members(ms.exited)) !! Members(ms.entered))
    && ms.nextActive == Ids(c.d, Leaves(c.d, ms.cfg))
  }

  lemma StepFits(c: Chart, s: State)
    requires Runnable(c, s) && Step(c, s).1.Next?
    ensures Fits(c, Step(c, s).0, Step(c, s).1.ms)
  {
    hide WellFormed, Rooted, EntryReady, RootFree, NoRootEdges, Step, Selected;
    RunnableTree(c, s);
    StepRunnable(c, s);
    StepStages(c, s);
    if RootFree(c.d) {
      StagesAvoidRoot(c, s, Step(c, s).1.ms);
      MicrostepLocal(c.d, s.hist, s.cfg, Step(c, s).1.ms.transitions);
    }
  }

  lemma StartFits(c: Chart, ctx: Ctx)
    requires WellFormed(c.d)
    ensures Fits(c, InitialState(c.b, ctx), StartStep(c, ctx))
  {
    StartedRunnable(c, ctx);
    StartEnters(c);
    var E := AddDescendants(c.d, map[], ROOT, {});
    AscendingSorted(E, |c.d.nodes|);
    assert Members(Ascending(E, |c.d.nodes|)) == E;
  }

  lemma StreamPush(d: Definition, published: seq<Published>, snap: Snapshot, version: nat, x: Published)
    requires StreamOk(d, published, snap, version) && !snap.status.Terminal()
    requires x.snapshot.version == version + 1 && SnapshotOk(d, x)
    ensures StreamOk(d, published + [x], x.snapshot, version + 1)
  {
  }

  lemma LastOk(d: Definition, published: seq<Published>, snap: Snapshot, version: nat)
    requires StreamOk(d, published, snap, version)
    ensures snap.version == version && (snap.errorReason.Some? <==> snap.status == Error)
  {
    assert SnapshotOk(d, published[version]);
  }

  /** Every subscriber was sent, in order, everything published since it was registered. */
  ghost predicate UpToDate(published: seq<Published>, subs: seq<Subscription>)
  {
    forall i | 0 <= i < |subs| :: subs[i].since < |published| && subs[i].sent == Sent(published[subs[i].since + 1..])
  }

  function SendTo(sub: Subscription, s: Snapshot): Subscription { sub.(sent := sub.sent + [s]) }

  function SendAll(subs: seq<Subscription>, s: Snapshot): seq<Subscription>
  {
    seq(|subs|, i requires 0 <= i < |subs| => SendTo(subs[i], s))
  }

  /** What only ever grows: the published stream, the timers ever scheduled and cancelled,
      and the subscriptions with their ids and starting versions. */
  datatype Ledger = Ledger(published: seq<Published>, nextTimer: nat, cancelled: set<nat>, subs: set<(nat, nat)>)

  predicate Continues(a: Ledger, b: Ledger)
  {
    a.published <= b.published && a.nextTimer <= b.nextTimer && a.cancelled <= b.cancelled && a.subs <= b.subs
  }

  lemma ContinuesMeans(a: Ledger, b: Ledger)
    ensures Continues(a, b)
       <==> a.published <= b.published && a.nextTimer <= b.nextTimer && a.cancelled <= b.cancelled && a.subs <= b.subs
  {
  }

  lemma ContinuesOn(a: Ledger, b: Ledger, c: Ledger)
    requires Continues(a, b) && Continues(b, c)
    ensures Continues(a, c)
  {
  }

  function Known(subs: seq<Subscription>): set<(nat, nat)>
  {
    set i | 0 <= i < |subs| :: (subs[i].id, subs[i].since)
  }

  lemma SendAllKnown(subs: seq<Subscription>, s: Snapshot)
    ensures Known(SendAll(subs, s)) == Known(subs)
  {
    var sent := SendAll(subs, s);
    forall i | 0 <= i < |subs| ensures (sent[i].id, sent[i].since) == (subs[i].id, subs[i].since) { }
  }

  lemma NobodyLeft(published: seq<Published>)
    ensures UpToDate(published, [])
  {
  }

  lemma SendAllUpToDate(published: seq<Published>, subs: seq<Subscription>, x: Published)
    requires UpToDate(published, subs)
    ensures UpToDate(published + [x], SendAll(subs, x.snapshot))
  {
    var sent := SendAll(subs, x.snapshot);
    forall i | 0 <= i < |sent|
      ensures sent[i].since < |published| + 1 && sent[i].sent == Sent((published + [x])[sent[i].since + 1..])
    {
      var k := subs[i].since + 1;
      SentAppend(published[k..], x);
      assert (published + [x])[k..] == published[k..] + [x];
    }
  }

  /** Committing a microstep and then cancelling and arming keeps the timer table matched to
      the configuration; the planned list is the table if and only if the two clock readings
      agree or nothing entered has an `after` edge.  Only an edge of the root can arm a state
      that was armed already. */
  lemma TimersFollow(c: Chart, s: State, ms: Staged, delays: map<string, int>, armed: Armed, next: nat,
                     cancelled: set<nat>,
                     planned: int, actual: int, pending: seq<ScheduledTimer>)
    requires Fits(c, s, ms) && TimersMatch(c.d, s.cfg, armed, RootFree(c.d))
    requires Accounted(armed - Members(ms.exited), next, cancelled)
    requires multiset(pending)
             == Surviving(c.d, armed, Members(ms.exited)) + multiset(EntryTimers(c.d, delays, planned, ms.entered))
    ensures var (armed', next') := ArmAll(c.d, delays, actual, ms.entered, armed - Members(ms.exited), next);
            && TimersMatch(c.d, ms.cfg, armed', RootFree(c.d))
            && Accounted(armed', next', cancelled)
            && (multiset(pending) == Table(c.d, armed') <==>
                  planned == actual || EntryTimers(c.d, delays, planned, ms.entered) == [])
  {
    var kept := armed - Members(ms.exited);
    forall n | n in ms.entered && RootFree(c.d) ensures n !in kept {
      assert n in Members(ms.entered);
      assert n in kept ==> n in s.cfg - Members(ms.exited);
    }
    ArmAllTable(c.d, delays, actual, ms.entered, kept, next, cancelled);
    ArmAllHolds(c.d, delays, actual, ms.entered, kept, next, RootFree(c.d));
    RemoveFromTable(c.d, armed, Members(ms.exited));
    PlanMatchesArmIff(c.d, delays, planned, actual, ms.entered);
    SameSummand(Surviving(c.d, armed, Members(ms.exited)), multiset(EntryTimers(c.d, delays, planned, ms.entered)),
                multiset(EntryTimers(c.d, delays, actual, ms.entered)));
    MatchAfter(c, s, ms, armed, ArmAll(c.d, delays, actual, ms.entered, kept, next).0);
  }

  lemma SameSummand<T>(a: multiset<T>, p: multiset<T>, q: multiset<T>)
    ensures a + p == a + q <==> p == q
  {
    assert (a + p) - a == p && (a + q) - a == q;
  }

  lemma MatchAfter(c: Chart, s: State, ms: Staged, armed: Armed, armed': Armed)
    requires Fits(c, s, ms) && TimersMatch(c.d, s.cfg, armed, RootFree(c.d))
    requires forall n | n in armed' :: n in armed - Members(ms.exited) || n in ms.entered
    requires forall n | n !in ms.entered :: Held(armed', n) == Held(armed - Members(ms.exited), n)
    requires forall n | n in ms.entered :: InTree(c.d, n) && HoldsTimers(c.d, armed', n, RootFree(c.d))
    ensures TimersMatch(c.d, ms.cfg, armed', RootFree(c.d))
  {
    forall n | n in ms.cfg && InTree(c.d, n) ensures HoldsTimers(c.d, armed', n, RootFree(c.d)) {
      if n !in ms.entered {
        assert n in s.cfg && n !in Members(ms.exited);
        HoldsSame(c.d, armed, armed', n, RootFree(c.d));
      }
    }
  }

  lemma FitsEntered(c: Chart, s: State, ms: Staged)
    requires Fits(c, s, ms)
    ensures AllInTree(c.d, ms.exited) && AllInTree(c.d, ms.entered)
  {
  }

  /** The live part of the actor agrees with its last snapshot. */
  ghost predicate InStep(c: Chart, s: State, snap: Snapshot, armed: Armed, steady: bool)
  {
    && Runnable(c, s)
    && (s.status == snap.status || s.status == Error)
    && snap.activeStates == Ids(c.d, Leaves(c.d, s.cfg)) && snap.ctx == s.ctx
    && TimersMatch(c.d, s.cfg, armed, RootFree(c.d))
    && (steady ==> multiset(snap.pendingAfter) == Table(c.d, armed))
  }

  lemma TimersMatched(c: Chart, s: State, snap: Snapshot, armed: Armed, steady: bool)
    requires (s.cfg == {} && armed == map[]) || InStep(c, s, snap, armed, steady)
    ensures TimersMatch(c.d, s.cfg, armed, RootFree(c.d))
    ensures forall n | n in armed :: InTree(c.d, n)
  {
  }

  lemma CommittedOk(c: Chart, s: State, ms: Staged, after: Snapshot)
    requires Fits(c, s, ms) && after.activeStates == ms.nextActive && after.ctx == ms.ctx && after.errorReason == None
    requires after.status == (if ms.reachedFinal then Done else Running)
    ensures SnapshotOk(c.d, Published(after, CommitState(c, s, ms)))
    ensures AllInTree(c.d, ms.exited) && AllInTree(c.d, ms.entered)
  {
  }

  lemma CommitInStep(c: Chart, s: State, ms: Staged, after: Snapshot, armed: Armed, steady: bool)
    requires Fits(c, s, ms) && after.activeStates == ms.nextActive && after.ctx == ms.ctx
    requires s.status == Starting || s.status == Running
    requires after.status == (if ms.reachedFinal then Done else Running)
    requires TimersMatch(c.d, ms.cfg, armed, RootFree(c.d))
    requires steady ==> multiset(after.pendingAfter) == Table(c.d, armed)
    ensures InStep(c, CommitState(c, s, ms), after, armed, steady)
  {
  }

  lemma StepStatus(c: Chart, s: State)
    requires Runnable(c, s)
    ensures Step(c, s).0.status == s.status
            || (Step(c, s).0.status == Error && Step(c, s).0.errReason == Some(AlwaysLoopExceeded))
  {
    if Matching(c, s, Always, c.b.zero) == [] { InternalStages(c, s); }
  }

  // ------------------------------------------------------------------ the run behind the snapshots

  /** The engine states behind the published snapshots that do not report an end from outside. */
  function StatesOf(published: seq<Published>): seq<State>
  {
    if published == [] then []
    else
      var last := published[|published| - 1];
      StatesOf(published[..|published| - 1])
      + if last.snapshot.status == Error || last.snapshot.status == Stopped then [] else [last.state]
  }

  lemma StatesOfMore(published: seq<Published>, x: Published)
    ensures StatesOf(published + [x]) == StatesOf(published)
            + if x.snapshot.status == Error || x.snapshot.status == Stopped then [] else [x.state]
  {
    assert (published + [x])[..|published|] == published;
  }

  /** Only the last published snapshot can report an end from outside. */
  lemma {:induction false} StatesOfAll(published: seq<Published>)
    requires forall p | p in published :: p.snapshot.status != Error && p.snapshot.status != Stopped
    ensures |StatesOf(published)| == |published|
    ensures forall i | 0 <= i < |published| :: StatesOf(published)[i] == published[i].state
    decreases |published|
  {
    if published == [] {
    } else {
      var last := |published| - 1;
      assert published[last] in published && forall p | p in published[..last] :: p in published;
      StatesOfAll(published[..last]);
    }
  }

  lemma StatesOfAt(d: Definition, published: seq<Published>, snap: Snapshot, version: nat)
    requires StreamOk(d, published, snap, version)
    ensures forall i | 0 <= i < |published| && (i < version || Live(snap.status) || snap.status == Starting) ::
              i < |StatesOf(published)| && StatesOf(published)[i] == published[i].state
    ensures Live(snap.status) ==> |StatesOf(published)| == version + 1
    ensures forall i | 0 <= i < version :: !published[i].snapshot.status.Terminal()
  {
    var before := published[..version];
    assert published == before + [published[version]];
    forall p | p in before ensures p.snapshot.status != Error && p.snapshot.status != Stopped { }
    StatesOfAll(before);
    StatesOfMore(before, published[version]);
  }

  /** The events among the mailbox items, in order. */
  function EventsOf(items: seq<Item>): seq<Queued>
  {
    if items == [] then []
    else
      var last := items[|items| - 1];
      EventsOf(items[..|items| - 1]) + if last.Event? then [last.q] else []
  }

  lemma EventsOfMore(items: seq<Item>, item: Item)
    ensures EventsOf(items + [item]) == EventsOf(items) + if item.Event? then [item.q] else []
  {
    assert (items + [item])[..|items|] == items;
  }

  /** Only the last move may be an abandoned step, and events were offered only when the
      macrostep before had run to completion. */
  ghost predicate Orderly(c: Chart, ctx: Ctx, moves: seq<Move>)
    requires WellFormed(c.d)
  {
    && (forall i | 0 <= i < |moves| - 1 :: moves[i] != Abandon)
    && forall i | 0 <= i < |moves| && moves[i].Offer? :: Complete(c, After(c, ctx, moves[..i]))
  }

  lemma OrderlyMore(c: Chart, ctx: Ctx, moves: seq<Move>, m: Move)
    requires WellFormed(c.d) && Orderly(c, ctx, moves) && Abandon !in moves
    requires m.Offer? ==> Complete(c, After(c, ctx, moves))
    ensures Orderly(c, ctx, moves + [m])
  {
    hide After, Complete, WellFormed;
    var more := moves + [m];
    forall i | 0 <= i < |more| && more[i].Offer? ensures Complete(c, After(c, ctx, more[..i])) {
      assert if i < |moves| then more[..i] == moves[..i] && moves[i].Offer? else more[..i] == moves;
    }
  }

  lemma OrderlyBefore(c: Chart, ctx: Ctx, moves: seq<Move>)
    requires WellFormed(c.d) && Orderly(c, ctx, moves) && moves != []
    ensures Orderly(c, ctx, moves[..|moves| - 1]) && Abandon !in moves[..|moves| - 1]
  {
    hide After, Complete, WellFormed;
    var before := moves[..|moves| - 1];
    forall i | 0 <= i < |before| && before[i].Offer? ensures Complete(c, After(c, ctx, before[..i])) {
      assert before[..i] == moves[..i] && moves[i].Offer?;
    }
  }

  /** The engine is where its moves have brought it, and the states it was in between
      microsteps were published, each of them and no other. */
  ghost predicate Tracks(c: Chart, ctx: Ctx, moves: seq<Move>, s: State, states: seq<State>)
  {
    && WellFormed(c.d)
    && if s.status == Starting then moves == [] && s == InitialState(c.b, ctx) && states == [s]
       else s == After(c, ctx, moves) && states == Course(c, ctx, moves) && Orderly(c, ctx, moves)
  }

  /** This staged microstep is the one the engine has just taken; as long as it is not
      committed it counts as abandoned. */
  ghost predicate Due(c: Chart, ctx: Ctx, moves: seq<Move>, s: State, ms: Staged)
  {
    && WellFormed(c.d)
    && if s.status == Starting then ms == StartStep(c, ctx)
       else
         && moves != [] && moves[|moves| - 1] == Abandon
         && Step(c, After(c, ctx, moves[..|moves| - 1])).1 == Next(ms)
  }

  /** The moves once the staged microstep is committed. */
  function Executed(s: State, moves: seq<Move>): seq<Move>
  {
    if s.status == Starting || moves == [] then moves else moves[..|moves| - 1] + [Take]
  }

  lemma CommitTracked(c: Chart, ctx: Ctx, moves: seq<Move>, s: State, states: seq<State>, ms: Staged)
    requires Tracks(c, ctx, moves, s, states) && Due(c, ctx, moves, s, ms)
    ensures var s' := CommitState(c, s, ms); Tracks(c, ctx, Executed(s, moves), s', states + [s'])
    ensures Offers(Executed(s, moves)) == Offers(moves) && Abandon !in Executed(s, moves)
  {
    hide After, Course, Step, WellFormed, CommitState, InitialState, Trail, Orderly;
    CommitStarts(c, s, ms);
    if s.status == Starting {
      StartCourse(c, ctx);
    } else {
      var before := moves[..|moves| - 1];
      assert moves == before + [Abandon];
      OrderlyBefore(c, ctx, moves);
      OrderlyMore(c, ctx, before, Take);
      OneMoreMove(c, ctx, before, Abandon);
      OneMoreMove(c, ctx, before, Take);
      OffersMore(before, Abandon);
      OffersMore(before, Take);
    }
  }

  lemma CommitStarts(c: Chart, s: State, ms: Staged)
    ensures CommitState(c, s, ms).status != Starting
  {
  }

  lemma StartCourse(c: Chart, ctx: Ctx)
    requires WellFormed(c.d)
    ensures After(c, ctx, []) == Started(c, ctx) == CommitState(c, InitialState(c.b, ctx), StartStep(c, ctx))
    ensures Course(c, ctx, []) == [InitialState(c.b, ctx), Started(c, ctx)] && Orderly(c, ctx, [])
  {
    StartedRunnable(c, ctx);
  }

  /** A step that is not committed: abandoned, or taken and settled. */
  lemma StepTracked(c: Chart, ctx: Ctx, moves: seq<Move>, s: State, states: seq<State>, m: Move)
    requires Tracks(c, ctx, moves, s, states) && s.status == Running && Runnable(c, s) && Abandon !in moves
    requires m == if Step(c, s).1.Next? then Abandon else Take
    ensures Tracks(c, ctx, moves + [m], Step(c, s).0, states) && Offers(moves + [m]) == Offers(moves)
    ensures Step(c, s).1.Next? ==> Due(c, ctx, moves + [m], Step(c, s).0, Step(c, s).1.ms)
  {
    hide After, Course, Step, WellFormed, InitialState, Trail, Orderly;
    OneMoreMove(c, ctx, moves, m);
    OrderlyMore(c, ctx, moves, m);
    OffersMore(moves, m);
    StepStatus(c, s);
    assert (moves + [m])[..|moves|] == moves;
  }

  lemma OfferTracked(c: Chart, ctx: Ctx, moves: seq<Move>, s: State, states: seq<State>, q: Queued)
    requires Tracks(c, ctx, moves, s, states) && s.status == Running && Complete(c, s) && Abandon !in moves
    ensures Tracks(c, ctx, moves + [Offer(q)], s.(pendingExternal := Some(q)), states)
    ensures Offers(moves + [Offer(q)]) == Offers(moves) + [q]
  {
    hide After, Course, Step, WellFormed, InitialState, Trail, Orderly;
    OrderlyMore(c, ctx, moves, Offer(q));
    OneMoreMove(c, ctx, moves, Offer(q));
    OffersMore(moves, Offer(q));
  }

  /** From a to b only steps were taken, and all of them committed or settled, or all but the last. */
  predicate Stepped(a: seq<Move>, b: seq<Move>, all: bool)
  {
    && a < b
    && (forall i | |a| <= i < |b| - 1 :: b[i] == Take)
    && b[|b| - 1] == if all then Take else Abandon
  }

  lemma SteppedOn(a: seq<Move>, b: seq<Move>, c: seq<Move>, all: bool)
    requires a == b || Stepped(a, b, true)
    requires Stepped(b, c, all)
    ensures Stepped(a, c, all)
  {
  }

  lemma SteppedGrows(a: seq<Move>, b: seq<Move>, all: bool)
    requires Stepped(a, b, all)
    ensures a < b && (all && Abandon !in a ==> Abandon !in b)
  {
  }

  lemma ExecutedTake(s: State, moves: seq<Move>)
    requires s.status != Starting
    ensures Executed(s, moves + [Abandon]) == moves + [Take]
    ensures Stepped(moves, moves + [Take], true) && Stepped(moves, moves + [Abandon], false)
  {
    assert (moves + [Abandon])[..|moves|] == moves;
  }

  lemma ExecutedAtStart(s: State)
    ensures Executed(s, []) == []
  {
  }

  lemma CommitStatus(c: Chart, s: State, ms: Staged)
    ensures CommitState(c, s, ms).status
            == if ms.reachedFinal then Done else if s.status == Starting then Running else s.status
  {
  }

  // ------------------------------------------------------------------ macrosteps of the actor

  /** Whether all steps of a macrostep were committed or settled. */
  predicate Whole(end: MacroEnd, snap: Snapshot) { end == WentQuiet || (end == WentTerminal && !Refused(snap)) }

  lemma EndMeans(snap: Snapshot)
    ensures Whole(WentQuiet, snap) && !Whole(RanOutOfFuel, snap) && (Whole(WentTerminal, snap) <==> !Refused(snap))
    ensures snap.errorReason == None || snap.errorReason == Some(AlwaysLoopExceeded) ==> !Refused(snap)
    ensures forall cause :: snap.errorReason == Some(ObserverFailed(cause)) ==> Refused(snap)
  {
  }

  /** How a macrostep from s0 went: as the engine has it, unless an observer refused a microstep. */
  ghost predicate Ran(c: Chart, s0: State, fuel: nat, end: MacroEnd, refused: bool, s: State)
  {
    && Runnable(c, s0)
    && match end
       case WentQuiet => Macrostep(c, s0, fuel) == Quiet(s)
       case WentTerminal => refused || Macrostep(c, s0, fuel) == Ended(s)
       case RanOutOfFuel => Macrostep(c, s0, fuel) == OutOfFuel(s)
  }

  /** A macrostep from s0 passes through s1. */
  ghost predicate LeadsTo(c: Chart, s0: State, fuel: nat, s1: State, left: nat)
  {
    Runnable(c, s0) && Runnable(c, s1) && Macrostep(c, s0, fuel) == Macrostep(c, s1, left)
  }

  lemma LeadsHere(c: Chart, s: State, fuel: nat)
    requires Runnable(c, s)
    ensures LeadsTo(c, s, fuel, s, fuel)
  {
  }

  lemma LeadsOn(c: Chart, s0: State, f0: nat, s1: State, f1: nat, s2: State, f2: nat)
    requires LeadsTo(c, s0, f0, s1, f1) && LeadsTo(c, s1, f1, s2, f2)
    ensures LeadsTo(c, s0, f0, s2, f2)
  {
  }

  lemma RanOn(c: Chart, s0: State, f0: nat, s1: State, f1: nat, end: MacroEnd, refused: bool, s: State)
    requires LeadsTo(c, s0, f0, s1, f1) && Ran(c, s1, f1, end, refused, s)
    ensures Ran(c, s0, f0, end, refused, s)
  {
  }

  lemma OutOfFuelRan(c: Chart, s0: State, fuel: nat, refused: bool, s: State)
    requires Ran(c, s0, fuel, RanOutOfFuel, refused, s)
    ensures Runnable(c, s0) && Macrostep(c, s0, fuel).OutOfFuel?
  {
  }

  /** One step of a macrostep: it settles, the bound is reached, or a microstep is committed or refused. */
  lemma StepRan(c: Chart, s0: State, left: nat)
    requires Runnable(c, s0)
    ensures var (s1, outcome) := Step(c, s0);
            match outcome
            case Settled =>
              var end := if s1.status == Error then WentTerminal else WentQuiet;
              Ran(c, s0, left, end, false, s1) && Ran(c, s0, left, end, true, s1)
            case Next(ms) =>
              var s2 := CommitState(c, s1, ms);
              && (left == 0 ==> Ran(c, s0, left, RanOutOfFuel, false, s1) && Ran(c, s0, left, RanOutOfFuel, true, s1))
              && (left > 0 && s2.status.Terminal() ==> Ran(c, s0, left, WentTerminal, false, s2))
              && (left > 0 && !s2.status.Terminal() ==> LeadsTo(c, s0, left, s2, left - 1))
              && Ran(c, s0, left, WentTerminal, true, s1)
  {
    hide Runnable, Step, CommitState, Macrostep;
    MacrostepUnfold(c, s0, left);
  }

  /** How the actor began: an observer refused the start microstep, or it ended the machine,
      or a macrostep followed it. */
  ghost predicate Began(c: Chart, ctx: Ctx, fuel: nat, end: MacroEnd, refused: bool, s: State, moves: seq<Move>)
  {
    && WellFormed(c.d)
    && if s.status == Starting then end == WentTerminal && refused
       else if Started(c, ctx).status == Done then end == WentTerminal && s == Started(c, ctx) && moves == []
       else Ran(c, Started(c, ctx), fuel, end, refused, s)
            && Stepped([], moves, end == WentQuiet || (end == WentTerminal && !refused))
  }

  lemma BeganAtOnce(c: Chart, ctx: Ctx, fuel: nat, refused: bool, s: State, moves: seq<Move>)
    requires WellFormed(c.d)
    requires (s == InitialState(c.b, ctx) && refused) || (s == Started(c, ctx) && s.status == Done && moves == [])
    ensures Began(c, ctx, fuel, WentTerminal, refused, s, moves)
  {
  }

  class Machine {
    const chart: Chart
    const delays: map<string, int>
    const runners: set<string>
    const observers: seq<Observer>
    const mailboxCap: nat
    /** The k-th reading of the clock. */
    const clock: nat -> int
    /** What the runner of an invoke id emits while its k-th instance starts. */
    const starting: (string, nat) -> seq<Item>
    const eng: Engine
    const initCtx: Ctx

    var snap: Snapshot
    var version: nat
    var ticks: nat
    var armed: Armed
    var nextTimer: nat
    var children: map<string, Child>
    var invokeSpawns: map<string, nat>
    var mailbox: seq<Item>
    var localSubs: seq<Subscription>
    var done: bool

    ghost var published: seq<Published>
    ghost var cancelled: set<nat>
    ghost var closedSubs: seq<Subscription>
    /** Subscriptions that were ended by their subscriber; their channels are closed. */
    ghost var removed: seq<Subscription>
    ghost var enqueued: seq<Item>
    ghost var processed: seq<Item>
    /** What the engine went through since its start microstep was committed. */
    ghost var moves: seq<Move>

    // ---------------------------------------------------------------- invariant

    /** Each microstep reads the clock twice; steady clocks give the same answer both times. */
    ghost predicate Steady()
    {
      forall k: nat :: clock(2 * k) == clock(2 * k + 1)
    }

    /** Children have runners, and each is the latest spawn of its id. */
    ghost predicate ChildrenOk()
      reads this`children, this`invokeSpawns
    {
      && children.Keys <= runners
      && forall id | id in children ::
        id in invokeSpawns && invokeSpawns[id] > 0 && children[id] == Child(id, invokeSpawns[id])
    }

    ghost function Books(): Ledger
      reads this`published, this`nextTimer, this`cancelled, this`localSubs, this`closedSubs
    {
      Ledger(published, nextTimer, cancelled, Known(localSubs) + Known(closedSubs))
    }

    /** The published stream and the subscribers. */
    ghost predicate PublicOk()
      reads this`published, this`snap, this`version, this`localSubs, this`closedSubs
    {
      StreamOk(chart.d, published, snap, version) && UpToDate(published, localSubs) && UpToDate(published, closedSubs)
    }

    /** The engine agrees with the last snapshot as long as the actor lives. */
    ghost predicate EngineOk()
      reads this`snap, this`armed, this`done, eng, eng.cfg
    {
      && eng.chart == chart
      && (snap.status == Starting ==> eng.View() == InitialState(chart.b, eng.ctx) && armed == map[])
      && (Live(snap.status) && !done ==> InStep(chart, eng.View(), snap, armed, Steady()))
    }

    ghost predicate DoneOk()
      reads this`snap, this`armed, this`done, this`children, this`localSubs, this`closedSubs
    {
      && (done ==> snap.status.Terminal() && armed == map[] && children == map[] && localSubs == [])
      && (snap.status == Stopped ==> done)
      && (!done ==> closedSubs == [])
    }

    /** What was published is the course of the engine, and the events offered to it are those
        taken out of the mailbox, in order. */
    ghost predicate RunOk()
      reads this`moves, this`published, this`processed, eng, eng.cfg
    {
      Tracks(chart, initCtx, moves, eng.View(), StatesOf(published)) && Offers(moves) == EventsOf(processed)
    }

    /** Only what an observer said is reported as a refusal. */
    ghost predicate RefusalOk()
      reads this`snap
    {
      Refused(snap) ==> Says(observers, snap.errorReason.value.cause)
    }

    ghost predicate Valid()
      reads this, eng, eng.cfg
    {
      && WellFormed(chart.d)
      && PublicOk()
      && RefusalOk()
      && enqueued == processed + mailbox
      && ChildrenOk()
      && Accounted(armed, nextTimer, cancelled)
      && EngineOk()
      && RunOk()
      && DoneOk()
    }

    /** The actor accepts work. */
    ghost predicate Working()
      reads this, eng, eng.cfg
    {
      && Valid() && snap.status == Running && !done && eng.status == Running && ticks % 2 == 0
      && Abandon !in moves
    }

    /** Between two items: the last macrostep ran to completion. */
    ghost predicate AtRest()
      reads this, eng, eng.cfg
    {
      Working() && Complete(chart, eng.View())
    }

    // ---------------------------------------------------------------- construction and mailbox

    /** machine.go: NewMachine and Start up to the point where the loop begins. */
    constructor (d: Definition, b: Behavior, initCtx: Ctx, alwaysLimit: int, delays: map<string, int>,
                 runners: set<string>, observers: seq<Observer>, mailboxCap: nat, clock: nat -> int,
                 starting: (string, nat) -> seq<Item>, preSubs: nat)
      requires WellFormed(d)
      ensures Valid() && snap.status == Starting && !done && ticks == 0 && fresh(eng) && fresh(eng.cfg)
      ensures chart == Chart(d, b, if alwaysLimit <= 0 then 100 else alwaysLimit)
      ensures enqueued == [] && version == 0 && this.initCtx == initCtx && removed == [] && closedSubs == []
      ensures localSubs == seq(preSubs, (i: nat) => Subscription(i, 0, []))
      ensures forall i: nat | i < preSubs :: (i, 0) in Books().subs
    {
      hide WellFormed;
      var e := new Engine(d, b, initCtx, alwaysLimit);
      eng, chart, this.initCtx := e, e.chart, initCtx;
      this.delays, this.runners, this.observers, this.mailboxCap := delays, runners, observers, mailboxCap;
      this.clock, this.starting := clock, starting;
      snap := Snapshot([], initCtx, [], Starting, None, 0, map[]);
      version, ticks, armed, nextTimer := 0, 0, map[], 0;
      children, invokeSpawns, mailbox, done := map[], map[], [], false;
      published := [Published(Snapshot([], initCtx, [], Starting, None, 0, map[]), InitialState(b, initCtx))];
      cancelled, closedSubs, removed, enqueued, processed, moves := {}, [], [], [], [], [];
      localSubs := seq(preSubs, (i: nat) => Subscription(i, 0, []));
      new;
      EarlySubs(preSubs);
      StatesOfMore([], published[0]);
      assert published == [] + [published[0]];
    }

    lemma EarlySubs(n: nat)
      ensures forall i: nat | i < n :: (i, 0) in Known(seq(n, (i: nat) => Subscription(i, 0, [])))
    {
      var subs := seq(n, (i: nat) => Subscription(i, 0, []));
      forall i: nat | i < n ensures (i, 0) in Known(subs) { assert (subs[i].id, subs[i].since) == (i, 0); }
    }

    /** machine.go: TrySend, and any other goroutine that puts an item into the mailbox. */
    method Enqueue(item: Item) returns (accepted: bool)
      requires Valid()
      modifies this`mailbox, this`enqueued
      ensures Valid()
      ensures accepted <==> !done && |old(mailbox)| < mailboxCap
      ensures mailbox == (if accepted then old(mailbox) + [item] else old(mailbox))
      ensures enqueued == (if accepted then old(enqueued) + [item] else old(enqueued))
    {
      hide WellFormed, Accounted, PublicOk, RefusalOk, ChildrenOk, EngineOk, RunOk, DoneOk;
      accepted := !done && |mailbox| < mailboxCap;
      if accepted {
        mailbox := mailbox + [item];
        enqueued := enqueued + [item];
      }
    }

    // ---------------------------------------------------------------- timers

    /** machine.go: armAfterTimers. */
    method ArmAfterTimers(entered: seq<Node>, now: int)
      requires AllInTree(chart.d, entered)
      modifies this`armed, this`nextTimer
      ensures (armed, nextTimer) == ArmAll(chart.d, delays, now, entered, old(armed), old(nextTimer))
    {
      for i := 0 to |entered|
        invariant AllInTree(chart.d, entered[i..])
        invariant ArmAll(chart.d, delays, now, entered, old(armed), old(nextTimer))
               == ArmAll(chart.d, delays, now, entered[i..], armed, nextTimer)
      {
        var n := entered[i];
        assert n in entered && entered[i..][1..] == entered[i + 1..];
        var arms := BuildTimers(chart.d.nodes[n].transitions, delays, now, nextTimer);
        if arms != [] {
          armed := armed[n := (if n in armed then armed[n] else []) + arms];
          nextTimer := nextTimer + |arms|;
        }
      }
    }

    /** machine.go: cancelAfterTimers. */
    method CancelAfterTimers(exited: seq<Node>)
      requires Accounted(armed, nextTimer, cancelled)
      modifies this`armed, this`cancelled
      ensures armed == old(armed) - Members(exited)
      ensures Accounted(armed, nextTimer, cancelled) && old(cancelled) <= cancelled
    {
      for i := 0 to |exited|
        invariant armed == old(armed) - Members(exited[..i])
        invariant Accounted(armed, nextTimer, cancelled) && old(cancelled) <= cancelled
      {
        var n := exited[i];
        assert exited[..i + 1] == exited[..i] + [n];
        RemoveKey(armed, n, nextTimer, cancelled);
        assert n !in armed ==> armed - {n} == armed;
        if n in armed { cancelled := cancelled + IdsOf(armed[n]); }
        armed := armed - {n};
      }
      assert exited[..|exited|] == exited;
    }

    // ---------------------------------------------------------------- publication

    /** Bumps the version and stores the snapshot. */
    method Store(s: Snapshot)
      requires StreamOk(chart.d, published, snap, version) && !snap.status.Terminal()
      requires s.version == version + 1 && SnapshotOk(chart.d, Published(s, eng.View()))
      modifies this`snap, this`version, this`published
      ensures snap == s && version == old(version) + 1 && published == old(published) + [Published(s, eng.View())]
      ensures StreamOk(chart.d, published, snap, version)
    {
      StreamPush(chart.d, published, snap, version, Published(s, eng.View()));
      version := version + 1;
      snap := s;
      published := published + [Published(s, eng.View())];
    }

    /** machine.go: notifySubs. */
    method NotifySubs(s: Snapshot)
      modifies this`localSubs
      ensures localSubs == SendAll(old(localSubs), s)
    {
      for i := 0 to |localSubs|
        invariant |localSubs| == |old(localSubs)|
        invariant forall j | 0 <= j < i :: localSubs[j] == SendTo(old(localSubs)[j], s)
        invariant forall j | i <= j < |localSubs| :: localSubs[j] == old(localSubs)[j]
      {
        localSubs := localSubs[i := SendTo(localSubs[i], s)];
      }
    }

    /** machine.go: publishObserverAbort and publishTerminalError: the last snapshot again,
        with status Error and a reason. */
    method PublishError(before: Snapshot, reason: Reason)
      requires Valid() && !done && !snap.status.Terminal() && before == snap
      requires reason.ObserverFailed? ==> Says(observers, reason.cause)
      modifies this`snap, this`version, this`published, this`localSubs
      ensures Valid() && snap == before.(status := Error, errorReason := Some(reason), version := old(version) + 1)
      ensures version == old(version) + 1 && Continues(old(Books()), Books())
    {
      hide WellFormed, Accounted, InStep, StreamOk, UpToDate, SendAll, Known, InitialState, Engine.View, Tracks,
           StatesOf, Offers, EventsOf, Says;
      SendAllKnown(localSubs, before.(status := Error, errorReason := Some(reason), version := version + 1));
      var fail := before.(status := Error, errorReason := Some(reason), version := version + 1);
      SendAllUpToDate(published, localSubs, Published(fail, eng.View()));
      StatesOfMore(published, Published(fail, eng.View()));
      Store(fail);
      assert StatesOf(published) == StatesOf(old(published));
      assert RunOk();
      NotifySubs(fail);
      NobodyLeft(published);
    }

    // ---------------------------------------------------------------- one microstep

    method AskObservers(before: Snapshot, after: Snapshot, evt: Payload) returns (refusal: Option<string>)
      ensures refusal == FirstRefusal(observers, before, after, evt)
    {
      for i := 0 to |observers|
        invariant FirstRefusal(observers, before, after, evt) == FirstRefusal(observers[i..], before, after, evt)
      {
        assert observers[i..][1..] == observers[i + 1..];
        var verdict := observers[i](before, after, evt);
        if verdict.Some? { return verdict; }
      }
      return None;
    }

    /** The actor may execute a staged microstep. */
    ghost predicate Ready(ms: Microstep)
      reads this, eng, eng.cfg, ms.cfg
    {
      && Valid() && !done && (snap.status == Starting || (snap.status == Running && eng.status == Running))
      && Fits(chart, eng.View(), ms.staged) && Due(chart, initCtx, moves, eng.View(), ms.staged)
      && ms.cfg.members == ms.staged.cfg
    }

    lemma SteadyAt(k: nat)
      ensures Steady() ==> clock(2 * k) == clock(2 * k + 1)
    {
    }

    lemma ReadyTimers(ms: Microstep)
      requires Ready(ms)
      ensures AllInTree(chart.d, ms.staged.entered) && forall n | n in armed :: InTree(chart.d, n)
    {
      TimersMatched(chart, eng.View(), snap, armed, Steady());
    }

    /** The snapshot that describes the staged microstep. */
    ghost predicate Describes(after: Snapshot, ms: Staged, planned: int)
      reads this
    {
      && after.activeStates == ms.nextActive && after.ctx == ms.ctx && after.errorReason == None
      && after.version == version + 1
      && after.status == (if ms.reachedFinal then Done else Running)
      && AllInTree(chart.d, ms.entered)
      && multiset(after.pendingAfter)
         == Surviving(chart.d, armed, Members(ms.exited)) + multiset(EntryTimers(chart.d, delays, planned, ms.entered))
    }

    /** machine.go: the timer part of execMicrostep. */
    method FollowTimers(ghost s: State, ms: Staged, ghost planned: int, ghost pending: seq<ScheduledTimer>)
      requires Fits(chart, s, ms) && TimersMatch(chart.d, s.cfg, armed, RootFree(chart.d))
      requires Accounted(armed, nextTimer, cancelled)
      requires multiset(pending)
               == Surviving(chart.d, armed, Members(ms.exited))
                 + multiset(EntryTimers(chart.d, delays, planned, ms.entered))
      modifies this`ticks, this`armed, this`nextTimer, this`cancelled
      ensures ticks == old(ticks) + 1 && nextTimer >= old(nextTimer) && cancelled >= old(cancelled)
      ensures TimersMatch(chart.d, ms.cfg, armed, RootFree(chart.d)) && Accounted(armed, nextTimer, cancelled)
      ensures multiset(pending) == Table(chart.d, armed) <==>
                planned == clock(old(ticks)) || EntryTimers(chart.d, delays, planned, ms.entered) == []
    {
      hide Fits, TimersMatch, RootFree, Accounted, Surviving, EntryTimers, Table, ArmAll;
      FitsEntered(chart, s, ms);
      ghost var armed0 := armed;
      CancelAfterTimers(ms.exited);
      ghost var next0 := nextTimer;
      var now := clock(ticks);
      ticks := ticks + 1;
      ghost var kept := armed;
      ArmAllGrows(chart.d, delays, now, ms.entered, kept, next0);
      ArmAfterTimers(ms.entered, now);
      TimersFollow(chart, s, ms, delays, armed0, next0, cancelled, planned, now, pending);
    }

    /** machine.go: execMicrostep, the commit and the publication. */
    method CommitAndStore(ms: Microstep, after: Snapshot)
      requires Ready(ms) && SnapshotOk(chart.d, Published(after, CommitState(chart, eng.View(), ms.staged)))
      requires after.version == version + 1
      modifies this`snap, this`version, this`published, eng
      ensures eng.View() == CommitState(chart, old(eng.View()), ms.staged)
      ensures snap == after && version == old(version) + 1 && StreamOk(chart.d, published, snap, version)
      ensures published == old(published) + [Published(after, eng.View())]
    {
      hide WellFormed, Accounted, InStep, StreamOk, UpToDate, CommitState, SnapshotOk, ChildrenOk, Fits, RunOk, Due;
      eng.Commit(ms);
      Store(after);
    }

    /** machine.go: execMicrostep, from commit on. */
    method CommitMicrostep(ms: Microstep, after: Snapshot, ghost planned: int)
      requires ticks % 2 == 1 && planned == clock(ticks - 1)
      requires Ready(ms) && Describes(after, ms.staged, planned)
      modifies this`snap, this`version, this`published, this`localSubs, this`ticks, this`armed, this`nextTimer,
               this`cancelled, this`moves, eng
      ensures Valid() && version == old(version) + 1 && snap == after && ticks == old(ticks) + 1
      ensures eng.View() == CommitState(chart, old(eng.View()), ms.staged)
      ensures moves == Executed(old(eng.View()), old(moves)) && Abandon !in moves
      ensures AllInTree(chart.d, ms.staged.entered) && Continues(old(Books()), Books())
      ensures multiset(snap.pendingAfter) == Table(chart.d, armed) <==>
                planned == clock(old(ticks)) || EntryTimers(chart.d, delays, planned, ms.staged.entered) == []
    {
      hide WellFormed, Accounted, PublicOk, EngineOk, ChildrenOk, Table, EntryTimers, AllInTree, Fits, Books, Continues,
           CommitState, Describes, Engine.View, Tracks, Due, StatesOf, Offers, EventsOf, Executed;
      ghost var s0, before, was := eng.View(), published, moves;
      CommitTracked(chart, initCtx, moves, s0, StatesOf(before), ms.staged);
      CommitParts(ms, after, planned);
      StatesOfMore(before, Published(after, eng.View()));
      moves := Executed(s0, was);
    }

    /** The parts of it. */
    method CommitParts(ms: Microstep, after: Snapshot, ghost planned: int)
      requires ticks % 2 == 1 && planned == clock(ticks - 1)
      requires Ready(ms) && Describes(after, ms.staged, planned)
      modifies this`snap, this`version, this`published, this`localSubs, this`ticks, this`armed, this`nextTimer,
               this`cancelled, eng
      ensures PublicOk() && EngineOk() && Accounted(armed, nextTimer, cancelled)
      ensures version == old(version) + 1 && snap == after && ticks == old(ticks) + 1
      ensures snap.status == Running || snap.status == Done
      ensures published == old(published) + [Published(after, eng.View())] && snap.errorReason == None
      ensures eng.View() == CommitState(chart, old(eng.View()), ms.staged)
      ensures AllInTree(chart.d, ms.staged.entered) && Continues(old(Books()), Books())
      ensures multiset(snap.pendingAfter) == Table(chart.d, armed) <==>
                planned == clock(old(ticks)) || EntryTimers(chart.d, delays, planned, ms.staged.entered) == []
    {
      hide WellFormed, Accounted, StreamOk, UpToDate, SendAll, Runnable, Table, EntryTimers, Surviving,
           TimersMatch, Fits, SnapshotOk, CommitState, AllInTree, InStep, Sent, Known, RunOk, Due;
      ghost var s0, steady := eng.View(), Steady();
      TimersMatched(chart, s0, snap, armed, steady);
      SteadyAt(ticks / 2);
      SendAllUpToDate(published, localSubs, Published(after, CommitState(chart, s0, ms.staged)));
      SendAllKnown(localSubs, after);
      CommittedOk(chart, s0, ms.staged, after);
      CommitAndStore(ms, after);
      FollowTimers(s0, ms.staged, planned, after.pendingAfter);
      NotifySubs(after);
      NobodyLeft(published);
      CommitInStep(chart, s0, ms.staged, after, armed, steady);
    }

    /** actors.go: restartsSnapshot. */
    method RestartsSnapshot() returns (out: map<string, nat>)
      ensures out == Restarts(invokeSpawns)
      ensures forall id :: id in out <==> id in invokeSpawns && invokeSpawns[id] > 1
      ensures forall id | id in out :: out[id] + 1 == invokeSpawns[id]
    {
      out := map[];
      var todo := invokeSpawns.Keys;
      while todo != {}
        invariant todo <= invokeSpawns.Keys
        invariant forall id :: id in out <==> id in invokeSpawns && id !in todo && invokeSpawns[id] > 1
        invariant forall id | id in out :: out[id] == invokeSpawns[id] - 1
        decreases todo
      {
        var id :| id in todo;
        todo := todo - {id};
        if invokeSpawns[id] > 1 { out := out[id := invokeSpawns[id] - 1]; }
      }
    }

    /** machine.go: the snapshot that execMicrostep shows to the observers. */
    method PlanSnapshot(ms: Microstep) returns (after: Snapshot, now: int)
      requires Ready(ms)
      modifies this`ticks
      ensures ticks == old(ticks) + 1 && now == clock(old(ticks))
      ensures AllInTree(chart.d, ms.staged.entered) && Describes(after, ms.staged, now) && Ready(ms)
      ensures old(Describes(after, ms.staged, now))
      ensures after.status == (if ms.staged.reachedFinal then Done else Running) && after.errorReason == None
      ensures after.invokeRestarts == Restarts(invokeSpawns)
    {
      hide WellFormed, Accounted, PublicOk, EngineOk, ChildrenOk, Fits, Surviving, EntryTimers, RunOk, Due;
      ReadyTimers(ms);
      now := clock(ticks);
      ticks := ticks + 1;
      var status := if ms.staged.reachedFinal then Done else Running;
      var pending := PlannedPending(chart.d, delays, armed, ms.staged.exited, ms.staged.entered, now);
      var restarts := RestartsSnapshot();
      after := Snapshot(ms.staged.nextActive, ms.staged.ctx, pending, status, None, version + 1, restarts);
    }

    /** machine.go: execMicrostep.  Either everything follows the staged microstep, or an
        observer refused it and the engine, the timers and all but the status of the last
        snapshot stay as they were. */
    method ExecMicrostep(ms: Microstep) returns (ok: bool, ghost after: Snapshot)
      requires Ready(ms) && ticks % 2 == 0
      modifies this`snap, this`version, this`published, this`localSubs, this`ticks, this`armed, this`nextTimer,
               this`cancelled, this`moves, eng
      ensures Valid() && version == old(version) + 1 && Continues(old(Books()), Books())
      ensures old(Describes(after, ms.staged, clock(ticks))) && after.invokeRestarts == Restarts(invokeSpawns)
      ensures after.status == (if ms.staged.reachedFinal then Done else Running) && after.errorReason == None
      ensures ok <==> FirstRefusal(observers, old(snap), after, old(eng.lastEvt)) == None
      ensures ok ==>
                && snap == after && eng.View() == CommitState(chart, old(eng.View()), ms.staged)
                && moves == Executed(old(eng.View()), old(moves)) && Abandon !in moves && ticks % 2 == 0
      ensures AllInTree(chart.d, ms.staged.entered)
      ensures ok ==> (multiset(snap.pendingAfter) == Table(chart.d, armed) <==>
                clock(old(ticks)) == clock(old(ticks) + 1)
                  || EntryTimers(chart.d, delays, clock(old(ticks)), ms.staged.entered) == [])
      ensures !ok ==>
                var cause := FirstRefusal(observers, old(snap), after, old(eng.lastEvt)).value;
                && eng.View() == old(eng.View()) && armed == old(armed) && moves == old(moves)
                && snap == old(snap).(status := Error, errorReason := Some(ObserverFailed(cause)),
                                      version := old(version) + 1)
    {
      hide *;
      ReadyParts(ms);
      var before := snap;
      var shown, now := PlanSnapshot(ms);
      after := shown;
      ReadyParts(ms);
      var refusal := AskObservers(before, shown, eng.lastEvt);
      if refusal.Some? {
        RefusalSaid(observers, before, shown, eng.lastEvt);
        PublishError(before, ObserverFailed(refusal.value));
        return false, shown;
      }
      CommitMicrostep(ms, shown, now);
      return true, shown;
    }

    lemma ReadyParts(ms: Microstep)
      requires Ready(ms)
      ensures Valid() && !done && !snap.status.Terminal()
    {
    }

    // ---------------------------------------------------------------- shutdown

    /** machine.go: shutdown.  Children stop first, every timer left is cancelled, a
        non-terminal actor publishes Stopped, and all channels are closed. */
    method Shutdown()
      requires Valid() && !done && (Live(snap.status) || snap.status.Terminal())
      modifies this
      ensures Valid() && done && snap.status.Terminal()
      ensures version == old(version) + (if old(snap).status.Terminal() then 0 else 1)
      ensures old(snap).status.Terminal() ==> snap == old(snap)
      ensures !old(snap).status.Terminal() ==> snap == old(snap).(status := Stopped, version := version)
      ensures forall id: nat | id < nextTimer :: id in cancelled
      ensures closedSubs == if old(snap).status.Terminal() then old(localSubs) else SendAll(old(localSubs), snap)
      ensures nextTimer == old(nextTimer) && eng.View() == old(eng.View()) && moves == old(moves)
      ensures mailbox == old(mailbox) && enqueued == old(enqueued) && processed == old(processed)
      ensures Continues(old(Books()), Books())
    {
      hide *;
      SendAllKnown(localSubs, snap.(status := Stopped, version := version + 1));
      ValidParts();
      StatusMeans();
      BooksMean();
      ghost var books := Books();
      StopChildren();
      CancelAll();
      if !snap.status.Terminal() { PublishStopped(); }
      CloseChannels();
      BooksMean();
      ContinuesMeans(books, Books());
    }

    lemma BooksMean()
      ensures Books() == Ledger(published, nextTimer, cancelled, Known(localSubs) + Known(closedSubs))
      ensures Known([]) == {}
    {
    }

    lemma ValidParts()
      requires Valid()
      ensures WellFormed(chart.d) && PublicOk() && RunOk() && RefusalOk() && enqueued == processed + mailbox
              && eng.chart == chart
      ensures Accounted(armed, nextTimer, cancelled) && (!done ==> closedSubs == [])
    {
    }

    /** machine.go: the last part of shutdown, which closes the channels of the subscribers. */
    method CloseChannels()
      requires WellFormed(chart.d) && PublicOk() && RunOk() && RefusalOk() && enqueued == processed + mailbox
               && eng.chart == chart
      requires Accounted(armed, nextTimer, cancelled) && closedSubs == []
      requires snap.status.Terminal() && armed == map[] && children == map[]
      modifies this`closedSubs, this`localSubs, this`done
      ensures Valid() && done && closedSubs == old(localSubs) && localSubs == []
    {
      hide WellFormed, Accounted, StreamOk, UpToDate, InStep, InitialState, Engine.View, RunOk, RefusalOk;
      closedSubs := localSubs;
      localSubs := [];
      done := true;
      NobodyLeft(published);
    }

    method PublishStopped()
      requires PublicOk() && RunOk() && Live(snap.status) && !snap.status.Terminal() && closedSubs == []
      modifies this`snap, this`version, this`published, this`localSubs
      ensures PublicOk() && RunOk() && RefusalOk() && version == old(version) + 1
      ensures snap == old(snap).(status := Stopped, version := version) && old(published) <= published
      ensures localSubs == SendAll(old(localSubs), snap)
    {
      hide StreamOk, UpToDate, SendAll, Tracks, StatesOf, Offers, EventsOf, Engine.View;
      LastOk(chart.d, published, snap, version);
      var last := snap.(status := Stopped, version := version + 1);
      SendAllUpToDate(published, localSubs, Published(last, eng.View()));
      StatesOfMore(published, Published(last, eng.View()));
      Store(last);
      assert StatesOf(published) == StatesOf(old(published));
      assert RunOk();
      NotifySubs(last);
      NobodyLeft(published);
    }

    method StopChildren()
      modifies this`children
      ensures children == map[]
    {
      while children != map[]
        decreases children.Keys
      {
        var id :| id in children;
        children := children - {id};
      }
    }

    method CancelAll()
      requires Accounted(armed, nextTimer, cancelled)
      modifies this`armed, this`cancelled
      ensures armed == map[] && Accounted(armed, nextTimer, cancelled) && old(cancelled) <= cancelled
      ensures forall id: nat | id < nextTimer :: id in cancelled
    {
      while armed != map[]
        invariant Accounted(armed, nextTimer, cancelled) && old(cancelled) <= cancelled
        decreases armed.Keys
      {
        var n :| n in armed;
        RemoveKey(armed, n, nextTimer, cancelled);
        cancelled := cancelled + IdsOf(armed[n]);
        armed := armed - {n};
      }
      assert LiveIds(armed) == {};
    }

    // ---------------------------------------------------------------- children

    /** actors.go: reconcileInvokes.  Runners may emit while they start; what they emit goes
        to the mailbox. */
    method ReconcileInvokes() returns (ghost emitted: seq<Item>)
      requires ChildrenOk()
      modifies this`children, this`invokeSpawns, this`mailbox, this`enqueued
      ensures ChildrenOk()
      ensures children.Keys == Desired(chart.d, eng.cfg.members) * runners
      ensures forall id :: id in children <==> id in runners && Declared(chart.d, eng.cfg.members, id)
      ensures forall id | id in children && id in old(children) :: children[id] == old(children)[id]
      ensures forall id :: id in invokeSpawns <==> id in old(invokeSpawns) || id in children
      ensures forall id | id in invokeSpawns ::
                invokeSpawns[id] == (if id in old(invokeSpawns) then old(invokeSpawns)[id] else 0)
                                  + (if id in children && id !in old(children) then 1 else 0)
      ensures mailbox == old(mailbox) + emitted && enqueued == old(enqueued) + emitted
      ensures children.Keys <= old(children).Keys ==> emitted == []
    {
      hide Desired, Declared, ChildrenOk;
      DesiredDeclared(chart.d, eng.cfg.members);
      var desired := Desired(chart.d, eng.cfg.members);
      StopUndesired(desired);
      ghost var kept := children;
      emitted := SpawnMissing(desired);
      assert forall id :: id in children <==> id in desired && id in runners by { KeptHaveRunners(kept, desired); }
    }

    lemma KeptHaveRunners(kept: map<string, Child>, desired: set<string>)
      requires ChildrenOk() && forall id | id in kept :: id in children
      ensures forall id | id in kept :: id in runners
    {
    }

    method StopUndesired(desired: set<string>)
      requires ChildrenOk()
      modifies this`children
      ensures ChildrenOk() && children == map id | id in old(children) && id in desired :: old(children)[id]
    {
      var todo := children.Keys;
      while todo != {}
        invariant todo <= old(children).Keys && ChildrenOk()
        invariant children == map id | id in old(children) && (id in desired || id in todo) :: old(children)[id]
        decreases todo
      {
        var id :| id in todo;
        todo := todo - {id};
        if id !in desired { children := children - {id}; }
      }
    }

    /** How often the invoke id has been spawned. */
    function Spawns(spawns: map<string, nat>, id: string): nat { if id in spawns then spawns[id] else 0 }

    /** Those of todo are still to be looked at, the others have been spawned if they were missing. */
    ghost predicate Spawned(was: map<string, Child>, wasSpawns: map<string, nat>, now: map<string, Child>,
                            spawns: map<string, nat>,
                            desired: set<string>, todo: set<string>)
    {
      && (forall id :: id in now <==> id in was || (id in desired && id !in todo && id in runners))
      && (forall id | id in was :: now[id] == was[id])
      && (forall id :: id in spawns <==> id in wasSpawns || id in now)
      && (forall id | id in spawns :: spawns[id] == Spawns(wasSpawns, id) + (if id in now && id !in was then 1 else 0))
    }

    method SpawnMissing(desired: set<string>) returns (ghost emitted: seq<Item>)
      requires ChildrenOk() && children.Keys <= desired
      modifies this`children, this`invokeSpawns, this`mailbox, this`enqueued
      ensures ChildrenOk() && Spawned(old(children), old(invokeSpawns), children, invokeSpawns, desired, {})
      ensures mailbox == old(mailbox) + emitted && enqueued == old(enqueued) + emitted
      ensures children.Keys == old(children).Keys ==> emitted == []
    {
      var todo := desired;
      emitted := [];
      SpawnsBegin(desired);
      hide Spawned, ChildrenOk;
      while todo != {}
        invariant todo <= desired && ChildrenOk()
                  && Spawned(old(children), old(invokeSpawns), children, invokeSpawns, desired, todo)
        invariant mailbox == old(mailbox) + emitted && enqueued == old(enqueued) + emitted
        invariant old(children).Keys <= children.Keys && (emitted != [] ==> !(children.Keys <= old(children).Keys))
        decreases todo
      {
        var id :| id in todo;
        todo := todo - {id};
        ghost var words := SpawnOne(id, old(children), old(invokeSpawns), desired, todo);
        emitted := emitted + words;
      }
    }

    lemma SpawnsBegin(desired: set<string>)
      requires ChildrenOk() && children.Keys <= desired
      ensures Spawned(children, invokeSpawns, children, invokeSpawns, desired, desired)
    {
    }

    /** One turn of the second loop of reconcileInvokes. */
    method SpawnOne(id: string, ghost was: map<string, Child>, ghost wasSpawns: map<string, nat>,
                    ghost desired: set<string>,
                    ghost todo: set<string>) returns (ghost emitted: seq<Item>)
      requires ChildrenOk() && id in desired && id !in todo
               && Spawned(was, wasSpawns, children, invokeSpawns, desired, todo + {id})
      modifies this`children, this`invokeSpawns, this`mailbox, this`enqueued
      ensures ChildrenOk() && Spawned(was, wasSpawns, children, invokeSpawns, desired, todo)
      ensures mailbox == old(mailbox) + emitted && enqueued == old(enqueued) + emitted
      ensures old(children).Keys <= children.Keys
              && (emitted != [] ==> id in children && id !in old(children) && id !in was)
    {
      hide Spawned;
      emitted := [];
      if id in children || id !in runners {
        SpawnedSame(id, was, wasSpawns, desired, todo);
        return;
      }
      SpawnedMore(id, was, wasSpawns, desired, todo);
      var spawns := Spawns(invokeSpawns, id) + 1;
      children := children[id := Child(id, spawns)];
      invokeSpawns := invokeSpawns[id := spawns];
      mailbox := mailbox + starting(id, spawns);
      enqueued := enqueued + starting(id, spawns);
      emitted := starting(id, spawns);
      ChildrenStillOk(old(children), old(invokeSpawns), id);
    }

    lemma SpawnedSame(id: string, was: map<string, Child>, wasSpawns: map<string, nat>, desired: set<string>,
                      todo: set<string>)
      requires Spawned(was, wasSpawns, children, invokeSpawns, desired, todo + {id})
               && (id in children || id !in runners)
      requires id in desired && ChildrenOk()
      ensures Spawned(was, wasSpawns, children, invokeSpawns, desired, todo)
    {
    }

    lemma SpawnedMore(id: string, was: map<string, Child>, wasSpawns: map<string, nat>, desired: set<string>,
                      todo: set<string>)
      requires Spawned(was, wasSpawns, children, invokeSpawns, desired, todo + {id}) && id !in children && id in runners
      requires id in desired && id !in todo
      ensures var k := Spawns(invokeSpawns, id) + 1;
              Spawned(was, wasSpawns, children[id := Child(id, k)], invokeSpawns[id := k], desired, todo) && id !in was
    {
    }

    /** The child of id has just been spawned once more. */
    lemma ChildrenStillOk(was: map<string, Child>, spawns: map<string, nat>, id: string)
      requires was.Keys <= runners && id in runners && id !in was
      requires forall i | i in was :: i in spawns && spawns[i] > 0 && was[i] == Child(i, spawns[i])
      requires children == was[id := Child(id, Spawns(spawns, id) + 1)]
      requires invokeSpawns == spawns[id := Spawns(spawns, id) + 1]
      ensures ChildrenOk()
    {
    }

    // ---------------------------------------------------------------- macrosteps and the loop

    lemma WorkingRunnable()
      requires Working()
      ensures Runnable(chart, eng.View()) && eng.chart == chart && Abandon !in moves && eng.status == Running
      ensures Tracks(chart, initCtx, moves, eng.View(), StatesOf(published)) && snap.status == Running && !done
      ensures ticks % 2 == 0
    {
    }

    /** Taking a step, without committing it, keeps the actor valid and makes it ready. */
    lemma AfterStep(s0: State, ms: Option<Microstep>)
      requires Runnable(chart, s0) && eng.View() == Engines.Step(chart, s0).0
      requires ms == None <==> Engines.Step(chart, s0).1.Settled?
      requires ms.Some? ==> ms.value.staged == Engines.Step(chart, s0).1.ms
      requires s0.status == Running
      ensures Runnable(chart, eng.View()) && Untouched(s0, eng.View())
      ensures ms.Some? ==> eng.status == Running && Fits(chart, eng.View(), ms.value.staged)
      ensures eng.status == Running || eng.status == Error
      ensures ms == None && eng.status == Running ==> Complete(chart, eng.View())
      ensures eng.status == Error ==> eng.errReason == Some(AlwaysLoopExceeded)
    {
      hide Runnable, Fits, Complete, Engines.Step, StagesMicrostep;
      StepRunnable(chart, s0);
      StepStages(chart, s0);
      if ms.Some? {
        StepFits(chart, s0);
      } else {
        StepStatus(chart, s0);
        if eng.status != Error { StepSettled(chart, s0); }
      }
    }

    /** An engine that only moved on without touching what is published stays in step. */
    lemma StillInStep(s0: State)
      requires Untouched(s0, eng.View()) && InStep(chart, s0, snap, armed, Steady()) && Runnable(chart, eng.View())
      requires eng.status == snap.status || eng.status == Error
      ensures InStep(chart, eng.View(), snap, armed, Steady())
    {
    }

    /** One engine step inside runMacrostep, not yet executed. */
    method StageNext() returns (ms: Option<Microstep>)
      requires Working()
      modifies eng, this`moves
      ensures Runnable(chart, old(eng.View())) && Valid() && !done && snap.status == Running
      ensures eng.View() == Engines.Step(chart, old(eng.View())).0
      ensures moves == old(moves) + [if ms.Some? then Abandon else Take]
      ensures ms == None <==> Engines.Step(chart, old(eng.View())).1.Settled?
      ensures ms.Some? ==> Ready(ms.value) && eng.status == Running
      ensures ms.Some? ==> Engines.Step(chart, old(eng.View())).1.ms == ms.value.staged
      ensures ms == None ==>
                if eng.status == Error then eng.errReason == Some(AlwaysLoopExceeded)
                else eng.status == Running && AtRest()
    {
      hide WellFormed, Accounted, PublicOk, InStep, ChildrenOk, Complete, Fits, Runnable, DoneOk, Tracks, Due, StatesOf,
           Offers, EventsOf;
      WorkingRunnable();
      ghost var s0, was := eng.View(), moves;
      ms := eng.Step();
      AfterStep(s0, ms);
      StillInStep(s0);
      StepTracked(chart, initCtx, was, s0, StatesOf(published), if ms.Some? then Abandon else Take);
      moves := was + [if ms.Some? then Abandon else Take];
    }

    /** machine.go: one turn of runMacrostep; None means another turn. */
    method TurnMacrostep(left: nat) returns (end: Option<MacroEnd>)
      requires Working()
      modifies this`snap, this`version, this`published, this`localSubs, this`ticks, this`armed, this`nextTimer,
               this`cancelled, this`moves, eng
      ensures Valid() && !done && Continues(old(Books()), Books())
      ensures end == Some(WentQuiet) ==> AtRest()
      ensures end == Some(WentTerminal) ==> snap.status == Done || snap.status == Error
      ensures end.Some? ==> Ran(chart, old(eng.View()), left, end.value, Refused(snap), eng.View())
      ensures end == None ==> Working() && left > 0 && LeadsTo(chart, old(eng.View()), left, eng.View(), left - 1)
      ensures Stepped(old(moves), moves, end == None || Whole(end.value, snap))
    {
      hide *;
      BooksKept(Books());
      WorkingRunnable();
      ghost var s0, was := eng.View(), moves;
      StepRan(chart, s0, left);
      var ms := StageNext();
      StatusMeans();
      ExecutedTake(eng.View(), was);
      if ms == None {
        if eng.status != Error {
          EndMeans(snap);
          return Some(WentQuiet);
        }
        PublishError(snap, eng.errReason.value);
        EndMeans(snap);
        return Some(WentTerminal);
      }
      EndMeans(snap);
      if left == 0 { return Some(RanOutOfFuel); }
      CommitStatus(chart, eng.View(), ms.value.staged);
      var ok, shown := ExecMicrostep(ms.value);
      StatusMeans();
      EndMeans(snap);
      end := if !ok || eng.status.Terminal() then Some(WentTerminal) else None;
    }

    lemma StatusMeans()
      ensures eng.View().status == eng.status && !Running.Terminal()
      ensures Done.Terminal() && Error.Terminal() && Stopped.Terminal()
      ensures (Valid() && snap.status == Running && eng.status == Running && !done && ticks % 2 == 0
               && Abandon !in moves) ==> Working()
    {
    }

    /** machine.go: runMacrostep, with a bound on the microsteps it may take.  It is the
        macrostep of the engine, unless an observer refuses one of its microsteps. */
    method RunMacrostep(fuel: nat) returns (end: MacroEnd)
      requires Working()
      modifies this`snap, this`version, this`published, this`localSubs, this`ticks, this`armed, this`nextTimer,
               this`cancelled, this`moves, eng
      ensures Valid() && !done && Continues(old(Books()), Books())
      ensures end == WentQuiet ==> AtRest()
      ensures end == WentTerminal ==> snap.status == Done || snap.status == Error
      ensures Ran(chart, old(eng.View()), fuel, end, Refused(snap), eng.View())
      ensures Stepped(old(moves), moves, Whole(end, snap))
    {
      hide *;
      var left := fuel;
      ghost var s0 := eng.View();
      BooksKept(Books());
      WorkingRunnable();
      LeadsHere(chart, s0, fuel);
      while true
        invariant Working() && Continues(old(Books()), Books())
        invariant LeadsTo(chart, s0, fuel, eng.View(), left)
        invariant moves == old(moves) || Stepped(old(moves), moves, true)
        decreases left
      {
        ghost var books, s1, was := Books(), eng.View(), moves;
        var turn := TurnMacrostep(left);
        ContinuesOn(old(Books()), books, Books());
        SteppedOn(old(moves), was, moves, turn == None || Whole(turn.value, snap));
        if turn.Some? {
          RanOn(chart, s0, fuel, s1, left, turn.value, Refused(snap), eng.View());
          return turn.value;
        }
        LeadsOn(chart, s0, fuel, s1, left, eng.View(), left - 1);
        left := left - 1;
      }
    }

    lemma BooksKept(books: Ledger)
      ensures Continues(books, books)
    {
    }

    /** machine.go: loop, the start microstep. */
    method StartEngine() returns (ok: bool)
      requires Valid() && snap.status == Starting && !done && ticks == 0
      modifies this`snap, this`version, this`published, this`localSubs, this`ticks, this`armed, this`nextTimer,
               this`cancelled, this`moves, eng
      ensures Valid() && !done && Continues(old(Books()), Books())
      ensures !ok ==> Refused(snap) && snap.status == Error && eng.View() == InitialState(chart.b, initCtx)
      ensures ok ==>
                && eng.View() == Started(chart, initCtx) && moves == [] && snap.status == eng.status
                && (if eng.status == Running then Working() else eng.status == Done)
    {
      hide *;
      StartingFacts();
      var ms := StageStart();
      CommitStatus(chart, eng.View(), ms.staged);
      ExecutedAtStart(eng.View());
      StartCourse(chart, initCtx);
      var committed, shown := ExecMicrostep(ms);
      StatusMeans();
      EndMeans(snap);
      ok := committed;
    }

    /** The start microstep, staged. */
    method StageStart() returns (ms: Microstep)
      requires Valid() && snap.status == Starting && !done
      modifies eng`lastEvt
      ensures Ready(ms) && ms.staged == StartStep(chart, initCtx) && eng.View() == old(eng.View())
    {
      hide WellFormed, Accounted, PublicOk, ChildrenOk, RefusalOk, Fits, Tracks, StatesOf, StartStep, InStep,
           InitialState;
      StartingFacts();
      StartFits(chart, initCtx);
      ms := eng.Start();
    }

    /** machine.go: loop, up to the first wait for the mailbox. */
    method Begin(fuel: nat) returns (end: MacroEnd)
      requires Valid() && snap.status == Starting && !done && ticks == 0
      modifies this, eng
      ensures Valid() && processed == old(processed) && old(mailbox) <= mailbox && old(enqueued) <= enqueued
      ensures Continues(old(Books()), Books())
      ensures end == WentQuiet ==> AtRest() && Reconciled()
      ensures end == WentTerminal ==> done
      ensures Began(chart, initCtx, fuel, end, Refused(snap), eng.View(), moves)
      ensures Refused(snap) ==> observers != []
      ensures EnoughAtStart(chart, initCtx, fuel) ==> end != RanOutOfFuel
    {
      hide *;
      ghost var books := Books();
      StartingFacts();
      var ok := StartEngine();
      StatusMeans();
      ghost var books' := Books();
      if !ok || eng.status.Terminal() {
        Shutdown();
        ContinuesOn(books, books', Books());
        BeganAtOnce(chart, initCtx, fuel, Refused(snap), eng.View(), moves);
        ObserverSaid();
        return WentTerminal;
      }
      end := FinishMacrostep(fuel);
      ContinuesOn(books, books', Books());
      BeganThen(fuel, end);
      ObserverSaid();
    }

    lemma BeganThen(fuel: nat, end: MacroEnd)
      requires Valid() && Started(chart, initCtx).status == Running
      requires Ran(chart, Started(chart, initCtx), fuel, end, Refused(snap), eng.View())
      requires Stepped([], moves, Whole(end, snap))
      ensures Began(chart, initCtx, fuel, end, Refused(snap), eng.View(), moves)
      ensures EnoughAtStart(chart, initCtx, fuel) ==> end != RanOutOfFuel
    {
      hide Started, StartStep, Ran, EnoughAtStart, Macrostep, Runnable, WellFormed;
      if EnoughAtStart(chart, initCtx, fuel) && end == RanOutOfFuel {
        StartMacrostepEnds(chart, initCtx, fuel);
        OutOfFuelRan(chart, Started(chart, initCtx), fuel, Refused(snap), eng.View());
      }
    }

    lemma StartingFacts()
      requires Valid() && snap.status == Starting
      ensures WellFormed(chart.d) && eng.View() == InitialState(chart.b, initCtx) && eng.ctx == initCtx && moves == []
      ensures eng.chart == chart && eng.status == eng.View().status == Starting
    {
    }

    lemma ObserverSaid()
      requires Valid()
      ensures Refused(snap) ==> observers != []
    {
    }

    /** Children are those the active states declare, as far as there are runners. */
    ghost predicate Reconciled()
      reads this`children, eng`cfg, eng.cfg
    {
      children.Keys == Desired(chart.d, eng.cfg.members) * runners
    }

    /** machine.go: loop, a macrostep and then either reconciliation or shutdown. */
    method FinishMacrostep(fuel: nat) returns (end: MacroEnd)
      requires Working()
      modifies this, eng
      ensures Valid() && processed == old(processed) && old(mailbox) <= mailbox && old(enqueued) <= enqueued
      ensures Continues(old(Books()), Books())
      ensures end == WentQuiet ==> AtRest() && Reconciled()
      ensures end == WentTerminal ==> done
      ensures Ran(chart, old(eng.View()), fuel, end, Refused(snap), eng.View())
      ensures Stepped(old(moves), moves, Whole(end, snap))
    {
      hide *;
      ghost var books := Books();
      end := RunMacrostep(fuel);
      ghost var books' := Books();
      match end
      case WentTerminal =>
        TerminalFacts();
        Shutdown();
        ContinuesOn(books, books', Books());
      case WentQuiet => Reconcile();
      case RanOutOfFuel =>
    }

    /** At rest, bringing the children in line changes nothing else but what they emit. */
    method Reconcile()
      requires AtRest()
      modifies this`children, this`invokeSpawns, this`mailbox, this`enqueued
      ensures AtRest() && Valid() && Reconciled() && Books() == old(Books())
      ensures old(mailbox) <= mailbox && old(enqueued) <= enqueued
    {
      hide WellFormed, Accounted, PublicOk, EngineOk, RunOk, RefusalOk, Complete, Desired, ChildrenOk, Engine.View,
           Books;
      ghost var emitted := ReconcileInvokes();
    }

    /** machine.go: loop, the case of one mailbox item.  An event is offered to the engine and
        one macrostep is run.  The reply to a settle ping says whether the mailbox is empty; an
        idle answer means that everything enqueued so far was handled and that the engine has
        nothing left to do. */
    method HandleNext(fuel: nat) returns (end: MacroEnd, reply: Option<bool>)
      requires AtRest() && mailbox != [] && !mailbox[0].DrainClose?
      modifies this, eng
      ensures Valid() && processed == old(processed) + [old(mailbox)[0]]
      ensures old(mailbox)[1..] <= mailbox && old(enqueued) <= enqueued
      ensures Continues(old(Books()), Books())
      ensures old(mailbox)[0].Ping? ==>
                && end == WentQuiet && reply == Some(mailbox == []) && mailbox == old(mailbox)[1..]
                && enqueued == old(enqueued) && moves == old(moves)
                && eng.View() == old(eng.View()) && eng.cfg == old(eng.cfg)
                && children == old(children) && snap == old(snap) && armed == old(armed) && Books() == old(Books())
                && (old(Reconciled()) ==> Reconciled())
      ensures old(mailbox)[0].Event? ==>
                var q := old(mailbox)[0].q;
                && Ran(chart, old(eng.View()).(pendingExternal := Some(q)), fuel, end, Refused(snap), eng.View())
                && Stepped(old(moves) + [Offer(q)], moves, Whole(end, snap))
                && reply == None && (end == WentQuiet ==> Reconciled())
      ensures reply == Some(true) ==> enqueued == processed && Complete(chart, eng.View())
      ensures end == WentQuiet ==> AtRest()
      ensures end == WentTerminal ==> done
      ensures Refused(snap) ==> observers != []
      ensures Enough(chart, fuel) ==> end != RanOutOfFuel
    {
      hide *;
      BooksKept(Books());
      RestEnds(mailbox[0], fuel);
      ghost var s0 := eng.View();
      var item := NextItem();
      if item.Ping? {
        RestFacts();
        ObserverSaid();
        return WentQuiet, Some(mailbox == []);
      }
      end := FinishMacrostep(fuel);
      ObserverSaid();
      if end == RanOutOfFuel {
        OutOfFuelRan(chart, s0.(pendingExternal := Some(item.q)), fuel, Refused(snap), eng.View());
      }
      reply := None;
    }

    /** The next item leaves the mailbox, and an event is offered to the engine. */
    method NextItem() returns (item: Item)
      requires AtRest() && mailbox != []
      modifies this`mailbox, this`processed, this`moves, eng`pendingExternal
      ensures item == old(mailbox)[0] && mailbox == old(mailbox)[1..] && processed == old(processed) + [item]
      ensures Working()
      ensures item.Event? ==>
                && eng.View() == old(eng.View()).(pendingExternal := Some(item.q))
                && moves == old(moves) + [Offer(item.q)]
      ensures !item.Event? ==> AtRest() && eng.View() == old(eng.View()) && moves == old(moves)
    {
      hide WellFormed, Accounted, PublicOk, RefusalOk, ChildrenOk, Complete, InStep, Runnable, Tracks, StatesOf, Offers,
           EventsOf;
      RestFacts();
      ghost var s0, was := eng.View(), moves;
      EventsOfMore(processed, mailbox[0]);
      item := mailbox[0];
      mailbox := mailbox[1..];
      processed := processed + [item];
      if item.Event? {
        OfferTracked(chart, initCtx, was, s0, StatesOf(published), item.q);
        RunnableQueues(chart, s0, s0.(pendingExternal := Some(item.q)));
        eng.Offer(item.q);
        StillInStep(s0);
        moves := was + [Offer(item.q)];
      }
    }

    /** Other goroutines enqueue. */
    method Arrive(items: seq<Item>)
      requires AtRest()
      modifies this`mailbox, this`enqueued
      ensures AtRest() && mailbox == old(mailbox) + items && enqueued == old(enqueued) + items
    {
      hide WellFormed, Accounted, PublicOk, RefusalOk, ChildrenOk, Complete, EngineOk, RunOk, Engine.View;
      mailbox := mailbox + items;
      enqueued := enqueued + items;
    }

    lemma RestFacts()
      requires AtRest()
      ensures Working() && Valid() && !done && Live(snap.status) && Complete(chart, eng.View())
      ensures enqueued == processed + mailbox && Abandon !in moves && eng.status == Running
      ensures Runnable(chart, eng.View()) && InStep(chart, eng.View(), snap, armed, Steady())
      ensures Tracks(chart, initCtx, moves, eng.View(), StatesOf(published))
    {
    }

    /** At rest, a macrostep of the next event ends if the bound is high enough. */
    lemma RestEnds(item: Item, fuel: nat)
      requires AtRest()
      ensures Runnable(chart, eng.View())
      ensures item.Event? ==> Runnable(chart, eng.View().(pendingExternal := Some(item.q)))
      ensures item.Event? && Enough(chart, fuel) ==>
                !Macrostep(chart, eng.View().(pendingExternal := Some(item.q)), fuel).OutOfFuel?
    {
      hide WellFormed, Valid, Runnable, Enough, Macrostep, After, Exec;
      RestFacts();
      RunLimits(chart, initCtx, moves);
      if item.Event? {
        RunnableQueues(chart, eng.View(), eng.View().(pendingExternal := Some(item.q)));
        if Enough(chart, fuel) { EventMacrostepEnds(chart, eng.View().(pendingExternal := Some(item.q)), fuel); }
      }
    }

    lemma TerminalFacts()
      requires snap.status == Done || snap.status == Error
      ensures snap.status.Terminal()
    {
    }

    // ---------------------------------------------------------------- what the run is known to keep

    /** On a tame chart, or after any benign run, the configuration is legal at all times after
        start, and so is the one behind every published snapshot of a live actor. */
    lemma StaysLegal()
      requires Valid() && eng.status != Starting && (Tame(chart.d) || BenignCourse(chart, initCtx, moves))
      ensures Legal(chart.d, eng.cfg.members)
      ensures forall i | 1 <= i < |published| && Live(published[i].snapshot.status) ::
                && Legal(chart.d, published[i].state.cfg)
                && published[i].snapshot.activeStates == Ids(chart.d, Leaves(chart.d, published[i].state.cfg))
    {
      hide WellFormed, Tame, Legal, Accounted, ChildrenOk, EngineOk, UpToDate, BenignCourse, After, Course, Orderly,
           Ids, Leaves, StatesOf;
      CourseLegal(chart, initCtx, moves);
      StatesOfAt(chart.d, published, snap, version);
      forall i | 1 <= i < |published| && Live(published[i].snapshot.status)
        ensures Legal(chart.d, published[i].state.cfg)
      {
        assert published[i].state in Course(chart, initCtx, moves)[1..];
      }
    }

    /** On every well-formed chart and at all times after start the root is active and no active
        node lacks the active children it demands, in the engine and behind every published
        snapshot of a live actor; the configuration is legal unless a compound has two. */
    lemma StaysInhabited()
      requires Valid() && eng.status != Starting
      ensures Inhabited(chart.d, eng.cfg.members)
      ensures Legal(chart.d, eng.cfg.members) <==> Unsplit(chart.d, eng.cfg.members)
      ensures forall i | 1 <= i < |published| && Live(published[i].snapshot.status) ::
                Inhabited(chart.d, published[i].state.cfg)
    {
      hide WellFormed, Legal, Inhabited, Unsplit, Accounted, ChildrenOk, EngineOk, UpToDate, After, Course, Orderly,
           StatesOf;
      ReachableInhabited(chart, initCtx, moves);
      StatesOfAt(chart.d, published, snap, version);
      forall i | 1 <= i < |published| && Live(published[i].snapshot.status)
        ensures Inhabited(chart.d, published[i].state.cfg)
      {
        assert published[i].state in Course(chart, initCtx, moves)[1..];
      }
    }

    /** On a tame chart an actor at rest has no edge that may fire on its own. */
    lemma RestMeansQuiet()
      requires AtRest() && (Tame(chart.d) || BenignCourse(chart, initCtx, moves))
      ensures NothingFires(chart.d, eng.cfg.members, Always, Pass(chart.b, eng.ctx, chart.b.zero))
    {
      StaysLegal();
      NothingMatches(chart, eng.View(), Always, chart.b.zero);
    }

    /** The version counts the microsteps committed, and the eventless ones never exceed the
        limit times one more than those that an event triggered. */
    lemma VersionCounts()
      requires Valid() && eng.status != Starting && Live(snap.status)
      ensures Runnable(chart, Started(chart, initCtx))
      ensures var triggered := Commits(chart, Started(chart, initCtx), moves, true);
              var eventless := Commits(chart, Started(chart, initCtx), moves, false);
              version == 1 + triggered + eventless && eventless <= chart.alwaysLimit * (1 + triggered)
    {
      hide WellFormed, Accounted, ChildrenOk, EngineOk, UpToDate, Orderly, StatesOf, Course, After, Commits, Started;
      EventlessBounded(chart, initCtx, moves);
      CourseLength(chart, initCtx, moves);
      StatesOfAt(chart.d, published, snap, version);
    }

    function Pings(items: seq<Item>): nat
    {
      if items == [] then 0 else Pings(items[..|items| - 1]) + (if items[|items| - 1].Ping? then 1 else 0)
    }

    lemma OneMoreItem(was: seq<Item>, now: seq<Item>, item: Item)
      requires was <= now
      ensures was <= now + [item]
              && Pings((now + [item])[|was|..]) == Pings(now[|was|..]) + (if item.Ping? then 1 else 0)
    {
      var tail := (now + [item])[|was|..];
      assert tail == now[|was|..] + [item] && tail[..|tail| - 1] == now[|was|..];
    }

    lemma NoPings(q: seq<Item>)
      ensures Pings(q[|q|..]) == 0
    {
    }

    /** machine.go: drainAndClose.  `late` is what other goroutines enqueue meanwhile, one
        batch per turn.  Every event is offered and its macrostep run, every ping is answered
        that the actor has settled, and invokes are not reconciled on this path. */
    method DrainAndClose(late: seq<seq<Item>>, fuel: nat) returns (end: MacroEnd, replies: seq<bool>)
      requires AtRest()
      modifies this, eng
      ensures Valid() && old(processed) <= processed && old(moves) <= moves && Continues(old(Books()), Books())
      ensures |replies| == Pings(processed[|old(processed)|..]) && forall r | r in replies :: r
      ensures end != RanOutOfFuel ==> done
      ensures end == WentQuiet ==>
                && mailbox == [] && processed == enqueued && old(processed) + old(mailbox) <= processed
                && Abandon !in moves && Complete(chart, eng.View())
      ensures end == WentTerminal ==> snap.status == Done || snap.status == Error
      ensures Enough(chart, fuel) ==> end != RanOutOfFuel
    {
      hide *;
      var turn := 0;
      replies := [];
      ghost var all0, books := enqueued, Books();
      BooksKept(books);
      NoPings(processed);
      RestFacts();
      while mailbox != []
        invariant AtRest() && turn <= |late|
        invariant all0 <= enqueued && old(processed) <= processed && old(moves) <= moves && Continues(books, Books())
        invariant |replies| == Pings(processed[|old(processed)|..]) && forall r | r in replies :: r
        decreases |late| - turn, |mailbox|
      {
        ghost var books', processed', moves' := Books(), processed, moves;
        RestEnds(mailbox[0], fuel);
        ghost var s0 := eng.View();
        var item := NextItem();
        OneMoreItem(old(processed), processed', item);
        if item.Ping? { replies := replies + [true]; }
        if item.Event? {
          end := DrainMacrostep(fuel);
          ContinuesOn(books, books', Books());
          SteppedGrows(moves' + [Offer(item.q)], moves, Whole(end, snap));
          if end == RanOutOfFuel {
            OutOfFuelRan(chart, s0.(pendingExternal := Some(item.q)), fuel, Refused(snap), eng.View());
          }
          if end != WentQuiet { return; }
        }
        if turn < |late| {
          Arrive(late[turn]);
          turn := turn + 1;
        }
      }
      RestFacts();
      ghost var books' := Books();
      Shutdown();
      ContinuesOn(books, books', Books());
      end := WentQuiet;
    }

    /** The macrostep of a drained event, and shutdown if it ended the machine. */
    method DrainMacrostep(fuel: nat) returns (end: MacroEnd)
      requires Working()
      modifies this, eng
      ensures Valid() && mailbox == old(mailbox) && enqueued == old(enqueued) && processed == old(processed)
      ensures Continues(old(Books()), Books())
      ensures end == WentQuiet ==> AtRest()
      ensures end == WentTerminal ==> done && (snap.status == Done || snap.status == Error)
      ensures Ran(chart, old(eng.View()), fuel, end, Refused(snap), eng.View())
      ensures Stepped(old(moves), moves, Whole(end, snap))
    {
      hide *;
      ghost var books := Books();
      end := RunMacrostep(fuel);
      if end == WentTerminal {
        ghost var books' := Books();
        TerminalFacts();
        Shutdown();
        ContinuesOn(books, books', Books());
      }
    }

    /** machine.go: loop, the case of the CloseAfterDrain sentinel: what was enqueued before
        the sentinel is handled by now, and the rest of the mailbox is before shutdown. */
    method HandleDrainClose(late: seq<seq<Item>>, fuel: nat) returns (end: MacroEnd, replies: seq<bool>)
      requires AtRest() && mailbox != [] && mailbox[0].DrainClose?
      modifies this, eng
      ensures Valid() && old(processed) + [DrainClose] <= processed && old(moves) <= moves
      ensures Continues(old(Books()), Books())
      ensures forall r | r in replies :: r
      ensures end != RanOutOfFuel ==> done
      ensures end == WentQuiet ==>
                && mailbox == [] && processed == enqueued && old(enqueued) <= processed
                && Abandon !in moves && Complete(chart, eng.View())
      ensures end == WentTerminal ==> snap.status == Done || snap.status == Error
      ensures Enough(chart, fuel) ==> end != RanOutOfFuel
    {
      hide *;
      RestFacts();
      var item := NextItem();
      end, replies := DrainAndClose(late, fuel);
    }

    /** machine.go: loop, the case of a new subscriber. */
    method Register(id: nat)
      requires Valid() && !done
      modifies this`localSubs
      ensures Valid() && localSubs == old(localSubs) + [Subscription(id, version, [])]
      ensures Continues(old(Books()), Books())
    {
      hide WellFormed, Accounted, ChildrenOk, RunOk, RefusalOk, EngineOk, Engine.View;
      localSubs := localSubs + [Subscription(id, version, [])];
      KnownPrefix(old(localSubs), localSubs);
    }

    lemma KnownPrefix(a: seq<Subscription>, b: seq<Subscription>)
      requires a <= b
      ensures Known(a) <= Known(b)
    {
      forall i | 0 <= i < |a| ensures (a[i].id, a[i].since) in Known(b) { assert a[i] == b[i]; }
    }

    /** machine.go: removeSub.  The first subscription of that identity leaves the list and its
        channel is closed; every other one stays. */
    method RemoveSub(id: nat)
      requires Valid() && !done
      modifies this`localSubs, this`removed
      ensures Valid()
      ensures (forall s | s in old(localSubs) :: s.id != id) ==> localSubs == old(localSubs) && removed == old(removed)
      ensures forall i | 0 <= i < |old(localSubs)| && old(localSubs)[i].id == id
              && (forall j | 0 <= j < i :: old(localSubs)[j].id != id) ::
                localSubs == old(localSubs)[..i] + old(localSubs)[i + 1..]
                  && removed == old(removed) + [old(localSubs)[i]]
      ensures forall k | k in old(Books()).subs && k.0 != id :: k in Books().subs
    {
      hide WellFormed, Accounted, ChildrenOk, RunOk, RefusalOk, StreamOk, EngineOk, Engine.View;
      for i := 0 to |localSubs|
        invariant localSubs == old(localSubs) && removed == old(removed)
                  && forall j | 0 <= j < i :: localSubs[j].id != id
      {
        if localSubs[i].id == id {
          removed := removed + [localSubs[i]];
          localSubs := localSubs[..i] + localSubs[i + 1..];
          KnownWithout(old(localSubs), i);
          return;
        }
      }
    }

    lemma KnownWithout(a: seq<Subscription>, i: nat)
      requires i < |a|
      ensures forall k | k in Known(a) && k.0 != a[i].id :: k in Known(a[..i] + a[i + 1..])
    {
      var b := a[..i] + a[i + 1..];
      forall k | k in Known(a) && k.0 != a[i].id ensures k in Known(b) {
        var j :| 0 <= j < |a| && k == (a[j].id, a[j].since);
        assert if j < i then b[j] == a[j] else b[j - 1] == a[j];
      }
    }

    /** A subscriber from before Start that was not removed, whether its channel is still open
        or was closed by the shutdown, has been sent every version from 1 in order, the
        terminal one included, and nothing else. */
    lemma SubscriberSeesEveryVersion(start: Ledger, id: nat) returns (sub: Subscription)
      requires Valid() && Continues(start, Books()) && (id, 0) in start.subs
      ensures sub in localSubs + closedSubs && sub.id == id && sub.since == 0
      ensures |sub.sent| == version
      ensures forall k | 0 <= k < version :: sub.sent[k] == published[k + 1].snapshot && sub.sent[k].version == k + 1
      ensures done && version > 0 ==> sub.sent[version - 1] == snap && snap.status.Terminal()
    {
      hide WellFormed, Accounted, EngineOk, RunOk, RefusalOk, ChildrenOk, Engine.View, Sent;
      assert (id, 0) in Known(localSubs) + Known(closedSubs);
      var subs := if (id, 0) in Known(localSubs) then localSubs else closedSubs;
      var i :| 0 <= i < |subs| && (subs[i].id, subs[i].since) == (id, 0);
      sub := subs[i];
      assert UpToDate(published, subs);
      SentInOrder(chart.d, published, snap, version, sub);
    }
  }

  /** What was sent since version 0 are all versions from 1, the last one being the current. */
  lemma SentInOrder(d: Definition, published: seq<Published>, snap: Snapshot, version: nat, sub: Subscription)
    requires StreamOk(d, published, snap, version) && sub.sent == Sent(published[1..])
    ensures |sub.sent| == version
    ensures forall k | 0 <= k < version :: sub.sent[k] == published[k + 1].snapshot && sub.sent[k].version == k + 1
    ensures version > 0 ==> sub.sent[version - 1] == snap
  {
    SentMeaning(published[1..]);
  }

  lemma {:induction false} SentMeaning(p: seq<Published>)
    ensures |Sent(p)| == |p|
    ensures forall k | 0 <= k < |p| :: Sent(p)[k] == p[k].snapshot
  {
    if p == [] {
    } else {
      SentMeaning(p[1..]);
    }
  }
}
