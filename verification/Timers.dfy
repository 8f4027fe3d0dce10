/** The live table of armed `after` timers and what a snapshot says about it
    (machine.go: plannedPending, armAfterTimers, cancelAfterTimers). */
module Timers {
  import opened Definitions
  import opened Configurations
  import opened Staging

  /** A timer handed to the timer service; ids tell the handles apart. */
  datatype ArmedTimer = ArmedTimer(id: nat, descriptor: string, deadline: int)

  datatype ScheduledTimer = ScheduledTimer(stateId: string, descriptor: string, deadline: int)

  type Armed = map<Node, seq<ArmedTimer>>

  const NANOS_PER_MILLI := 1_000_000

  /** machine.go: resolveDelay; a symbol without an entry means no delay. */
  function ResolveDelay(delays: map<string, int>, delay: Delay): int
  {
    if delay.symbol != "" then (if delay.symbol in delays then delays[delay.symbol] else 0)
    else delay.millis * NANOS_PER_MILLI
  }

  function AfterEdges(ts: seq<Transition>): seq<Transition>
  {
    if ts == [] then [] else (if ts[0].isAfter then [ts[0]] else []) + AfterEdges(ts[1..])
  }

  /** The timers of one state. */
  function TimersFor(delays: map<string, int>, now: int, edges: seq<Transition>, firstId: nat): seq<ArmedTimer>
  {
    if edges == [] then []
    else
      var first := ArmedTimer(firstId, edges[0].event, now + ResolveDelay(delays, edges[0].delay));
      [first] + TimersFor(delays, now, edges[1..], firstId + 1)
  }

  lemma {:induction false} TimersForMeaning(delays: map<string, int>, now: int, edges: seq<Transition>, firstId: nat)
    ensures |TimersFor(delays, now, edges, firstId)| == |edges|
    ensures forall i | 0 <= i < |edges| :: TimersFor(delays, now, edges, firstId)[i]
              == ArmedTimer(firstId + i, edges[i].event, now + ResolveDelay(delays, edges[i].delay))
  {
    if edges == [] {
    } else {
      TimersForMeaning(delays, now, edges[1..], firstId + 1);
    }
  }

  /** The timers of a state as a snapshot shows them. */
  function Describe(id: string, arms: seq<ArmedTimer>): seq<ScheduledTimer>
  {
    if arms == [] then [] else [ScheduledTimer(id, arms[0].descriptor, arms[0].deadline)] + Describe(id, arms[1..])
  }

  /** The armed timers of the states in `keys` below k, listed by document order. */
  function TimersOf(d: Definition, armed: Armed, keys: set<Node>, k: nat): seq<ScheduledTimer>
    requires k <= |d.nodes|
  {
    if k == 0 then [] else TimersOf(d, armed, keys, k - 1) + TimersAt(d, armed, keys, k - 1)
  }

  function TimersAt(d: Definition, armed: Armed, keys: set<Node>, n: Node): seq<ScheduledTimer>
    requires InTree(d, n)
  {
    if n in keys && n in armed then Describe(d.nodes[n].id, armed[n]) else []
  }

  /** The whole live table as a multiset. */
  function Table(d: Definition, armed: Armed): multiset<ScheduledTimer>
  {
    multiset(TimersOf(d, armed, armed.Keys, |d.nodes|))
  }

  /** The `after` timers that a state's edges plan at time `now`. */
  function PlanOf(id: string, delays: map<string, int>, now: int, ts: seq<Transition>): seq<ScheduledTimer>
  {
    if ts == [] then []
    else (if ts[0].isAfter then [ScheduledTimer(id, ts[0].event, now + ResolveDelay(delays, ts[0].delay))] else [])
         + PlanOf(id, delays, now, ts[1..])
  }

  /** What entering these states at time `now` arms. */
  function EntryTimers(d: Definition, delays: map<string, int>, now: int, entered: seq<Node>): seq<ScheduledTimer>
    requires AllInTree(d, entered)
  {
    if entered == [] then []
    else
      assert entered[0] in entered;
      PlanOf(d.nodes[entered[0]].id, delays, now, d.nodes[entered[0]].transitions)
      + EntryTimers(d, delays, now, entered[1..])
  }

  /** x is the timer of an `after` edge of one of these states: its deadline is so many
      milliseconds away, or as far as the table of named delays says, or now if it has no entry. */
  ghost predicate TimerOf(d: Definition, delays: map<string, int>, now: int, n: Node, t: Transition, x: ScheduledTimer)
  {
    && InTree(d, n) && t in d.nodes[n].transitions && t.isAfter
    && x.stateId == d.nodes[n].id && x.descriptor == t.event
    && (t.delay.symbol == "" ==> x.deadline == now + t.delay.millis * 1_000_000)
    && (t.delay.symbol != "" && t.delay.symbol in delays ==> x.deadline == now + delays[t.delay.symbol])
    && (t.delay.symbol != "" && t.delay.symbol !in delays ==> x.deadline == now)
  }

  lemma {:induction false} PlanOfExactly(id: string, delays: map<string, int>, now: int, ts: seq<Transition>,
                                         x: ScheduledTimer)
    ensures x in PlanOf(id, delays, now, ts) <==>
              exists t :: t in ts && t.isAfter && x == ScheduledTimer(id, t.event, now + ResolveDelay(delays, t.delay))
  {
    if ts == [] {
    } else {
      PlanOfExactly(id, delays, now, ts[1..], x);
      assert forall t :: t in ts <==> t == ts[0] || t in ts[1..];
    }
  }

  /** What entering states arms is the timers of their `after` edges and nothing else. */
  lemma {:induction false} EntryTimersExactly(d: Definition, delays: map<string, int>, now: int, entered: seq<Node>,
                                              x: ScheduledTimer)
    requires AllInTree(d, entered)
    ensures x in EntryTimers(d, delays, now, entered) <==>
              exists n, t :: n in entered && TimerOf(d, delays, now, n, t, x)
  {
    if entered == [] {
    } else {
      var n := entered[0];
      assert n in entered && forall m :: m in entered <==> m == n || m in entered[1..];
      EntryTimersExactly(d, delays, now, entered[1..], x);
      PlanOfExactly(d.nodes[n].id, delays, now, d.nodes[n].transitions, x);
      NodeTimers(d, delays, now, n, x);
    }
  }

  lemma NodeTimers(d: Definition, delays: map<string, int>, now: int, n: Node, x: ScheduledTimer)
    requires InTree(d, n)
    ensures (exists t :: t in d.nodes[n].transitions && t.isAfter
               && x == ScheduledTimer(d.nodes[n].id, t.event, now + ResolveDelay(delays, t.delay)))
       <==> exists t :: TimerOf(d, delays, now, n, t, x)
  {
    forall t
      ensures TimerOf(d, delays, now, n, t, x) <==>
                t in d.nodes[n].transitions && t.isAfter
                && x == ScheduledTimer(d.nodes[n].id, t.event, now + ResolveDelay(delays, t.delay))
    {
    }
  }

  function CountIn(d: Definition, armed: Armed, keys: set<Node>, k: nat, x: ScheduledTimer): nat
    requires k <= |d.nodes|
  {
    multiset(TimersOf(d, armed, keys, k))[x]
  }

  function CountAt(d: Definition, armed: Armed, keys: set<Node>, n: Node, x: ScheduledTimer): nat
    requires InTree(d, n)
  {
    multiset(TimersAt(d, armed, keys, n))[x]
  }

  lemma CountUnfold(d: Definition, armed: Armed, keys: set<Node>, k: nat, x: ScheduledTimer)
    requires 0 < k <= |d.nodes|
    ensures CountIn(d, armed, keys, k, x) == CountIn(d, armed, keys, k - 1, x) + CountAt(d, armed, keys, k - 1, x)
  {
    MultisetConcat(TimersOf(d, armed, keys, k - 1), TimersAt(d, armed, keys, k - 1));
  }

  lemma CountNone(d: Definition, armed: Armed, keys: set<Node>, x: ScheduledTimer)
    ensures CountIn(d, armed, keys, 0, x) == 0
  {
  }

  lemma CountAtOther(d: Definition, armed: Armed, keys: set<Node>, rest: set<Node>, n: Node, m: Node, x: ScheduledTimer)
    requires InTree(d, m)
    requires forall m: Node :: m in rest <==> m in keys && m != n
    ensures CountAt(d, armed, rest, m, x) == if m == n then 0 else CountAt(d, armed, keys, m, x)
  {
  }

  lemma {:induction false} TakeOutCount(d: Definition, armed: Armed, keys: set<Node>, rest: set<Node>, n: Node, k: nat,
                                        x: ScheduledTimer)
    requires k <= |d.nodes| && InTree(d, n)
    requires forall m: Node :: m in rest <==> m in keys && m != n
    ensures CountIn(d, armed, keys, k, x)
            == CountIn(d, armed, rest, k, x) + (if n < k then CountAt(d, armed, keys, n, x) else 0)
  {
    hide CountIn, CountAt;
    if k == 0 {
      CountNone(d, armed, keys, x);
      CountNone(d, armed, rest, x);
    } else {
      TakeOutCount(d, armed, keys, rest, n, k - 1, x);
      CountUnfold(d, armed, keys, k, x);
      CountUnfold(d, armed, rest, k, x);
      CountAtOther(d, armed, keys, rest, n, k - 1, x);
    }
  }

  /** Taking one state out of the table takes out exactly its timers. */
  lemma TakeOut(d: Definition, armed: Armed, keys: set<Node>, n: Node)
    requires InTree(d, n)
    ensures multiset(TimersOf(d, armed, keys, |d.nodes|)) ==
              multiset(TimersOf(d, armed, keys - {n}, |d.nodes|)) + multiset(TimersAt(d, armed, keys, n))
  {
    forall x: ScheduledTimer
      ensures multiset(TimersOf(d, armed, keys, |d.nodes|))[x] ==
                multiset(TimersOf(d, armed, keys - {n}, |d.nodes|))[x] + multiset(TimersAt(d, armed, keys, n))[x]
    {
      TakeOutCount(d, armed, keys, keys - {n}, n, |d.nodes|, x);
      assert CountIn(d, armed, keys, |d.nodes|, x)
             == CountIn(d, armed, keys - {n}, |d.nodes|, x) + CountAt(d, armed, keys, n, x);
    }
  }

  lemma MultisetConcat<T>(a: seq<T>, b: seq<T>)
    ensures multiset(a + b) == multiset(a) + multiset(b)
  {
  }

  lemma {:induction false} SameTimers(d: Definition, a: Armed, b: Armed, ka: set<Node>, kb: set<Node>, k: nat)
    requires k <= |d.nodes|
    requires forall n: Node | n < k :: (n in ka && n in a) <==> (n in kb && n in b)
    requires forall n: Node | n < k && n in ka && n in a :: a[n] == b[n]
    ensures TimersOf(d, a, ka, k) == TimersOf(d, b, kb, k)
  {
    if k == 0 {
    } else {
      SameTimers(d, a, b, ka, kb, k - 1);
    }
  }

  /** Each active state holds the timers of its latest entry, and if `once` nothing else;
      inactive states hold none. */
  ghost predicate TimersMatch(d: Definition, cfg: set<Node>, armed: Armed, once: bool)
  {
    && (forall n | n in armed :: InTree(d, n) && n in cfg)
    && (forall n | n in cfg && InTree(d, n) :: HoldsTimers(d, armed, n, once))
  }

  function Held(armed: Armed, n: Node): seq<ArmedTimer> { if n in armed then armed[n] else [] }

  /** The latest timers of n are one per `after` edge, in order. */
  predicate HoldsTimers(d: Definition, armed: Armed, n: Node, once: bool)
    requires InTree(d, n)
  {
    var edges, arms := AfterEdges(d.nodes[n].transitions), Held(armed, n);
    && |edges| <= |arms| && (once ==> |arms| == |edges|)
    && forall i | 0 <= i < |edges| :: arms[|arms| - |edges| + i].descriptor == edges[i].event
  }

  /** The handles held in the table. */
  function LiveIds(armed: Armed): set<nat>
  {
    set n, i | n in armed && 0 <= i < |armed[n]| :: armed[n][i].id
  }

  ghost predicate DistinctIds(armed: Armed)
  {
    forall m, n, i, j | m in armed && n in armed && 0 <= i < |armed[m]| && 0 <= j < |armed[n]| &&
      armed[m][i].id == armed[n][j].id :: m == n && i == j
  }

  function IdsOf(arms: seq<ArmedTimer>): set<nat> { set i | 0 <= i < |arms| :: arms[i].id }

  /** Every timer ever scheduled is in the table or was cancelled, never both. */
  ghost predicate Accounted(armed: Armed, nextId: nat, cancelled: set<nat>)
  {
    && DistinctIds(armed)
    && LiveIds(armed) !! cancelled
    && forall id: nat :: id < nextId <==> id in LiveIds(armed) || id in cancelled
  }

  lemma RemoveKey(armed: Armed, n: Node, nextId: nat, cancelled: set<nat>)
    requires Accounted(armed, nextId, cancelled)
    ensures n in armed ==> Accounted(armed - {n}, nextId, cancelled + IdsOf(armed[n]))
  {
    if n in armed {
      var rest := armed - {n};
      forall id | id in LiveIds(armed) ensures id in LiveIds(rest) || id in IdsOf(armed[n]) {
        var m, i :| m in armed && 0 <= i < |armed[m]| && armed[m][i].id == id;
        if m != n { assert m in rest && rest[m][i].id == id; }
      }
      forall id | id in LiveIds(rest) ensures id in LiveIds(armed) && id !in IdsOf(armed[n]) {
        var m, i :| m in rest && 0 <= i < |rest[m]| && rest[m][i].id == id;
        assert m in armed && armed[m][i].id == id;
      }
      forall id | id in IdsOf(armed[n]) ensures id in LiveIds(armed) { }
    }
  }

  lemma AddKey(armed: Armed, n: Node, arms: seq<ArmedTimer>, nextId: nat, cancelled: set<nat>)
    requires Accounted(armed, nextId, cancelled)
    requires forall i | 0 <= i < |arms| :: arms[i].id == nextId + i
    ensures Accounted(armed[n := Held(armed, n) + arms], nextId + |arms|, cancelled)
  {
    var more := armed[n := Held(armed, n) + arms];
    AddKeyLive(armed, n, arms, nextId);
    AddKeyDistinct(armed, n, arms, nextId);
    assert LiveIds(more) !! cancelled;
  }

  lemma AddKeyLive(armed: Armed, n: Node, arms: seq<ArmedTimer>, nextId: nat)
    requires forall i | 0 <= i < |arms| :: arms[i].id == nextId + i
    ensures var more := armed[n := Held(armed, n) + arms];
            forall id: nat :: id in LiveIds(more) <==> id in LiveIds(armed) || nextId <= id < nextId + |arms|
  {
    var more, k := armed[n := Held(armed, n) + arms], |Held(armed, n)|;
    forall id | id in LiveIds(armed) ensures id in LiveIds(more) {
      var m, i :| m in armed && 0 <= i < |armed[m]| && armed[m][i].id == id;
      assert m in more && more[m][i].id == id;
    }
    forall id: nat | nextId <= id < nextId + |arms| ensures id in LiveIds(more) {
      assert n in more && more[n][k + id - nextId].id == id;
    }
    forall id | id in LiveIds(more) ensures id in LiveIds(armed) || nextId <= id < nextId + |arms| {
      var m, i :| m in more && 0 <= i < |more[m]| && more[m][i].id == id;
      if m != n || i < k { assert m in armed && armed[m][i].id == id; }
    }
  }

  lemma AddKeyDistinct(armed: Armed, n: Node, arms: seq<ArmedTimer>, nextId: nat)
    requires DistinctIds(armed) && forall id: nat | id in LiveIds(armed) :: id < nextId
    requires forall i | 0 <= i < |arms| :: arms[i].id == nextId + i
    ensures DistinctIds(armed[n := Held(armed, n) + arms])
  {
    var more: Armed, k := armed[n := Held(armed, n) + arms], |Held(armed, n)|;
    forall a, b, i, j | a in more && b in more && 0 <= i < |more[a]| && 0 <= j < |more[b]|
      && more[a][i].id == more[b][j].id
      ensures a == b && i == j
    {
      if a != n || i < k { assert a in armed && armed[a][i].id in LiveIds(armed); }
      if b != n || j < k { assert b in armed && armed[b][j].id in LiveIds(armed); }
    }
  }

  // ------------------------------------------------------------------ two clock readings

  lemma {:induction false} PlanOfAt(id: string, delays: map<string, int>, now: int, later: int, ts: seq<Transition>)
    ensures |PlanOf(id, delays, now, ts)| == |PlanOf(id, delays, later, ts)|
    ensures forall i | 0 <= i < |PlanOf(id, delays, now, ts)| ::
              PlanOf(id, delays, later, ts)[i].deadline - later == PlanOf(id, delays, now, ts)[i].deadline - now
  {
    if ts == [] {
    } else {
      PlanOfAt(id, delays, now, later, ts[1..]);
    }
  }

  lemma {:induction false} EntryTimersAt(d: Definition, delays: map<string, int>, now: int, later: int,
                                         entered: seq<Node>)
    requires AllInTree(d, entered)
    ensures |EntryTimers(d, delays, now, entered)| == |EntryTimers(d, delays, later, entered)|
    ensures forall i | 0 <= i < |EntryTimers(d, delays, now, entered)| ::
              EntryTimers(d, delays, later, entered)[i].deadline - later
                == EntryTimers(d, delays, now, entered)[i].deadline - now
  {
    if entered == [] {
    } else {
      assert entered[0] in entered;
      PlanOfAt(d.nodes[entered[0]].id, delays, now, later, d.nodes[entered[0]].transitions);
      EntryTimersAt(d, delays, now, later, entered[1..]);
    }
  }

  lemma {:induction false} LatestTimer(q: seq<ScheduledTimer>) returns (m: nat)
    requires q != []
    ensures m < |q| && forall i | 0 <= i < |q| :: q[i].deadline <= q[m].deadline
  {
    if |q| == 1 {
      m := 0;
    } else {
      var k := LatestTimer(q[1..]);
      m := if q[0].deadline <= q[1..][k].deadline then k + 1 else 0;
    }
  }

  /** Planning and arming read the clock separately.  They agree exactly when both readings
      are the same or nothing entered has an `after` edge. */
  lemma PlanMatchesArmIff(d: Definition, delays: map<string, int>, planned: int, actual: int, entered: seq<Node>)
    requires AllInTree(d, entered)
    ensures multiset(EntryTimers(d, delays, planned, entered)) == multiset(EntryTimers(d, delays, actual, entered))
       <==> planned == actual || EntryTimers(d, delays, planned, entered) == []
  {
    var p, a := EntryTimers(d, delays, planned, entered), EntryTimers(d, delays, actual, entered);
    EntryTimersAt(d, delays, planned, actual, entered);
    if planned != actual && p != [] {
      if planned < actual { LaterMissing(p, a, actual - planned); } else { LaterMissing(a, p, planned - actual); }
    }
  }

  /** Shifting all deadlines by a positive amount yields a deadline later than any before. */
  lemma LaterMissing(q: seq<ScheduledTimer>, r: seq<ScheduledTimer>, shift: int)
    requires q != [] && |q| == |r| && shift > 0
    requires forall i | 0 <= i < |q| :: r[i].deadline == q[i].deadline + shift
    ensures multiset(q) != multiset(r)
  {
    var m := LatestTimer(q);
    assert r[m] in multiset(r) && r[m] !in q;
  }

  // ------------------------------------------------------------------ the loops of machine.go

  /** The timers that survive the exit of some states. */
  function Surviving(d: Definition, armed: Armed, exited: set<Node>): multiset<ScheduledTimer>
  {
    multiset(TimersOf(d, armed, armed.Keys - exited, |d.nodes|))
  }

  /** machine.go: plannedPending. */
  method PlannedPending(d: Definition, delays: map<string, int>, armed: Armed, exited: seq<Node>, entered: seq<Node>,
                        now: int)
    returns (out: seq<ScheduledTimer>)
    requires AllInTree(d, entered) && forall n | n in armed :: InTree(d, n)
    ensures multiset(out) == Surviving(d, armed, Members(exited)) + multiset(EntryTimers(d, delays, now, entered))
  {
    var kept := PlannedSurvivors(d, armed, Members(exited));
    var more := PlannedEntries(d, delays, entered, now);
    MultisetConcat(kept, more);
    out := kept + more;
  }

  /** The table is visited in no particular order. */
  method PlannedSurvivors(d: Definition, armed: Armed, exited: set<Node>) returns (out: seq<ScheduledTimer>)
    requires forall n | n in armed :: InTree(d, n)
    ensures multiset(out) == Surviving(d, armed, exited)
  {
    out := [];
    var todo := armed.Keys;
    hide TimersOf, TimersAt;
    while todo != {}
      invariant todo <= armed.Keys
      invariant multiset(out) + multiset(TimersOf(d, armed, todo - exited, |d.nodes|)) == Surviving(d, armed, exited)
      decreases todo
    {
      var n :| n in todo;
      ghost var kept := todo - exited;
      todo := todo - {n};
      if n in exited {
        assert todo - exited == kept;
      } else {
        TakeOutArmed(d, armed, kept, n, out);
        assert todo - exited == kept - {n};
        out := out + Describe(d.nodes[n].id, armed[n]);
      }
    }
    assert todo - exited == {};
    NoTimers(d, armed, |d.nodes|);
  }

  lemma TakeOutArmed(d: Definition, armed: Armed, keys: set<Node>, n: Node, out: seq<ScheduledTimer>)
    requires InTree(d, n) && n in keys && n in armed
    ensures multiset(out) + multiset(TimersOf(d, armed, keys, |d.nodes|))
         == multiset(out + Describe(d.nodes[n].id, armed[n])) + multiset(TimersOf(d, armed, keys - {n}, |d.nodes|))
  {
    TakeOut(d, armed, keys, n);
    MultisetConcat(out, Describe(d.nodes[n].id, armed[n]));
  }

  method PlannedEntries(d: Definition, delays: map<string, int>, entered: seq<Node>, now: int)
    returns (out: seq<ScheduledTimer>)
    requires AllInTree(d, entered)
    ensures out == EntryTimers(d, delays, now, entered)
  {
    out := [];
    for i := 0 to |entered|
      invariant AllInTree(d, entered[i..])
      invariant EntryTimers(d, delays, now, entered) == out + EntryTimers(d, delays, now, entered[i..])
    {
      var n := entered[i];
      assert n in entered && entered[i..][1..] == entered[i + 1..];
      ghost var rest := EntryTimers(d, delays, now, entered[i + 1..]);
      var more := PlanFor(d.nodes[n].id, d.nodes[n].transitions, delays, now);
      assert out + (more + rest) == (out + more) + rest;
      out := out + more;
    }
  }

  lemma {:induction false} NoTimers(d: Definition, armed: Armed, k: nat)
    requires k <= |d.nodes|
    ensures TimersOf(d, armed, {}, k) == []
  {
    if k == 0 {
    } else {
      NoTimers(d, armed, k - 1);
    }
  }

  method PlanFor(id: string, ts: seq<Transition>, delays: map<string, int>, now: int) returns (out: seq<ScheduledTimer>)
    ensures out == PlanOf(id, delays, now, ts)
  {
    out := [];
    for i := 0 to |ts|
      invariant PlanOf(id, delays, now, ts) == out + PlanOf(id, delays, now, ts[i..])
    {
      ghost var rest := PlanOf(id, delays, now, ts[i + 1..]);
      assert ts[i..][1..] == ts[i + 1..];
      if !ts[i].isAfter { continue; }
      var timer := ScheduledTimer(id, ts[i].event, now + ResolveDelay(delays, ts[i].delay));
      assert out + ([timer] + rest) == (out + [timer]) + rest;
      out := out + [timer];
    }
  }

  /** What a snapshot shows of a state's timers is the plan, whatever the handles are. */
  lemma {:induction false} DescribePlan(id: string, delays: map<string, int>, now: int, ts: seq<Transition>,
                                        firstId: nat)
    ensures Describe(id, TimersFor(delays, now, AfterEdges(ts), firstId)) == PlanOf(id, delays, now, ts)
  {
    if ts == [] {
    } else {
      PlanUnfold(id, delays, now, ts, firstId);
      hide *;
      DescribePlan(id, delays, now, ts[1..], if ts[0].isAfter then firstId + 1 else firstId);
    }
  }

  lemma PlanUnfold(id: string, delays: map<string, int>, now: int, ts: seq<Transition>, firstId: nat)
    requires ts != []
    ensures var rest := AfterEdges(ts[1..]); var here :=
            ScheduledTimer(id, ts[0].event, now + ResolveDelay(delays, ts[0].delay));
            if ts[0].isAfter then
              && PlanOf(id, delays, now, ts) == [here] + PlanOf(id, delays, now, ts[1..])
              && Describe(id, TimersFor(delays, now, AfterEdges(ts), firstId))
                == [here] + Describe(id, TimersFor(delays, now, rest, firstId + 1))
            else
              && PlanOf(id, delays, now, ts) == PlanOf(id, delays, now, ts[1..])
              && AfterEdges(ts) == rest
  {
    var rest := AfterEdges(ts[1..]);
    if ts[0].isAfter {
      assert AfterEdges(ts)[1..] == rest;
      var tail := TimersFor(delays, now, rest, firstId + 1);
      assert TimersFor(delays, now, AfterEdges(ts), firstId)[1..] == tail;
    }
  }

  lemma {:induction false} DescribeAppend(id: string, a: seq<ArmedTimer>, b: seq<ArmedTimer>)
    ensures Describe(id, a + b) == Describe(id, a) + Describe(id, b)
  {
    if a == [] {
      assert a + b == b;
    } else {
      assert (a + b)[1..] == a[1..] + b;
      DescribeAppend(id, a[1..], b);
    }
  }

  /** Arming a state adds exactly the new timers to the table, whatever it holds already. */
  lemma AddToTable(d: Definition, armed: Armed, n: Node, arms: seq<ArmedTimer>)
    requires InTree(d, n)
    ensures Table(d, armed[n := Held(armed, n) + arms]) == Table(d, armed) + multiset(Describe(d.nodes[n].id, arms))
  {
    var id, more := d.nodes[n].id, armed[n := Held(armed, n) + arms];
    TakeOut(d, more, more.Keys, n);
    TakeOut(d, armed, armed.Keys, n);
    SameTimers(d, more, armed, more.Keys - {n}, armed.Keys - {n}, |d.nodes|);
    DescribeAppend(id, Held(armed, n), arms);
    MultisetConcat(Describe(id, Held(armed, n)), Describe(id, arms));
  }

  /** Removing the exited states leaves the surviving timers. */
  lemma RemoveFromTable(d: Definition, armed: Armed, exited: set<Node>)
    ensures Table(d, armed - exited) == Surviving(d, armed, exited)
  {
    SameTimers(d, armed - exited, armed, (armed - exited).Keys, armed.Keys - exited, |d.nodes|);
  }

  // ------------------------------------------------------------------ arming

  /** One state's timers with their handles, in edge order. */
  method BuildTimers(ts: seq<Transition>, delays: map<string, int>, now: int, firstId: nat)
    returns (arms: seq<ArmedTimer>)
    ensures arms == TimersFor(delays, now, AfterEdges(ts), firstId)
  {
    hide TimersFor, AfterEdges, ResolveDelay;
    arms := [];
    AfterEdgesEnds(ts);
    for i := 0 to |ts|
      invariant TimersFor(delays, now, AfterEdges(ts), firstId)
             == arms + TimersFor(delays, now, AfterEdges(ts[i..]), firstId + |arms|)
    {
      AfterEdgesStep(ts, i);
      if !ts[i].isAfter { continue; }
      var timer := ArmedTimer(firstId + |arms|, ts[i].event, now + ResolveDelay(delays, ts[i].delay));
      TimersStep(delays, now, ts[i], AfterEdges(ts[i + 1..]), firstId + |arms|, arms);
      arms := arms + [timer];
    }
    TimersEnd(delays, now, firstId + |arms|);
  }

  lemma AfterEdgesEnds(ts: seq<Transition>)
    ensures ts[0..] == ts && AfterEdges(ts[|ts|..]) == []
  {
  }

  lemma TimersEnd(delays: map<string, int>, now: int, k: nat)
    ensures TimersFor(delays, now, [], k) == []
  {
  }

  lemma AfterEdgesStep(ts: seq<Transition>, i: nat)
    requires i < |ts|
    ensures AfterEdges(ts[i..]) == (if ts[i].isAfter then [ts[i]] else []) + AfterEdges(ts[i + 1..])
    ensures !ts[i].isAfter ==> AfterEdges(ts[i..]) == AfterEdges(ts[i + 1..])
  {
    assert ts[i..][1..] == ts[i + 1..];
  }

  lemma TimersStep(delays: map<string, int>, now: int, t: Transition, rest: seq<Transition>, k: nat,
                   cur: seq<ArmedTimer>)
    ensures var timer := ArmedTimer(k, t.event, now + ResolveDelay(delays, t.delay));
            cur + TimersFor(delays, now, [t] + rest, k) == (cur + [timer]) + TimersFor(delays, now, rest, k + 1)
  {
    assert ([t] + rest)[1..] == rest;
  }

  /** The table and the next handle after arming the entered states one by one. */
  function ArmAll(d: Definition, delays: map<string, int>, now: int, entered: seq<Node>, armed: Armed,
                  next: nat): (Armed, nat)
    requires AllInTree(d, entered)
  {
    if entered == [] then (armed, next)
    else
      var n := entered[0];
      assert n in entered;
      var arms := TimersFor(delays, now, AfterEdges(d.nodes[n].transitions), next);
      ArmAll(d, delays, now, entered[1..],
             if arms == [] then armed else armed[n := Held(armed, n) + arms], next + |arms|)
  }

  lemma HoldsSame(d: Definition, a: Armed, b: Armed, n: Node, once: bool)
    requires InTree(d, n) && HoldsTimers(d, a, n, once) && Held(a, n) == Held(b, n)
    ensures HoldsTimers(d, b, n, once)
  {
  }

  function ArmOne(d: Definition, delays: map<string, int>, now: int, n: Node, armed: Armed, next: nat): Armed
    requires InTree(d, n)
  {
    var arms := TimersFor(delays, now, AfterEdges(d.nodes[n].transitions), next);
    if arms == [] then armed else armed[n := Held(armed, n) + arms]
  }

  function NextAfter(d: Definition, n: Node, next: nat): nat
    requires InTree(d, n)
  {
    next + |AfterEdges(d.nodes[n].transitions)|
  }

  lemma ArmAllUnfold(d: Definition, delays: map<string, int>, now: int, entered: seq<Node>, armed: Armed, next: nat)
    requires AllInTree(d, entered) && entered != []
    ensures AllInTree(d, entered[1..]) && InTree(d, entered[0])
    ensures ArmAll(d, delays, now, entered, armed, next)
         == ArmAll(d, delays, now, entered[1..],
                   ArmOne(d, delays, now, entered[0], armed, next), NextAfter(d, entered[0], next))
  {
    hide EntryTimers, Describe, PlanOf, AfterEdges, TimersFor, ResolveDelay;
    var n := entered[0];
    assert n in entered && forall m | m in entered[1..] :: m in entered;
    TimersForMeaning(delays, now, AfterEdges(d.nodes[n].transitions), next);
  }

  lemma ArmAllStep(d: Definition, delays: map<string, int>, now: int, entered: seq<Node>, armed: Armed, next: nat)
    requires AllInTree(d, entered) && entered != []
    ensures AllInTree(d, entered[1..]) && InTree(d, entered[0])
    ensures ArmAll(d, delays, now, entered, armed, next)
         == ArmAll(d, delays, now, entered[1..],
                   ArmOne(d, delays, now, entered[0], armed, next), NextAfter(d, entered[0], next))
    ensures multiset(EntryTimers(d, delays, now, entered))
         == multiset(PlanOf(d.nodes[entered[0]].id, delays, now, d.nodes[entered[0]].transitions))
           + multiset(EntryTimers(d, delays, now, entered[1..]))
  {
    var n := entered[0];
    assert n in entered && forall m | m in entered[1..] :: m in entered;
    ArmAllUnfold(d, delays, now, entered, armed, next);
    hide ArmAll;
    MultisetConcat(PlanOf(d.nodes[n].id, delays, now, d.nodes[n].transitions),
                   EntryTimers(d, delays, now, entered[1..]));
  }

  /** Arming touches only the entered states, and they end up holding the timers of this
      entry, and nothing else if they held none. */
  lemma {:induction false} ArmAllHolds(d: Definition, delays: map<string, int>, now: int, entered: seq<Node>,
                                       armed: Armed, next: nat, once: bool)
    requires AllInTree(d, entered) && StrictlyAscending(entered)
    requires once ==> forall n | n in entered :: n !in armed
    ensures var armed' := ArmAll(d, delays, now, entered, armed, next).0;
            && (forall n | n in armed' :: n in armed || n in entered)
            && (forall n | n !in entered :: Held(armed', n) == Held(armed, n))
            && (forall n | n in entered :: HoldsTimers(d, armed', n, once))
  {
    hide ArmAll, ArmOne, HoldsTimers, NextAfter, Held;
    if entered == [] {
      ArmNone(d, delays, now, armed, next);
    } else {
      var n, rest := entered[0], entered[1..];
      ArmAllUnfold(d, delays, now, entered, armed, next);
      var armed1 := ArmOne(d, delays, now, n, armed, next);
      var armed' := ArmAll(d, delays, now, entered, armed, next).0;
      assert entered == [n] + rest;
      assert forall m | m in rest :: m in entered && m != n;
      ArmOneHolds(d, delays, now, n, armed, next, once);
      ArmAllHolds(d, delays, now, rest, armed1, NextAfter(d, n, next), once);
      HoldsSame(d, armed1, armed', n, once);
    }
  }

  lemma ArmNone(d: Definition, delays: map<string, int>, now: int, armed: Armed, next: nat)
    ensures ArmAll(d, delays, now, [], armed, next) == (armed, next)
  {
  }

  lemma ArmOneHolds(d: Definition, delays: map<string, int>, now: int, n: Node, armed: Armed, next: nat, once: bool)
    requires InTree(d, n) && (once ==> n !in armed)
    ensures var armed' := ArmOne(d, delays, now, n, armed, next);
            && (forall m | m in armed' :: m in armed || m == n)
            && (forall m | m != n :: Held(armed', m) == Held(armed, m))
            && HoldsTimers(d, armed', n, once)
  {
    hide TimersFor, AfterEdges, ResolveDelay, HoldsTimers;
    var edges := AfterEdges(d.nodes[n].transitions);
    TimersForMeaning(delays, now, edges, next);
    LatestHeld(d, ArmOne(d, delays, now, n, armed, next), n, Held(armed, n), TimersFor(delays, now, edges, next), once);
  }

  /** The timers held last are the latest ones. */
  lemma LatestHeld(d: Definition, armed: Armed, n: Node, before: seq<ArmedTimer>, arms: seq<ArmedTimer>, once: bool)
    requires InTree(d, n) && Held(armed, n) == before + arms && (once ==> before == [])
    requires var edges := AfterEdges(d.nodes[n].transitions);
             |arms| == |edges| && forall i | 0 <= i < |edges| :: arms[i].descriptor == edges[i].event
    ensures HoldsTimers(d, armed, n, once)
  {
    hide AfterEdges, Held;
  }

  /** Arming the entered states: their plan joins the table and every handle is accounted
      for. */
  lemma {:induction false} ArmAllTable(d: Definition, delays: map<string, int>, now: int, entered: seq<Node>,
                                       armed: Armed, next: nat, cancelled: set<nat>)
    requires AllInTree(d, entered) && Accounted(armed, next, cancelled)
    ensures var (armed', next') := ArmAll(d, delays, now, entered, armed, next);
            && Accounted(armed', next', cancelled)
            && Table(d, armed') == Table(d, armed) + multiset(EntryTimers(d, delays, now, entered))
  {
    hide Accounted, Table, ArmAll, ArmOne, NextAfter, EntryTimers, PlanOf;
    if entered == [] {
      ArmNone(d, delays, now, armed, next);
      NoEntryTimers(d, delays, now);
    } else {
      var n, rest := entered[0], entered[1..];
      ArmAllStep(d, delays, now, entered, armed, next);
      ArmedOne(d, delays, now, armed, n, next, cancelled);
      ArmAllTable(d, delays, now, rest, ArmOne(d, delays, now, n, armed, next), NextAfter(d, n, next), cancelled);
    }
  }

  lemma {:induction false} ArmAllGrows(d: Definition, delays: map<string, int>, now: int, entered: seq<Node>,
                                       armed: Armed, next: nat)
    requires AllInTree(d, entered)
    ensures next <= ArmAll(d, delays, now, entered, armed, next).1
    decreases |entered|
  {
    hide ArmAll, ArmOne;
    if entered == [] {
      ArmNone(d, delays, now, armed, next);
    } else {
      ArmAllUnfold(d, delays, now, entered, armed, next);
      ArmAllGrows(d, delays, now, entered[1..],
                  ArmOne(d, delays, now, entered[0], armed, next), NextAfter(d, entered[0], next));
    }
  }

  lemma NoEntryTimers(d: Definition, delays: map<string, int>, now: int)
    ensures EntryTimers(d, delays, now, []) == []
  {
  }

  /** Arming one state: its handles are accounted for and its plan joins the table. */
  lemma ArmedOne(d: Definition, delays: map<string, int>, now: int, was: Armed, n: Node, first: nat,
                 cancelled: set<nat>)
    requires InTree(d, n) && Accounted(was, first, cancelled)
    ensures var armed := ArmOne(d, delays, now, n, was, first);
            && Accounted(armed, NextAfter(d, n, first), cancelled)
            && Table(d, armed) == Table(d, was) + multiset(PlanOf(d.nodes[n].id, delays, now, d.nodes[n].transitions))
  {
    var node := d.nodes[n];
    var edges := AfterEdges(node.transitions);
    var arms := TimersFor(delays, now, edges, first);
    DescribePlan(node.id, delays, now, node.transitions, first);
    TimersForMeaning(delays, now, edges, first);
    if arms != [] {
      AddKey(was, n, arms, first, cancelled);
      AddToTable(d, was, n, arms);
    }
  }
}
