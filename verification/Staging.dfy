/** Staging a microstep (microstep.go, apply): actions folded in exit, transition, entry
    order, completion events, and the new configuration and history, all on copies. */
module Staging {
  import opened Definitions
  import opened Configurations
  import opened Entry
  import opened Selection
  import opened Microsteps
  import opened Histories

  // ------------------------------------------------------------------ actions

  /** The accumulator of one microstep: pending context and outbox. */
  datatype Pending = Pending(ctx: Ctx, effects: seq<Effect>)

  function RunAction(b: Behavior, evt: Payload, a: ActionRef, st: Pending): Pending
  {
    var eff := b.applyAction(a.callsite, st.ctx, evt);
    match eff
    case Assign(ctx) => st.(ctx := ctx)
    case Send(_, _) => st.(effects := st.effects + [eff])
    case Spawn(_) => st.(effects := st.effects + [eff])
    case Noop => st
  }

  function RunActions(b: Behavior, evt: Payload, acts: seq<ActionRef>, st: Pending): Pending
  {
    if acts == [] then st else RunActions(b, evt, acts[1..], RunAction(b, evt, acts[0], st))
  }

  lemma {:induction false} RunActionsConcat(b: Behavior, evt: Payload, p: seq<ActionRef>, q: seq<ActionRef>,
                                            st: Pending)
    ensures RunActions(b, evt, p + q, st) == RunActions(b, evt, q, RunActions(b, evt, p, st))
  {
    if p == [] {
      assert p + q == q;
    } else {
      assert (p + q)[1..] == p[1..] + q && (p + q)[0] == p[0];
      RunActionsConcat(b, evt, p[1..], q, RunAction(b, evt, p[0], st));
    }
  }

  predicate AllInTree(d: Definition, q: seq<Node>) { forall n | n in q :: InTree(d, n) }

  function ExitActions(d: Definition, q: seq<Node>): seq<ActionRef>
    requires AllInTree(d, q)
  {
    if q == [] then [] else assert q[0] in q; d.nodes[q[0]].exit + ExitActions(d, q[1..])
  }

  function EntryActions(d: Definition, q: seq<Node>): seq<ActionRef>
    requires AllInTree(d, q)
  {
    if q == [] then [] else assert q[0] in q; d.nodes[q[0]].entry + EntryActions(d, q[1..])
  }

  function TransitionActions(ts: seq<Transition>): seq<ActionRef>
  {
    if ts == [] then [] else ts[0].actions + TransitionActions(ts[1..])
  }

  /** All actions of a microstep in the order in which they run. */
  function ActionOrder(d: Definition, exits: seq<Node>, ts: seq<Transition>, entered: seq<Node>): seq<ActionRef>
    requires AllInTree(d, exits) && AllInTree(d, entered)
  {
    ExitActions(d, exits) + TransitionActions(ts) + EntryActions(d, entered)
  }

  // ------------------------------------------------------------------ the order of actions

  /** What one action does: an assignment replaces the context, a send or spawn goes behind the
      others in the outbox. */
  predicate Acts(b: Behavior, evt: Payload, callsite: int, from: Pending, to: Pending)
  {
    match b.applyAction(callsite, from.ctx, evt)
    case Assign(ctx) => to.ctx == ctx && to.effects == from.effects
    case Noop => to == from
    case Send(target, event) => to.ctx == from.ctx && to.effects == from.effects + [Send(target, event)]
    case Spawn(target) => to.ctx == from.ctx && to.effects == from.effects + [Spawn(target)]
  }

  /** The trace of running these callsites one after the other. */
  ghost predicate Traced(b: Behavior, evt: Payload, calls: seq<int>, trace: seq<Pending>)
  {
    |trace| == |calls| + 1 && forall i | 0 <= i < |calls| :: Acts(b, evt, calls[i], trace[i], trace[i + 1])
  }

  /** Running the callsites in this order, each once, leads from one to the other. */
  ghost predicate RunsTo(b: Behavior, evt: Payload, calls: seq<int>, from: Pending, to: Pending)
  {
    exists trace :: Traced(b, evt, calls, trace) && trace[0] == from && trace[|calls|] == to
  }

  function CallsOf(acts: seq<ActionRef>): seq<int>
  {
    seq(|acts|, i requires 0 <= i < |acts| => acts[i].callsite)
  }

  /** The lists one after the other. */
  function Flat(parts: seq<seq<int>>): seq<int>
  {
    if parts == [] then [] else Flat(parts[..|parts| - 1]) + parts[|parts| - 1]
  }

  lemma {:induction false} FlatFirst(parts: seq<seq<int>>)
    requires parts != []
    ensures Flat(parts) == parts[0] + Flat(parts[1..])
    decreases |parts|
  {
    if |parts| == 1 {
    } else {
      var last := |parts| - 1;
      var tail, front := parts[1..], parts[..last];
      assert front[1..] == tail[..last - 1] && tail[last - 1] == parts[last] && |tail| == last && front[0] == parts[0];
      calc {
        Flat(parts);
        Flat(front) + parts[last];
        { FlatFirst(front); }
        (parts[0] + Flat(front[1..])) + parts[last];
        parts[0] + (Flat(tail[..last - 1]) + tail[last - 1]);
        parts[0] + Flat(tail);
      }
    }
  }

  function ExitCalls(d: Definition, q: seq<Node>): seq<seq<int>>
    requires AllInTree(d, q)
  {
    seq(|q|, i requires 0 <= i < |q| => assert q[i] in q; CallsOf(d.nodes[q[i]].exit))
  }

  function EntryCalls(d: Definition, q: seq<Node>): seq<seq<int>>
    requires AllInTree(d, q)
  {
    seq(|q|, i requires 0 <= i < |q| => assert q[i] in q; CallsOf(d.nodes[q[i]].entry))
  }

  function TransitionCalls(ts: seq<Transition>): seq<seq<int>>
  {
    seq(|ts|, i requires 0 <= i < |ts| => CallsOf(ts[i].actions))
  }

  lemma CallsJoin(a: seq<ActionRef>, b: seq<ActionRef>)
    ensures CallsOf(a + b) == CallsOf(a) + CallsOf(b)
  {
  }

  lemma {:induction false} ExitCallsAre(d: Definition, q: seq<Node>)
    requires AllInTree(d, q)
    ensures CallsOf(ExitActions(d, q)) == Flat(ExitCalls(d, q))
  {
    if q == [] {
    } else {
      assert q[0] in q && forall n | n in q[1..] :: n in q;
      ExitCallsAre(d, q[1..]);
      FlatFirst(ExitCalls(d, q));
      assert ExitCalls(d, q)[1..] == ExitCalls(d, q[1..]);
      CallsJoin(d.nodes[q[0]].exit, ExitActions(d, q[1..]));
    }
  }

  lemma {:induction false} EntryCallsAre(d: Definition, q: seq<Node>)
    requires AllInTree(d, q)
    ensures CallsOf(EntryActions(d, q)) == Flat(EntryCalls(d, q))
  {
    if q == [] {
    } else {
      assert q[0] in q && forall n | n in q[1..] :: n in q;
      EntryCallsAre(d, q[1..]);
      FlatFirst(EntryCalls(d, q));
      assert EntryCalls(d, q)[1..] == EntryCalls(d, q[1..]);
      CallsJoin(d.nodes[q[0]].entry, EntryActions(d, q[1..]));
    }
  }

  lemma {:induction false} TransitionCallsAre(ts: seq<Transition>)
    ensures CallsOf(TransitionActions(ts)) == Flat(TransitionCalls(ts))
  {
    if ts == [] {
    } else {
      TransitionCallsAre(ts[1..]);
      FlatFirst(TransitionCalls(ts));
      assert TransitionCalls(ts)[1..] == TransitionCalls(ts[1..]);
      CallsJoin(ts[0].actions, TransitionActions(ts[1..]));
    }
  }

  lemma {:induction false} RunActionsTraced(b: Behavior, evt: Payload, acts: seq<ActionRef>, st: Pending)
    returns (trace: seq<Pending>)
    ensures Traced(b, evt, CallsOf(acts), trace) && trace[0] == st && trace[|acts|] == RunActions(b, evt, acts, st)
  {
    if acts == [] {
      trace := [st];
    } else {
      var rest := RunActionsTraced(b, evt, acts[1..], RunAction(b, evt, acts[0], st));
      trace := [st] + rest;
      forall i | 0 <= i < |acts| ensures Acts(b, evt, CallsOf(acts)[i], trace[i], trace[i + 1]) {
        if i > 0 { assert Acts(b, evt, CallsOf(acts[1..])[i - 1], rest[i - 1], rest[i]); }
      }
    }
  }

  /** The exit actions of the exited states in their order, then the actions of the
      transitions, then the entry actions of the entered states in theirs. */
  lemma ActionsInOrder(d: Definition, b: Behavior, evt: Payload, exits: seq<Node>, ts: seq<Transition>,
                       entered: seq<Node>, st: Pending)
    requires AllInTree(d, exits) && AllInTree(d, entered)
    ensures RunsTo(b, evt, Flat(ExitCalls(d, exits)) + Flat(TransitionCalls(ts)) + Flat(EntryCalls(d, entered)), st,
                   RunActions(b, evt, ActionOrder(d, exits, ts, entered), st))
  {
    hide RunActions, Traced, Flat, CallsOf;
    ExitCallsAre(d, exits);
    TransitionCallsAre(ts);
    EntryCallsAre(d, entered);
    CallsJoin(ExitActions(d, exits), TransitionActions(ts));
    CallsJoin(ExitActions(d, exits) + TransitionActions(ts), EntryActions(d, entered));
    var trace := RunActionsTraced(b, evt, ActionOrder(d, exits, ts, entered), st);
    TraceLength(b, evt, CallsOf(ActionOrder(d, exits, ts, entered)), trace, ActionOrder(d, exits, ts, entered));
  }

  lemma TraceLength(b: Behavior, evt: Payload, calls: seq<int>, trace: seq<Pending>, acts: seq<ActionRef>)
    requires calls == CallsOf(acts) && Traced(b, evt, calls, trace)
    ensures |calls| == |acts| && |trace| == |calls| + 1
  {
  }

  /** If every action appends its callsite to the context, the context shows the order. */
  lemma AppendingContext(b: Behavior, evt: Payload, calls: seq<int>, from: Pending, to: Pending,
                         view: Ctx -> seq<int>)
    requires RunsTo(b, evt, calls, from, to)
    requires forall k: int, x: Ctx ::
               var o := b.applyAction(k, x, evt);
               o.Assign? && view(o.ctx) == view(x) + [k]
    ensures view(to.ctx) == view(from.ctx) + calls && to.effects == from.effects
  {
    var trace: seq<Pending> :| Traced(b, evt, calls, trace) && trace[0] == from && trace[|calls|] == to;
    var i := 0;
    while i < |calls|
      invariant i <= |calls|
      invariant view(trace[i].ctx) == view(from.ctx) + calls[..i] && trace[i].effects == from.effects
    {
      assert Acts(b, evt, calls[i], trace[i], trace[i + 1]);
      assert calls[..i + 1] == calls[..i] + [calls[i]];
      i := i + 1;
    }
    assert calls[..|calls|] == calls;
  }

  /** If every action sends, the outbox shows the order and the context stays. */
  lemma SendingEffects(b: Behavior, evt: Payload, calls: seq<int>, from: Pending, to: Pending)
    requires RunsTo(b, evt, calls, from, to)
    requires forall k: int, x: Ctx :: b.applyAction(k, x, evt).Send? || b.applyAction(k, x, evt).Spawn?
    ensures to.ctx == from.ctx && |to.effects| == |from.effects| + |calls| && from.effects <= to.effects
    ensures forall i | 0 <= i < |calls| :: to.effects[|from.effects| + i] == b.applyAction(calls[i], from.ctx, evt)
  {
    var trace: seq<Pending> :| Traced(b, evt, calls, trace) && trace[0] == from && trace[|calls|] == to;
    var i := 0;
    while i < |calls|
      invariant i <= |calls| && trace[i].ctx == from.ctx && from.effects <= trace[i].effects
      invariant |trace[i].effects| == |from.effects| + i
      invariant forall j | 0 <= j < i :: trace[i].effects[|from.effects| + j] == b.applyAction(calls[j], from.ctx, evt)
    {
      assert Acts(b, evt, calls[i], trace[i], trace[i + 1]);
      i := i + 1;
    }
  }

  // ------------------------------------------------------------------ completion

  predicate HasFinalIn(d: Definition, r: Node, cfg: set<Node>)
    requires IsTree(d)
  {
    exists n | n in cfg :: InTree(d, n) && Kind(d, n) == Final && InSubtree(d, n, r)
  }

  /** Every region has an active final in it. */
  predicate AllRegionsFinal(d: Definition, gp: Node, cfg: set<Node>)
    requires IsTree(d) && InTree(d, gp)
  {
    forall r | r in Children(d, gp) :: HasFinalIn(d, r, cfg)
  }

  /** A final child of the root ends the machine; the first test is the code's nil check. */
  predicate EndsMachine(d: Definition, s: Node)
    requires InTree(d, s)
  {
    Kind(d, s) == Final && (Parent(d, s) == None || Parent(d, s) == Some(ROOT))
  }

  /** The states completed by entering s when `stage` is the configuration so far. */
  function CompletedBy(d: Definition, s: Node, stage: set<Node>): seq<Node>
    requires IsTree(d) && InTree(d, s)
  {
    if Kind(d, s) != Final || EndsMachine(d, s) then []
    else
      var p := Parent(d, s).value;
      var gp := Parent(d, p);
      [p] + (if gp.Some? && Kind(d, gp.value) == Parallel && AllRegionsFinal(d, gp.value, stage) then [gp.value]
        else [])
  }

  function Members(q: seq<Node>): set<Node> { set n | n in q }

  /** The states completed while `entered` is added to `base` one by one. */
  function Completed(d: Definition, base: set<Node>, entered: seq<Node>): seq<Node>
    requires IsTree(d) && AllInTree(d, entered)
  {
    if entered == [] then []
    else
      var last := |entered| - 1;
      assert entered[last] in entered;
      Completed(d, base, entered[..last]) + CompletedBy(d, entered[last], base + Members(entered))
  }

  function DoneEvent(d: Definition, n: Node): string
    requires InTree(d, n)
  {
    "done.state." + d.nodes[n].id
  }

  function DoneEvents(d: Definition, q: seq<Node>): seq<string>
  {
    if q == [] then [] else (if InTree(d, q[0]) then [DoneEvent(d, q[0])] else []) + DoneEvents(d, q[1..])
  }

  function ReachesFinal(d: Definition, entered: seq<Node>): bool
    requires AllInTree(d, entered)
  {
    exists s | s in entered :: EndsMachine(d, s)
  }

  function Ids(d: Definition, q: seq<Node>): seq<string>
  {
    if q == [] then [] else (if InTree(d, q[0]) then [d.nodes[q[0]].id] else []) + Ids(d, q[1..])
  }

  // ------------------------------------------------------------------ the staged microstep

  datatype Staged = Staged(
    cfg: set<Node>,
    hist: Hist,
    ctx: Ctx,
    effects: seq<Effect>,
    transitions: seq<Transition>,
    exited: seq<Node>,
    entered: seq<Node>,
    prevActive: seq<string>,
    nextActive: seq<string>,
    triggered: bool,
    reachedFinal: bool,
    internalEnqueue: seq<string>)

  function StageStep(d: Definition, b: Behavior, cfg: set<Node>, ctx: Ctx, hist: Hist,
                     exits: seq<Node>, ts: seq<Transition>, toEnter: set<Node>, evt: Payload, triggered: bool): Staged
    requires IsTree(d) && AllInTree(d, exits) && forall n | n in toEnter :: InTree(d, n)
  {
    AscendingSorted(toEnter, |d.nodes|);
    var entered := Ascending(toEnter, |d.nodes|);
    var out := RunActions(b, evt, ActionOrder(d, exits, ts, entered), Pending(ctx, []));
    var kept := cfg - Members(exits);
    var cfg' := kept + toEnter;
    Staged(cfg', RecordAll(d, cfg, exits, hist), out.ctx, out.effects, ts, exits, entered,
           Ids(d, Leaves(d, cfg)), Ids(d, Leaves(d, cfg')), triggered, ReachesFinal(d, entered),
           DoneEvents(d, Completed(d, kept, entered)))
  }

  /** Exits list descendants before ancestors, entries ancestors before descendants. */
  lemma StagedOrder(d: Definition, cfg: set<Node>, exits: set<Node>, toEnter: set<Node>)
    requires IsTree(d)
    ensures forall i, j | 0 <= i < |Descending(exits, |d.nodes|)| && 0 <= j < |Descending(exits, |d.nodes|)|
              && IsDescendant(d, Descending(exits, |d.nodes|)[i], Descending(exits, |d.nodes|)[j]) :: i < j
    ensures forall i, j | 0 <= i < |Ascending(toEnter, |d.nodes|)| && 0 <= j < |Ascending(toEnter, |d.nodes|)|
              && IsDescendant(d, Ascending(toEnter, |d.nodes|)[i], Ascending(toEnter, |d.nodes|)[j]) :: j < i
  {
    DescendingSorted(exits, |d.nodes|);
    AscendingSorted(toEnter, |d.nodes|);
    var out, inn := Descending(exits, |d.nodes|), Ascending(toEnter, |d.nodes|);
    forall i, j | 0 <= i < |out| && 0 <= j < |out| && IsDescendant(d, out[i], out[j]) ensures i < j {
      DescendantAfter(d, out[i], out[j]);
    }
    forall i, j | 0 <= i < |inn| && 0 <= j < |inn| && IsDescendant(d, inn[i], inn[j]) ensures j < i {
      DescendantAfter(d, inn[i], inn[j]);
    }
  }

  // ------------------------------------------------------------------ completion events

  /** With unique state ids, the number of staged `done.state` events of a state is the
      number of times it was completed. */
  lemma {:induction false} DoneEventsCount(d: Definition, q: seq<Node>, p: Node)
    requires AllInTree(d, q) && InTree(d, p)
    requires forall m: Node, n: Node | InTree(d, m) && InTree(d, n) && d.nodes[m].id == d.nodes[n].id :: m == n
    ensures multiset(DoneEvents(d, q))[DoneEvent(d, p)] == multiset(q)[p]
  {
    if q == [] {
    } else {
      var n := q[0];
      assert n in q && q == [n] + q[1..];
      DoneEventsCount(d, q[1..], p);
      SamePrefix("done.state.", d.nodes[n].id, d.nodes[p].id);
      var rest := DoneEvents(d, q[1..]);
      assert multiset([DoneEvent(d, n)] + rest) == multiset{DoneEvent(d, n)} + multiset(rest);
      assert multiset([n] + q[1..]) == multiset{n} + multiset(q[1..]);
    }
  }

  lemma SamePrefix(prefix: string, a: string, b: string)
    ensures prefix + a == prefix + b <==> a == b
  {
    assert (prefix + a)[|prefix|..] == a && (prefix + b)[|prefix|..] == b;
  }

  // ------------------------------------------------------------------ the loops of apply

  /** A staged microstep as the code holds it: the configuration is an object of its own. */
  datatype Microstep = Microstep(cfg: NodeSet, staged: Staged)

  method RunList(b: Behavior, evt: Payload, acts: seq<ActionRef>, st: Pending) returns (out: Pending)
    ensures out == RunActions(b, evt, acts, st)
  {
    out := st;
    for i := 0 to |acts|
      invariant RunActions(b, evt, acts, st) == RunActions(b, evt, acts[i..], out)
    {
      assert acts[i..][1..] == acts[i + 1..];
      out := RunAction(b, evt, acts[i], out);
    }
  }

  /** microstep.go: the exit loop of apply. */
  method ExitStates(d: Definition, b: Behavior, evt: Payload, live: set<Node>, exits: seq<Node>, hist: Hist,
                    stageCfg: NodeSet, st: Pending)
    returns (stageHist: Hist, out: Pending)
    requires IsTree(d) && AllInTree(d, exits)
    modifies stageCfg
    ensures stageHist == RecordAll(d, live, exits, hist)
    ensures out == RunActions(b, evt, ExitActions(d, exits), st)
    ensures stageCfg.members == old(stageCfg.members) - Members(exits)
  {
    stageHist, out := hist, st;
    for i := 0 to |exits|
      invariant AllInTree(d, exits[i..])
      invariant RecordAll(d, live, exits, hist) == RecordAll(d, live, exits[i..], stageHist)
      invariant RunActions(b, evt, ExitActions(d, exits), st) == RunActions(b, evt, ExitActions(d, exits[i..]), out)
      invariant stageCfg.members == old(stageCfg.members) - Members(exits[..i])
    {
      var s := exits[i];
      assert s in exits && exits[i..][1..] == exits[i + 1..];
      assert exits[..i + 1] == exits[..i] + [s];
      stageHist := RecordHistory(d, s, stageHist, live);
      RunActionsConcat(b, evt, d.nodes[s].exit, ExitActions(d, exits[i + 1..]), out);
      out := RunList(b, evt, d.nodes[s].exit, out);
      stageCfg.Remove(s);
    }
    assert exits[..|exits|] == exits;
  }

  /** microstep.go: the transition loop of apply. */
  method RunTransitions(b: Behavior, evt: Payload, ts: seq<Transition>, st: Pending) returns (out: Pending)
    ensures out == RunActions(b, evt, TransitionActions(ts), st)
  {
    out := st;
    for i := 0 to |ts|
      invariant RunActions(b, evt, TransitionActions(ts), st) == RunActions(b, evt, TransitionActions(ts[i..]), out)
    {
      assert ts[i..][1..] == ts[i + 1..];
      RunActionsConcat(b, evt, ts[i].actions, TransitionActions(ts[i + 1..]), out);
      out := RunList(b, evt, ts[i].actions, out);
    }
  }

  /** microstep.go: allRegionsFinal. */
  method CheckAllRegionsFinal(d: Definition, gp: Node, cfg: NodeSet) returns (r: bool)
    requires IsTree(d) && InTree(d, gp) && forall n | n in cfg.members :: InTree(d, n)
    ensures r == AllRegionsFinal(d, gp, cfg.members)
  {
    var regions := Children(d, gp);
    var all := AllActive(d, cfg.members);
    AscendingSorted(cfg.members, |d.nodes|);
    for i := 0 to |regions|
      invariant forall j | 0 <= j < i :: HasFinalIn(d, regions[j], cfg.members)
    {
      var final := false;
      assert regions[i] in regions;
      for j := 0 to |all|
        invariant !final && forall k | 0 <= k < j ::
                  all[k] in all && !(Kind(d, all[k]) == Final && InSubtree(d, all[k], regions[i]))
      {
        assert all[j] in all;
        var below := CheckDescendant(d, all[j], Some(regions[i]));
        if Kind(d, all[j]) == Final && (all[j] == regions[i] || below) { final := true; break; }
      }
      if !final { return false; }
    }
    return true;
  }

  /** microstep.go: what the entry loop of apply does about a state just entered. */
  method CompleteOne(d: Definition, s: Node, stageCfg: NodeSet) returns (done: seq<Node>, endsMachine: bool)
    requires IsTree(d) && InTree(d, s) && forall n | n in stageCfg.members :: InTree(d, n)
    ensures done == CompletedBy(d, s, stageCfg.members)
    ensures endsMachine == EndsMachine(d, s)
  {
    if Kind(d, s) != Final { return [], false; }
    if Parent(d, s) == None || Parent(d, s) == Some(ROOT) { return [], true; }
    var p := Parent(d, s).value;
    done, endsMachine := [p], false;
    var gp := Parent(d, p);
    if gp.Some? && Kind(d, gp.value) == Parallel {
      var all := CheckAllRegionsFinal(d, gp.value, stageCfg);
      if all { done := done + [gp.value]; }
    }
  }

  /** microstep.go: the entry loop of apply. */
  method EnterStates(d: Definition, b: Behavior, evt: Payload, entered: seq<Node>, stageCfg: NodeSet, st: Pending)
    returns (out: Pending, done: seq<Node>, reachedFinal: bool)
    requires IsTree(d) && AllInTree(d, entered) && forall n | n in stageCfg.members :: InTree(d, n)
    modifies stageCfg
    ensures out == RunActions(b, evt, EntryActions(d, entered), st)
    ensures stageCfg.members == old(stageCfg.members) + Members(entered)
    ensures done == Completed(d, old(stageCfg.members), entered)
    ensures reachedFinal == ReachesFinal(d, entered)
  {
    ghost var base := stageCfg.members;
    out, done, reachedFinal := st, [], false;
    for i := 0 to |entered|
      invariant AllInTree(d, entered[i..]) && AllInTree(d, entered[..i])
      invariant RunActions(b, evt, EntryActions(d, entered), st)
                == RunActions(b, evt, EntryActions(d, entered[i..]), out)
      invariant stageCfg.members == base + Members(entered[..i])
      invariant done == Completed(d, base, entered[..i])
      invariant reachedFinal == ReachesFinal(d, entered[..i])
    {
      var s := entered[i];
      PrefixStep(d, base, entered, i);
      stageCfg.Add(s);
      assert entered[i..][1..] == entered[i + 1..];
      RunActionsConcat(b, evt, d.nodes[s].entry, EntryActions(d, entered[i + 1..]), out);
      out := RunList(b, evt, d.nodes[s].entry, out);
      var completed, endsMachine := CompleteOne(d, s, stageCfg);
      done := done + completed;
      reachedFinal := reachedFinal || endsMachine;
    }
    assert entered[..|entered|] == entered;
  }

  lemma PrefixStep(d: Definition, base: set<Node>, entered: seq<Node>, i: nat)
    requires IsTree(d) && AllInTree(d, entered) && i < |entered|
    ensures AllInTree(d, entered[..i]) && AllInTree(d, entered[..i + 1]) && AllInTree(d, entered[i + 1..])
            && InTree(d, entered[i])
    ensures Members(entered[..i + 1]) == Members(entered[..i]) + {entered[i]}
    ensures Completed(d, base, entered[..i + 1])
         == Completed(d, base, entered[..i]) + CompletedBy(d, entered[i], base + Members(entered[..i]) + {entered[i]})
    ensures ReachesFinal(d, entered[..i + 1]) <==> ReachesFinal(d, entered[..i]) || EndsMachine(d, entered[i])
  {
    var next := entered[..i + 1];
    assert next == entered[..i] + [entered[i]] && next[..i] == entered[..i];
    forall n | n in entered[..i] || n in entered[i + 1..] ensures n in entered { }
    assert base + Members(next) == base + Members(entered[..i]) + {entered[i]};
  }

  /** microstep.go: apply.  Everything happens on copies: the live configuration object is
      not modified and the result owns a fresh one. */
  method Apply(d: Definition, b: Behavior, cfg: NodeSet, ctx: Ctx, hist: Hist,
               exits: seq<Node>, ts: seq<Transition>, toEnter: set<Node>, evt: Payload, triggered: bool)
                 returns (ms: Microstep)
    requires IsTree(d) && AllInTree(d, exits) && (forall n | n in toEnter :: InTree(d, n))
             && forall n | n in cfg.members :: InTree(d, n)
    ensures fresh(ms.cfg) && ms.cfg.members == ms.staged.cfg
    ensures ms.staged == StageStep(d, b, cfg.members, ctx, hist, exits, ts, toEnter, evt, triggered)
  {
    var stageCfg := cfg.Clone();
    var stageHist, st := ExitStates(d, b, evt, cfg.members, exits, hist, stageCfg, Pending(ctx, []));
    var st2 := RunTransitions(b, evt, ts, st);
    AscendingSorted(toEnter, |d.nodes|);
    var entered := Ascending(toEnter, |d.nodes|);
    assert Members(entered) == toEnter;
    var st3, done, reachedFinal := EnterStates(d, b, evt, entered, stageCfg, st2);
    RunActionsConcat(b, evt, ExitActions(d, exits), TransitionActions(ts), Pending(ctx, []));
    RunActionsConcat(b, evt, ExitActions(d, exits) + TransitionActions(ts), EntryActions(d, entered), Pending(ctx, []));
    var prevActive, nextActive := Ids(d, Leaves(d, cfg.members)), Ids(d, Leaves(d, stageCfg.members));
    var staged := Staged(stageCfg.members, stageHist, st3.ctx, st3.effects, ts, exits, entered,
                         prevActive, nextActive, triggered, reachedFinal, DoneEvents(d, done));
    ms := Microstep(stageCfg, staged);
  }
}
