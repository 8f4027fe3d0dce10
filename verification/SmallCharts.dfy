/** Tools for running the interpreter on small charts by hand: what one event does when a
    single edge reacts to it. */
module SmallCharts {
  import opened Definitions
  import opened Configurations
  import opened Entry
  import opened Growth
  import opened Selection
  import opened Microsteps
  import opened Histories
  import opened Staging
  import opened Engines

  function Plain(id: string, kind: StateKind, parent: Option<Node>, children: seq<Node>, initial: Option<Node>,
                 ts: seq<Transition>, n: Node): StateNode
  {
    StateNode(id, id, kind, parent, children, initial, Shallow, [], [], [], [], ts, n)
  }

  function Edge(source: Node, event: string, target: Node): Transition
  {
    Transition(source, event, None, [target], [], 0, false, Delay(0, ""))
  }

  lemma TwoActiveChildren(d: Definition, cfg: set<Node>, n: Node, c1: Node, c2: Node)
    requires InTree(d, n) && Kind(d, n) == Compound && n in cfg
    requires c1 in Children(d, n) && c2 in Children(d, n) && c1 in cfg && c2 in cfg && c1 != c2
    ensures !Legal(d, cfg)
  {
    forall c | c in Children(d, n) ensures !OnlyActiveChild(d, cfg, n, c) { assert c1 != c || c2 != c; }
    assert !NodeFilled(d, cfg, n);
  }

  /** t is the only edge of the chart that reacts to the event. */
  ghost predicate OnlyEdgeFor(d: Definition, event: string, t: Transition)
  {
    && IsEdge(d, t) && t.event == event && t.guard == None && !t.Eventless()
    && forall u: Transition | IsEdge(d, u) && (u.event == event || u.event == "*") && !u.Eventless() :: u == t
  }

  ghost predicate NothingEventless(d: Definition)
  {
    forall u: Transition | IsEdge(d, u) :: !u.Eventless()
  }

  /** An event to which one edge of the chart reacts selects that edge, if its source is active. */
  lemma SelectsIt(d: Definition, cfg: set<Node>, event: string, pass: Transition -> bool, t: Transition)
    requires WellFormed(d) && Legal(d, cfg) && OnlyEdgeFor(d, event, t) && t.source in cfg && pass(t)
    ensures Select(d, cfg, OnEvent(event), pass) == [t]
  {
    var sel, trigger := Select(d, cfg, OnEvent(event), pass), OnEvent(event);
    SelectMeaning(d, cfg, trigger, pass);
    assert t in Offered(d, trigger, t.source) && Fires(trigger, pass, t);
    LegalRooted(d, cfg);
    EnabledMeaning(d, cfg, trigger, pass);
    ResolveEnabledKernel(d, cfg, Enabled(d, cfg, trigger, pass));
    assert sel[0] in sel;
    if |sel| > 1 {
      FirstTwoDiffer(sel);
      assert false;
    }
  }

  lemma FirstTwoDiffer(ts: seq<Transition>)
    requires AscendingSources(ts) && |ts| > 1
    ensures ts[0] in ts && ts[1] in ts && ts[0] != ts[1]
  {
    assert ts[0].source < ts[1].source;
  }

  lemma SelectsNoEventless(d: Definition, cfg: set<Node>, pass: Transition -> bool)
    requires WellFormed(d) && Rooted(d, cfg) && NothingEventless(d)
    ensures Select(d, cfg, Always, pass) == []
  {
    var sel := Select(d, cfg, Always, pass);
    SelectChooses(d, cfg, Always, pass);
    if sel != [] {
      HasFirst(sel);
      assert false;
    }
  }

  lemma HasFirst(ts: seq<Transition>)
    requires ts != []
    ensures ts[0] in ts
  {
  }

  predicate NoFinals(d: Definition) { forall n: Node | n < |d.nodes| :: Kind(d, n) != Final }

  lemma {:induction false} NothingCompletes(d: Definition, base: set<Node>, entered: seq<Node>)
    requires IsTree(d) && AllInTree(d, entered) && NoFinals(d)
    ensures Completed(d, base, entered) == [] && !ReachesFinal(d, entered)
    decreases |entered|
  {
    if entered == [] {
    } else {
      var last := |entered| - 1;
      assert entered[last] in entered;
      forall n | n in entered[..last] ensures n in entered { }
      NothingCompletes(d, base, entered[..last]);
      forall n | n in entered ensures !EndsMachine(d, n) { }
    }
  }

  /** Between two events, in a legal configuration and with nothing queued. */
  ghost predicate Idle(c: Chart, s: State)
  {
    Runnable(c, s) && Legal(c.d, s.cfg) && s.internalQueue == [] && s.pendingExternal == None && s.status == Running
  }

  /** What the event does. */
  ghost predicate Took(c: Chart, s: State, t: Transition, s': State)
    requires Runnable(c, s)
  {
    && Runnable(c, s') && EndsInTree(c.d, t)
    && s'.cfg == StagedConfiguration(c.d, s.hist, s.cfg, [t])
    && s'.internalQueue == [] && s'.pendingExternal == None && s'.status == Running
    && (forall h: Node :: h in s'.hist <==> h in s.hist || HistoryOfExit(c.d, s.cfg, t, h))
    && (forall h | h in s'.hist ::
          s'.hist[h] == if HistoryOfExit(c.d, s.cfg, t, h) then Recorded(c.d, s.cfg, Parent(c.d, h).value, h)
            else s.hist[h])
  }

  /** h is a history child of a state that t exits. */
  ghost predicate HistoryOfExit(d: Definition, cfg: set<Node>, t: Transition, h: Node)
    requires IsTree(d)
  {
    InTree(d, h) && Kind(d, h) == History && Parent(d, h).Some? && Parent(d, h).value in ExitSetOf(d, cfg, t)
  }

  lemma OneEvent(c: Chart, s: State, q: Queued, t: Transition)
    requires Idle(c, s) && NoFinals(c.d) && NothingEventless(c.d)
    requires OnlyEdgeFor(c.d, q.descriptor, t) && t.source in s.cfg
    ensures Took(c, s, t, Exec(c, s, [Offer(q), Take]))
  {
    hide WellFormed, Legal, Rooted, EntryReady, Select, OnlyEdgeFor, NothingEventless, NoFinals, Step;
    RunnableTree(c, s);
    var s1 := s.(pendingExternal := Some(q));
    assert Do(c, s, Offer(q)) == s1;
    SelectsNoEventless(c.d, s.cfg, Pass(c.b, s.ctx, c.b.zero));
    GuardlessPasses(c, s, q, t);
    SelectsIt(c.d, s.cfg, q.descriptor, Pass(c.b, s.ctx, q.payload), t);
    MoveRunnable(c, s1, Take);
    TakesIt(c, s1, q, t);
    ExecTwo(c, s, Offer(q), Take);
  }

  lemma GuardlessPasses(c: Chart, s: State, q: Queued, t: Transition)
    requires OnlyEdgeFor(c.d, q.descriptor, t)
    ensures Pass(c.b, s.ctx, q.payload)(t)
  {
  }

  lemma ExecTwo(c: Chart, s: State, a: Move, b: Move)
    requires Runnable(c, s)
    ensures Runnable(c, Do(c, s, a)) && Exec(c, s, [a, b]) == Do(c, Do(c, s, a), b)
  {
    MoveRunnable(c, s, a);
    MoveRunnable(c, Do(c, s, a), b);
    var s1 := Do(c, s, a);
    assert [b][1..] == [] && Exec(c, Do(c, s1, b), []) == Do(c, s1, b);
    assert Exec(c, s1, [b]) == Do(c, s1, b);
    assert [a, b][1..] == [b];
  }

  lemma TakesIt(c: Chart, s: State, q: Queued, t: Transition)
    requires Runnable(c, s) && NoFinals(c.d) && s.internalQueue == [] && s.pendingExternal == Some(q)
             && s.status == Running
    requires Matching(c, s, Always, c.b.zero) == [] && Matching(c, s, OnEvent(q.descriptor), q.payload) == [t]
    ensures Runnable(c, Do(c, s, Take)) && Took(c, s, t, Do(c, s, Take))
  {
    hide Runnable, Select, NoFinals, Step, MicrostepFor, StagesMicrostep;
    RunnableTree(c, s);
    MoveRunnable(c, s, Take);
    StepStages(c, s);
    var s1 := s.(pendingExternal := None);
    StepTakesExternal(c, s, [t]);
    RunnableQueues(c, s, s1);
    var ms := Step(c, s).1.ms;
    MicrostepFields(c, s1, [t], q.payload, true);
    StagedQuietly(c, s, ms, t);
  }

  lemma StagedQuietly(c: Chart, s: State, ms: Staged, t: Transition)
    requires Runnable(c, s) && StagesMicrostep(c, s, ms) && NoFinals(c.d) && ms.transitions == [t]
    ensures EndsInTree(c.d, t) && ms.cfg == StagedConfiguration(c.d, s.hist, s.cfg, [t])
    ensures ms.internalEnqueue == [] && !ReachesFinal(c.d, ms.entered)
    ensures forall h: Node :: h in ms.hist <==> h in s.hist || HistoryOfExit(c.d, s.cfg, t, h)
    ensures forall h | h in ms.hist ::
              ms.hist[h] == if HistoryOfExit(c.d, s.cfg, t, h) then Recorded(c.d, s.cfg, Parent(c.d, h).value, h)
                else s.hist[h]
  {
    hide WellFormed, Rooted, EntryReady, Selected, NoFinals, Recorded;
    RunnableTree(c, s);
    assert t in [t];
    NothingCompletes(c.d, s.cfg - Members(ms.exited), ms.entered);
    RecordAllMeaning(c.d, s.cfg, ms.exited, s.hist);
    OneExitSet(c.d, s.cfg, t);
    assert forall n :: n in ms.exited <==> n in Members(ms.exited);
    assert forall h :: HistoryOfExited(c.d, ms.exited, h) <==> HistoryOfExit(c.d, s.cfg, t, h);
  }

  lemma OneExitSet(d: Definition, cfg: set<Node>, t: Transition)
    requires IsTree(d)
    ensures UnionOfExits(d, cfg, [t]) == ExitSetOf(d, cfg, t)
  {
    assert [t][1..] == [];
  }

  /** How a chart without finals starts. */
  lemma StartedIdle(c: Chart, ctx: Ctx)
    requires WellFormed(c.d) && NoFinals(c.d)
    ensures Idle(c, Started(c, ctx)) && EntryReady(c.d, map[])
    ensures Started(c, ctx).cfg == AddDescendants(c.d, map[], ROOT, {}) && Started(c, ctx).hist == map[]
  {
    hide WellFormed, Legal, Rooted, AddDescendants, NoFinals, Runnable;
    TreeInOrder(c.d);
    StartedRunnable(c, ctx);
    StartEnters(c);
    var E := AddDescendants(c.d, map[], ROOT, {});
    LegalRooted(c.d, E);
    AscendingSorted(E, |c.d.nodes|);
    StartsQuietly(c, E);
    assert {} - Members([]) + E == E;
  }

  lemma StartsQuietly(c: Chart, E: set<Node>)
    requires IsTree(c.d) && NoFinals(c.d) && AllInTree(c.d, Ascending(E, |c.d.nodes|))
    ensures Completed(c.d, {} - Members([]), Ascending(E, |c.d.nodes|)) == []
            && !ReachesFinal(c.d, Ascending(E, |c.d.nodes|))
  {
    NothingCompletes(c.d, {} - Members([]), Ascending(E, |c.d.nodes|));
  }

  /** After an event that takes no edge of the root the chart is idle again. */
  lemma IdleAgain(c: Chart, s: State, t: Transition, s': State)
    requires Idle(c, s) && Took(c, s, t, s') && HistoryOk(c.d, s.hist)
    requires IsEdge(c.d, t) && t.source in s.cfg && !RootEdge(t)
    ensures Idle(c, s')
  {
    EdgeIsOk(c.d, t);
    assert Selected(c.d, s.cfg, [t]) by { assert forall u | u in [t] :: u == t; }
    assert NoRootEdges([t]) by { assert forall u | u in [t] :: u == t; }
    MicrostepLegal(c.d, s.hist, s.cfg, [t]);
  }

  lemma EdgeIsOk(d: Definition, t: Transition)
    requires WellFormed(d) && IsEdge(d, t)
    ensures EdgeOk(d, t.source, t)
  {
    assert EdgesOk(d, t.source);
    InvokeEdgesOk(d, t.source, d.nodes[t.source].invokes);
  }

  /** An edge to a leaf right below its domain enters that leaf only. */
  lemma LeafHop(d: Definition, hist: Hist, t: Transition, g: Node)
    requires IsTree(d) && EntryReady(d, hist) && EndsInTree(d, t) && t.targets == [g]
    requires IsLeaf(d, g) && Parent(d, g).Some? && Domain(d, t) == Parent(d, g)
    ensures EntrySetOf(d, hist, [t]) == {g}
  {
    DomainCovers(d, t);
    assert AddDescendants(d, hist, g, {}) == {g};
    assert [g][1..] == [] && AddTargets(d, hist, [g], {}) == {g};
    assert AddAncestors(d, hist, g, Domain(d, t), {g}) == {g};
    assert AddTargetAncestors(d, hist, [g], Domain(d, t), {g}) == AddTargetAncestors(d, hist, [], Domain(d, t), {g})
           == {g};
    assert AddTransition(d, hist, t, {}) == {g};
    OneEntrySet(d, hist, t);
  }

  lemma OneEntrySet(d: Definition, hist: Hist, t: Transition)
    requires IsTree(d) && EntryReady(d, hist) && EndsInTree(d, t)
    ensures (forall u | u in [t] :: EndsInTree(d, u)) && EntrySetOf(d, hist, [t]) == AddTransition(d, hist, t, {})
  {
    assert forall u | u in [t] :: u == t;
    var E := AddTransition(d, hist, t, {});
    assert [t][0] == t && [t][1..] == [] && EntrySetFrom(d, hist, [], E) == E;
    assert EntrySetFrom(d, hist, [t], {}) == EntrySetFrom(d, hist, [t][1..], E);
  }
}
