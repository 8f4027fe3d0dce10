/** Why the hypotheses are needed: small charts on which the interpreter, run as it is, does
    not keep its promises once one of them is dropped. */
module Counterexamples {
  import opened Definitions
  import opened Configurations
  import opened Entry
  import opened Growth
  import opened Selection
  import opened Microsteps
  import opened Histories
  import opened Staging
  import opened Completions
  import opened Engines
  import opened Macrosteps
  import opened HistoryRuns
  import opened Rankings
  import opened SmallCharts

  // ------------------------------------------------------------------ a targeted edge of the root

  /** Two states under the root, and an edge from the root to the second. */
  function RootEdgeChart(): Definition
  {
    Definition("m", [
      Plain("", Compound, None, [1, 2], Some(1), [Edge(0, "go", 2)], 0),
      Plain("a", Atomic, Some(0), [], None, [], 1),
      Plain("b", Atomic, Some(0), [], None, [], 2)], 0, 0)
  }

  lemma RootEdgeFacts()
    ensures var d := RootEdgeChart();
            && |d.nodes| == 3 && Parent(d, 0) == None && Parent(d, 1) == Parent(d, 2) == Some(0)
            && Children(d, 0) == [1, 2] && Children(d, 1) == Children(d, 2) == []
            && Kind(d, 0) == Compound && Kind(d, 1) == Kind(d, 2) == Atomic && d.nodes[0].initial == Some(1)
            && (forall n: Node | n < 3 :: d.nodes[n].docOrder == n && d.nodes[n].invokes == [])
            && d.nodes[0].transitions == [Edge(0, "go", 2)] && d.nodes[1].transitions == d.nodes[2].transitions == []
  {
  }

  lemma RootEdgeTree(d: Definition)
    requires d == RootEdgeChart()
    ensures IsTree(d) && 1 in Children(d, 0) && 2 in Children(d, 0) && IsDescendant(d, 1, 0) && IsDescendant(d, 2, 0)
  {
    hide RootEdgeChart;
    RootEdgeFacts();
    assert IsTree(d);
    assert 1 in Children(d, 0) && 2 in Children(d, 0);
  }

  lemma RootEdgeWellFormed()
    ensures WellFormed(RootEdgeChart()) && NoFinals(RootEdgeChart()) && NothingEventless(RootEdgeChart())
    ensures OnlyEdgeFor(RootEdgeChart(), "go", Edge(0, "go", 2))
  {
    hide RootEdgeChart;
    RootEdgeFacts();
    var d := RootEdgeChart();
    RootEdgeTree(d);
    RootEdgeEdges(d);
    RootEdgeNodes(d);
    hide IsTree, NodeShapeOk, EdgesOk, EdgeOk, IsEdge, ChildrenOrdered;
    forall a: Node, b: Node, c: Node | a < b < c && IsDescendant(d, c, a) ensures IsDescendant(d, b, a) {
      assert a == 0 && b == 1;
    }
  }

  lemma RootEdgeNodes(d: Definition)
    requires d == RootEdgeChart() && IsTree(d)
    ensures forall n: Node | n < 3 :: NodeShapeOk(d, n) && EdgesOk(d, n) && ChildrenOrdered(d, n)
  {
    hide RootEdgeChart, IsTree;
    RootEdgeFacts();
    forall n: Node | n < 3 ensures NodeShapeOk(d, n) && EdgesOk(d, n) && ChildrenOrdered(d, n) {
      assert n == 0 || n == 1 || n == 2;
    }
  }

  lemma RootEdgeEdges(d: Definition)
    requires d == RootEdgeChart() && IsTree(d)
    ensures NothingEventless(d) && OnlyEdgeFor(d, "go", Edge(0, "go", 2))
  {
    hide RootEdgeChart, IsTree;
    RootEdgeFacts();
    assert EventedEdges(d.nodes[0]) == [Edge(0, "go", 2)] && EventedEdges(d.nodes[1]) == EventedEdges(d.nodes[2]) == [];
  }

  /** The chart starts with "a" active. */
  lemma RootEdgeStarts(c: Chart, ctx: Ctx)
    requires c.d == RootEdgeChart()
    ensures WellFormed(c.d) && Idle(c, Started(c, ctx)) && Started(c, ctx).cfg == {0, 1}
            && Started(c, ctx).hist == map[]
  {
    hide RootEdgeChart, WellFormed, Legal, Rooted, EntryReady, Runnable, Started, IsTree;
    RootEdgeFacts();
    RootEdgeWellFormed();
    StartedIdle(c, ctx);
    RootEdgeDefault();
  }

  lemma RootEdgeDefault()
    requires WellFormed(RootEdgeChart()) && EntryReady(RootEdgeChart(), map[])
    ensures AddDescendants(RootEdgeChart(), map[], ROOT, {}) == {0, 1}
  {
    hide RootEdgeChart;
    RootEdgeFacts();
    var d := RootEdgeChart();
    assert 1 in Children(d, 0) && AddDescendants(d, map[], 1, {0}) == {0, 1};
    assert AddAncestors(d, map[], 1, Some(0), {0, 1}) == {0, 1};
  }

  /** Started and then given the event, the chart has both states active. */
  lemma RootEdgeBreaksLegality(c: Chart, ctx: Ctx, payload: Payload)
    requires c.d == RootEdgeChart()
    ensures WellFormed(c.d) && Runnable(c, Started(c, ctx))
    ensures var s := Exec(c, Started(c, ctx), [Offer(Queued("go", payload)), Take]);
            s.cfg == {0, 1, 2} && !Legal(c.d, s.cfg)
  {
    hide RootEdgeChart, WellFormed, Legal, Rooted, EntryReady, Started, IsTree;
    RootEdgeFacts();
    RootEdgeWellFormed();
    RootEdgeStarts(c, ctx);
    var s, t := Started(c, ctx), Edge(0, "go", 2);
    RunnableTree(c, s);
    OneEvent(c, s, Queued("go", payload), t);
    RootEdgeEnters();
    Shapes(c.d);
    RootEdgeExactly(c.d, map[], {0, 1}, t);
    assert 1 in Children(c.d, 0) && 2 in Children(c.d, 0);
    TwoActiveChildren(c.d, {0, 1, 2}, 0, 1, 2);
  }

  lemma RootEdgeEnters()
    requires IsTree(RootEdgeChart()) && EntryReady(RootEdgeChart(), map[])
    ensures EntrySetOf(RootEdgeChart(), map[], [Edge(0, "go", 2)]) == {0, 2}
  {
    hide RootEdgeChart;
    RootEdgeFacts();
    var d, t := RootEdgeChart(), Edge(0, "go", 2);
    DomainExactly(d, {}, t);
    assert AddDescendants(d, map[], 2, {}) == {2};
    assert AddAncestors(d, map[], 2, None, {2}) == {0, 2};
    assert [2][1..] == [] && AddTargets(d, map[], [2], {}) == {2};
    assert AddTransition(d, map[], t, {}) == {0, 2};
    assert [t][1..] == [];
  }

  // ------------------------------------------------------------------ a macrostep without end

  /** A compound "c" that re-enters its own final state on its own completion. */
  function DoneLoopChart(): Definition
  {
    Definition("m", [
      Plain("", Compound, None, [1], Some(1), [], 0),
      Plain("c", Compound, Some(0), [2], Some(2), [Edge(1, "done.state.c", 2)], 1),
      Plain("c.f", Final, Some(1), [], None, [], 2)], 0, 0)
  }

  lemma DoneLoopFacts()
    ensures var d := DoneLoopChart();
            && |d.nodes| == 3 && Parent(d, 0) == None && Parent(d, 1) == Some(0) && Parent(d, 2) == Some(1)
            && Children(d, 0) == [1] && Children(d, 1) == [2] && Children(d, 2) == []
            && Kind(d, 0) == Kind(d, 1) == Compound && Kind(d, 2) == Final
            && d.nodes[0].initial == Some(1) && d.nodes[1].initial == Some(2)
            && d.nodes[0].transitions == d.nodes[2].transitions == []
              && d.nodes[1].transitions == [Edge(1, "done.state.c", 2)]
            && d.nodes[0].invokes == d.nodes[1].invokes == d.nodes[2].invokes == []
            && DoneEvent(d, 1) == "done.state.c"
            && (forall n: Node | n < 3 :: d.nodes[n].docOrder == n)
  {
  }

  lemma DoneLoopWellFormed()
    ensures WellFormed(DoneLoopChart()) && Tame(DoneLoopChart())
  {
    hide DoneLoopChart;
    DoneLoopFacts();
    var d := DoneLoopChart();
    assert IsTree(d);
    DoneLoopPreOrder();
    assert forall n: Node | n < 3 :: NodeShapeOk(d, n) && EdgesOk(d, n);
  }

  lemma DoneLoopPreOrder()
    requires IsTree(DoneLoopChart())
    ensures IsPreOrder(DoneLoopChart())
  {
    hide DoneLoopChart, IsTree;
    DoneLoopFacts();
    var d := DoneLoopChart();
    assert IsDescendant(d, 1, 0) && IsDescendant(d, 2, 1) && IsDescendant(d, 2, 0);
    assert forall n: Node | n < 3 :: ChildrenOrdered(d, n);
    forall a: Node, b: Node, c: Node | a < b < c && IsDescendant(d, c, a) ensures IsDescendant(d, b, a) {
      assert c < 3;
    }
  }

  /** The chart has one legal configuration: everything is active. */
  lemma DoneLoopAllActive(cfg: set<Node>)
    requires Legal(DoneLoopChart(), cfg)
    ensures cfg == {0, 1, 2}
  {
    hide DoneLoopChart;
    DoneLoopFacts();
    var d := DoneLoopChart();
    assert NodeFilled(d, cfg, 0);
    assert 1 in cfg;
    assert NodeFilled(d, cfg, 1);
  }

  /** Entering the final state completes "c", and nothing else is completed. */
  lemma DoneLoopCompletes(base: set<Node>, entered: seq<Node>)
    requires IsTree(DoneLoopChart()) && AllInTree(DoneLoopChart(), entered) && StrictlyAscending(entered)
             && 2 in entered
    ensures DoneEvents(DoneLoopChart(), Completed(DoneLoopChart(), base, entered)) == ["done.state.c"]
    ensures !ReachesFinal(DoneLoopChart(), entered)
  {
    hide DoneLoopChart, IsTree, Completed, CompletedBy, DoneEvents, EndsMachine;
    var d, last := DoneLoopChart(), |entered| - 1;
    DoneLoopFinal(base + Members(entered));
    AscendingLast(entered, 2);
    forall n | n in entered[..last] ensures n in entered && n < 2 { }
    NoneBelowTwo(base, entered[..last]);
    CompletionUnfold(d, 1, base, entered);
    assert [] + [1] == [1 as Node];
    DoneLoopEvent();
  }

  lemma DoneLoopFinal(stage: set<Node>)
    requires IsTree(DoneLoopChart())
    ensures |DoneLoopChart().nodes| == 3 && CompletedBy(DoneLoopChart(), 2, stage) == [1]
    ensures forall n: Node | n < 3 :: !EndsMachine(DoneLoopChart(), n)
  {
    hide DoneLoopChart, IsTree;
    DoneLoopFacts();
  }

  lemma DoneLoopEvent()
    ensures DoneEvents(DoneLoopChart(), [1]) == ["done.state.c"]
  {
    hide DoneLoopChart, DoneEvents;
    DoneLoopFacts();
    DoneEventsAre(DoneLoopChart(), [1]);
  }

  lemma AscendingLast(q: seq<Node>, x: Node)
    requires StrictlyAscending(q) && x in q && forall n | n in q :: n <= x
    ensures q[|q| - 1] == x
  {
    var i :| 0 <= i < |q| && q[i] == x;
    assert q[i] <= q[|q| - 1] && q[|q| - 1] in q;
  }

  lemma {:induction false} NoneBelowTwo(base: set<Node>, entered: seq<Node>)
    requires IsTree(DoneLoopChart()) && AllInTree(DoneLoopChart(), entered) && forall n | n in entered :: n < 2
    ensures Completed(DoneLoopChart(), base, entered) == []
    decreases |entered|
  {
    hide DoneLoopChart, IsTree;
    DoneLoopFacts();
    if entered == [] {
    } else {
      var last := |entered| - 1;
      assert entered[last] in entered;
      forall n | n in entered[..last] ensures n in entered { }
      NoneBelowTwo(base, entered[..last]);
    }
  }

  /** About to handle the completion of "c" once more. */
  ghost predicate Looping(c: Chart, s: State)
  {
    && c.d == DoneLoopChart() && Sound(c, s)
    && s.internalQueue == [Queued("done.state.c", c.b.zero)] && s.pendingExternal == None && s.status == Running
  }

  lemma LoopKnown(c: Chart, s: State)
    requires Looping(c, s)
    ensures Sound(c, s) && Runnable(c, s) && IsTree(c.d) && WellFormed(c.d) && s.cfg == {0, 1, 2} && Legal(c.d, s.cfg)
  {
    hide DoneLoopChart;
    DoneLoopAllActive(s.cfg);
  }

  lemma DoneLoopEdges()
    ensures var d, t := DoneLoopChart(), Edge(1, "done.state.c", 2);
            && |d.nodes| == 3 && d.nodes[0].transitions == d.nodes[2].transitions == [] && d.nodes[1].transitions == [t]
            && EventedEdges(d.nodes[1]) == [t] && EventedEdges(d.nodes[0]) == EventedEdges(d.nodes[2]) == []
            && forall b: Behavior, ctx: Ctx, evt: Payload :: Pass(b, ctx, evt)(t)
  {
    hide DoneLoopChart;
    DoneLoopFacts();
  }

  lemma LoopSelects(c: Chart, s: State)
    requires Looping(c, s)
    ensures IsTree(c.d) && Matching(c, s, Always, c.b.zero) == []
    ensures var ts := Matching(c, s, OnEvent("done.state.c"), c.b.zero);
            ts != [] && Selected(c.d, s.cfg, ts) && forall t | t in ts :: t == Edge(1, "done.state.c", 2)
  {
    hide DoneLoopChart, IsTree, WellFormed, Legal, Select, Selected, Sound, Runnable, EventedEdges, Pass;
    LoopKnown(c, s);
    DoneLoopEdges();
    var edge, pass := Edge(1, "done.state.c", 2), Pass(c.b, s.ctx, c.b.zero);
    NothingMatches(c, s, Always, c.b.zero);
    NothingMatches(c, s, OnEvent("done.state.c"), c.b.zero);
    MatchingChooses(c, s, OnEvent("done.state.c"), c.b.zero);
    assert edge in Offered(c.d, OnEvent("done.state.c"), 1) && Fires(OnEvent("done.state.c"), pass, edge);
  }

  lemma LoopExits(d: Definition)
    requires d == DoneLoopChart()
    ensures IsTree(d) && Domain(d, Edge(1, "done.state.c", 2)) == Some(0)
            && 2 in ExitSetOf(d, {0, 1, 2}, Edge(1, "done.state.c", 2))
  {
    hide DoneLoopChart;
    DoneLoopFacts();
    assert IsTree(d);
    hide IsTree;
    var t := Edge(1, "done.state.c", 2);
    assert IsDescendant(d, 2, 1) && IsDescendant(d, 2, 0);
    DomainExactly(d, {0, 1, 2}, t);
    LccaIsLeast(d, 1, [2]);
    assert Domain(d, t) == Some(0);
  }

  lemma LoopStages(c: Chart, s: State, ms: Staged)
    requires Looping(c, s) && Runnable(c, s) && StagesMicrostep(c, s, ms) && Legal(c.d, ms.cfg)
    requires ms.transitions != [] && forall t | t in ms.transitions :: t == Edge(1, "done.state.c", 2)
    ensures ms.internalEnqueue == ["done.state.c"] && !ReachesFinal(c.d, ms.entered)
  {
    hide DoneLoopChart, WellFormed, Legal, Selected, Sound;
    LoopKnown(c, s);
    DoneLoopAllActive(ms.cfg);
    LoopExits(c.d);
    UnionOfExitsMeaning(c.d, s.cfg, ms.transitions);
    assert ms.transitions[0] in ms.transitions;
    assert 2 in UnionOfExits(c.d, s.cfg, ms.transitions);
    assert 2 in Members(ms.entered);
    DoneLoopCompletes(s.cfg - Members(ms.exited), ms.entered);
  }

  lemma LoopStep(c: Chart, s: State)
    requires Looping(c, s)
    ensures Runnable(c, s) && Step(c, s).1.Next? && Looping(c, CommitState(c, Step(c, s).0, Step(c, s).1.ms))
  {
    hide DoneLoopChart, Select, Selected, WellFormed, Legal, Singles, Sound, Runnable, StagesMicrostep, Step,
         ReachesFinal;
    LoopKnown(c, s);
    LoopSelects(c, s);
    LoopTakes(c, s);
    StepSound(c, s);
    StepStages(c, s);
    SoundRunnable(c, CommitState(c, Step(c, s).0, Step(c, s).1.ms));
    LoopLegal(c, CommitState(c, Step(c, s).0, Step(c, s).1.ms));
    LoopStages(c, s, Step(c, s).1.ms);
    assert DoneQueue(c.b, ["done.state.c"]) == [Queued("done.state.c", c.b.zero)];
  }

  lemma LoopLegal(c: Chart, s: State)
    requires Sound(c, s)
    ensures Legal(c.d, s.cfg)
  {
  }

  lemma LoopTakes(c: Chart, s: State)
    requires Looping(c, s) && Runnable(c, s) && IsTree(c.d) && Matching(c, s, Always, c.b.zero) == []
    requires Matching(c, s, OnEvent("done.state.c"), c.b.zero) != []
    ensures var (s', outcome) := Step(c, s);
            && outcome.Next? && outcome.ms.transitions == Matching(c, s, OnEvent("done.state.c"), c.b.zero)
              && outcome.ms.triggered
            && (outcome.ms.reachedFinal
              <==> (AllInTree(c.d, outcome.ms.entered) && ReachesFinal(c.d, outcome.ms.entered)))
            && s'.internalQueue == [] && s'.pendingExternal == None && s'.status == Running
  {
    hide DoneLoopChart, Select, Selected, WellFormed, Legal, Singles, Sound, Runnable, Step, MicrostepFor;
    var ts := Matching(c, s, OnEvent("done.state.c"), c.b.zero);
    StepTakesInternal(c, s, ts);
    RunnableQueues(c, s, s.(internalQueue := s.internalQueue[1..]));
    MicrostepFields(c, s.(internalQueue := s.internalQueue[1..]), ts, c.b.zero, true);
  }

  /** Without the restriction on `done.state` edges a macrostep need not end: this one takes
      more microsteps than any bound, because each event resets the loop counter. */
  lemma {:induction false} LoopNeverEnds(c: Chart, s: State, fuel: nat)
    requires Looping(c, s)
    ensures Runnable(c, s) && Macrostep(c, s, fuel).OutOfFuel?
    decreases fuel
  {
    hide Step, CommitState, Macrostep, Sound, Runnable, DoneLoopChart;
    LoopKnown(c, s);
    MacrostepUnfold(c, s, fuel);
    LoopStep(c, s);
    if fuel == 0 {
    } else {
      LoopNeverEnds(c, CommitState(c, Step(c, s).0, Step(c, s).1.ms), fuel - 1);
    }
  }

  lemma StartUnfold(c: Chart, ctx: Ctx)
    requires WellFormed(c.d)
    ensures EntryReady(c.d, map[]) && Legal(c.d, AddDescendants(c.d, map[], ROOT, {}))
    ensures var entered := Ascending(AddDescendants(c.d, map[], ROOT, {}), |c.d.nodes|);
            && AllInTree(c.d, entered)
            && Started(c, ctx).internalQueue == DoneQueue(c.b, DoneEvents(c.d, Completed(c.d, {}, entered)))
            && Started(c, ctx).status == (if ReachesFinal(c.d, entered) then Done else Running)
            && Started(c, ctx).pendingExternal == None
            && StartStep(c, ctx).cfg == AddDescendants(c.d, map[], ROOT, {}) && StartStep(c, ctx).entered == entered
            && StartStep(c, ctx).internalEnqueue == DoneEvents(c.d, Completed(c.d, {}, entered))
  {
    StartEnters(c);
    AscendingSorted(AddDescendants(c.d, map[], ROOT, {}), |c.d.nodes|);
    assert {} - Members([]) == {} && {} + AddDescendants(c.d, map[], ROOT, {}) == AddDescendants(c.d, map[], ROOT, {});
  }

  /** The very start of that chart already leads into the loop. */
  lemma LoopFromTheStart(c: Chart, ctx: Ctx)
    requires c.d == DoneLoopChart()
    ensures WellFormed(c.d) && Looping(c, Started(c, ctx))
  {
    hide DoneLoopChart, WellFormed, Legal, IsTree, Sound, Started, AddDescendants, Completed, DoneEvents, EntryReady,
         ReachesFinal, Tame;
    DoneLoopWellFormed();
    TreeInOrder(c.d);
    StartedRunnable(c, ctx);
    StartUnfold(c, ctx);
    var E := AddDescendants(c.d, map[], ROOT, {});
    DoneLoopAllActive(E);
    DoneLoopFacts();
    AscendingSorted(E, |c.d.nodes|);
    DoneLoopCompletes({}, Ascending(E, |c.d.nodes|));
    assert DoneQueue(c.b, ["done.state.c"]) == [Queued("done.state.c", c.b.zero)];
  }

  /** The completions of that chart go round in a circle: no ranking fits them. */
  lemma LoopIsUnranked(rank: string -> nat, top: nat)
    ensures IsTree(DoneLoopChart()) && !Ranked(DoneLoopChart(), rank, top)
  {
    hide DoneLoopChart, WellFormed, EntryReady, Tame;
    DoneLoopFacts();
    DoneLoopWellFormed();
    TreeInOrder(DoneLoopChart());
    var d, t, hist: Hist := DoneLoopChart(), Edge(1, "done.state.c", 2), map[];
    SinglesOk(d, hist);
    LoopExits(d);
    assert EndsInTree(d, t) && EventedEdges(d.nodes[1]) == [t] && IsEdge(d, t);
    DomainCovers(d, t);
    SingleTarget(d, hist, t, 2, Domain(d, t).value, {});
    DescendantsGrow(d, hist, 2, {});
    AncestorsGrow(d, hist, 2, Domain(d, t), AddDescendants(d, hist, 2, {}));
    assert Enters(d, hist, t, {}, 2) && Names(d, 2, "done.state.c");
    assert CanComplete(d, t, "done.state.c") && Reacts(d, "done.state.c");
    assert IsDoneName("done.state.c");
  }

  /** The same compound, whose completion leads on to a state outside. */
  function DoneOnChart(): Definition
  {
    Definition("m", [
      Plain("", Compound, None, [1, 3], Some(1), [], 0),
      Plain("c", Compound, Some(0), [2], Some(2), [Edge(1, "done.state.c", 3)], 1),
      Plain("c.f", Final, Some(1), [], None, [], 2),
      Plain("d", Atomic, Some(0), [], None, [], 3)], 0, 0)
  }

  lemma DoneOnFacts()
    ensures var d := DoneOnChart();
            && |d.nodes| == 4 && Parent(d, 0) == None && Parent(d, 1) == Parent(d, 3) == Some(0)
              && Parent(d, 2) == Some(1)
            && Children(d, 0) == [1, 3] && Children(d, 1) == [2] && Children(d, 2) == Children(d, 3) == []
            && Kind(d, 0) == Kind(d, 1) == Compound && Kind(d, 2) == Final && Kind(d, 3) == Atomic
            && d.nodes[1].transitions == [Edge(1, "done.state.c", 3)]
            && d.nodes[0].transitions == d.nodes[2].transitions == d.nodes[3].transitions == []
            && (forall n: Node | n < 4 :: d.nodes[n].docOrder == n && d.nodes[n].invokes == [])
  {
  }

  /** Ordinary completion edges are ranked: this one can complete nothing itself. */
  lemma DoneOnIsRanked()
    ensures IsTree(DoneOnChart()) && Ranked(DoneOnChart(), _ => 0, 0) && Reacts(DoneOnChart(), "done.state.c")
  {
    hide DoneOnChart, IsTree, IsEdge, CanComplete;
    DoneOnEdges();
    var d, t := DoneOnChart(), Edge(1, "done.state.c", 3);
    forall name: string ensures !CanComplete(d, t, name) { DoneOnCompletesNothing(name); }
  }

  lemma DoneOnCompletesNothing(name: string)
    requires IsTree(DoneOnChart())
    ensures !CanComplete(DoneOnChart(), Edge(1, "done.state.c", 3), name)
  {
    hide DoneOnChart, IsTree, Enters;
    DoneOnFacts();
    var d, t := DoneOnChart(), Edge(1, "done.state.c", 3);
    if EndsInTree(d, t) && CanComplete(d, t, name) {
      var hist: Hist, E: set<Node>, f: Node :| Enters(d, hist, t, E, f) && Names(d, f, name);
      DoneOnEnters(hist, E, f);
    }
  }

  lemma DoneOnIsTree()
    ensures IsTree(DoneOnChart())
  {
    hide DoneOnChart;
    DoneOnFacts();
  }

  lemma DoneOnEdges()
    ensures var d, t := DoneOnChart(), Edge(1, "done.state.c", 3);
            IsTree(d) && (forall u: Transition :: IsEdge(d, u) <==> u == t) && Reacts(d, "done.state.c")
  {
    hide DoneOnChart, IsTree;
    DoneOnFacts();
    DoneOnIsTree();
    var d, t := DoneOnChart(), Edge(1, "done.state.c", 3);
    assert EventedEdges(d.nodes[1]) == [t];
    assert EventedEdges(d.nodes[0]) == EventedEdges(d.nodes[2]) == EventedEdges(d.nodes[3]) == [];
    assert IsEdge(d, t);
  }

  lemma DoneOnEnters(hist: Hist, E: set<Node>, f: Node)
    requires IsTree(DoneOnChart()) && EndsInTree(DoneOnChart(), Edge(1, "done.state.c", 3))
    requires Enters(DoneOnChart(), hist, Edge(1, "done.state.c", 3), E, f)
    ensures f == 3
  {
    hide DoneOnChart, IsTree;
    DoneOnFacts();
    var d, t := DoneOnChart(), Edge(1, "done.state.c", 3);
    DomainCovers(d, t);
    assert Domain(d, t) == Some(0);
    SingleTarget(d, hist, t, 3, 0, E);
    assert AddTransition(d, hist, t, E) == E + {3};
  }

  // ------------------------------------------------------------------ a final deeper in a region

  /** A parallel 1 of two regions: 2 with a compound child 3 that holds a final 4, and 5 with a
      final child 6. */
  function NestedFinalChart(): Definition
  {
    Definition("m", [
      Plain("", Compound, None, [1], Some(1), [], 0),
      Plain("p", Parallel, Some(0), [2, 5], None, [], 1),
      Plain("p.r", Compound, Some(1), [3], Some(3), [], 2),
      Plain("p.r.n", Compound, Some(2), [4], Some(4), [], 3),
      Plain("p.r.n.f", Final, Some(3), [], None, [], 4),
      Plain("p.s", Compound, Some(1), [6], Some(6), [], 5),
      Plain("p.s.g", Final, Some(5), [], None, [], 6)], 0, 0)
  }

  lemma NestedFinalFacts()
    ensures var d := NestedFinalChart();
            && |d.nodes| == 7 && Parent(d, 0) == None && Parent(d, 1) == Some(0)
              && Parent(d, 2) == Parent(d, 5) == Some(1)
            && Parent(d, 3) == Some(2) && Parent(d, 4) == Some(3) && Parent(d, 6) == Some(5)
            && Children(d, 0) == [1] && Children(d, 1) == [2, 5] && Children(d, 2) == [3] && Children(d, 3) == [4]
            && Children(d, 5) == [6] && Children(d, 4) == Children(d, 6) == []
            && Kind(d, 0) == Kind(d, 2) == Kind(d, 3) == Kind(d, 5) == Compound && Kind(d, 1) == Parallel
            && Kind(d, 4) == Kind(d, 6) == Final && (forall n: Node | n < 7 :: d.nodes[n].docOrder == n)
            && d.nodes[0].initial == Some(1) && d.nodes[2].initial == Some(3) && d.nodes[3].initial == Some(4)
            && d.nodes[5].initial == Some(6)
            && (forall n: Node | n < 7 :: d.nodes[n].transitions == [] && d.nodes[n].invokes == [])
  {
  }

  /** The start of that chart, which makes everything active, stages the completion of the
      parallel, although its first region is not in a final state: its active child is a
      compound.  The documented rule does not stage it. */
  lemma NestedFinalCounts(c: Chart, ctx: Ctx)
    requires c.d == NestedFinalChart()
    ensures WellFormed(c.d)
    ensures var d, ms := c.d, StartStep(c, ctx);
            && ms.cfg == {0, 1, 2, 3, 4, 5, 6} && Legal(d, ms.cfg) && AllInTree(d, ms.entered)
            && DoneEvent(d, 1) in ms.internalEnqueue && !InFinalState(d, 2, ms.cfg)
            && DoneEvent(d, 1) !in DoneEvents(d, Documented(d, {}, ms.entered))
  {
    hide NestedFinalChart, IsTree, WellFormed, Legal, EntryReady, AddDescendants, Completed, DoneEvents, Documented,
         InFinalState, StartStep, Started, ReachesFinal;
    NestedFinalFacts();
    NestedFinalWellFormed();
    TreeInOrder(c.d);
    StartUnfold(c, ctx);
    var E := AddDescendants(c.d, map[], ROOT, {});
    NestedFinalAllActive(E);
    AscendingSorted(E, |c.d.nodes|);
    var entered := Ascending(E, |c.d.nodes|);
    NestedFinalCompleted(entered);
    NestedNotInFinal(E);
    DoneEventsHas(c.d, Completed(c.d, {}, entered), 1);
    NestedNotStaged(entered);
  }

  lemma NestedNotStaged(entered: seq<Node>)
    requires IsTree(NestedFinalChart()) && AllInTree(NestedFinalChart(), entered) && |NestedFinalChart().nodes| == 7
    ensures var d := NestedFinalChart(); DoneEvent(d, 1) !in DoneEvents(d, Documented(d, {}, entered))
  {
    hide NestedFinalChart, IsTree, Documented, DoneEvents, DoneEvent;
    var d := NestedFinalChart();
    if DoneEvent(d, 1) in DoneEvents(d, Documented(d, {}, entered)) {
      DoneEventsNames(d, Documented(d, {}, entered), DoneEvent(d, 1));
      var p: Node :| p in Documented(d, {}, entered) && InTree(d, p) && DoneEvent(d, 1) == DoneEvent(d, p);
      NestedFinalIds(p);
      NestedNotDocumented({}, entered);
      assert false;
    }
  }

  lemma NestedFinalIds(p: Node)
    requires p < 7 && |NestedFinalChart().nodes| == 7
    requires DoneEvent(NestedFinalChart(), p) == DoneEvent(NestedFinalChart(), 1)
    ensures p == 1
  {
    var d := NestedFinalChart();
    assert DoneEvent(d, p)[|"done.state."|..] == d.nodes[p].id && DoneEvent(d, 1)[|"done.state."|..] == "p";
  }

  lemma {:induction false} DoneEventsHas(d: Definition, q: seq<Node>, n: Node)
    requires n in q && InTree(d, n)
    ensures DoneEvent(d, n) in DoneEvents(d, q)
    decreases |q|
  {
    if q[0] == n {
    } else {
      DoneEventsHas(d, q[1..], n);
    }
  }

  /** Entering the last final, with all others active, completes both its region and the parallel. */
  lemma NestedFinalCompleted(entered: seq<Node>)
    requires IsTree(NestedFinalChart()) && AllInTree(NestedFinalChart(), entered) && StrictlyAscending(entered)
    requires Members(entered) == {0, 1, 2, 3, 4, 5, 6}
    ensures 1 in Completed(NestedFinalChart(), {}, entered)
  {
    hide NestedFinalChart, IsTree;
    NestedFinalFacts();
    var d := NestedFinalChart();
    assert forall n | n in entered :: n in Members(entered);
    assert 6 in Members(entered);
    AscendingLast(entered, 6);
    var all := Members(entered);
    assert {} + all == all;
    assert IsDescendant(d, 4, 2);
    assert 4 in all && HasFinalIn(d, 2, all);
    assert 6 in all && IsDescendant(d, 6, 5) && HasFinalIn(d, 5, all);
    assert AllRegionsFinal(d, 1, all);
    assert CompletedBy(d, 6, all) == [5] + [1];
  }

  lemma NestedNotInFinal(stage: set<Node>)
    requires IsTree(NestedFinalChart())
    ensures |NestedFinalChart().nodes| == 7 && !InFinalState(NestedFinalChart(), 2, stage)
    ensures !AllInFinalState(NestedFinalChart(), 1, stage)
  {
    hide NestedFinalChart, IsTree;
    NestedFinalFacts();
    assert 2 in Children(NestedFinalChart(), 1);
  }

  lemma {:induction false} NestedNotDocumented(base: set<Node>, entered: seq<Node>)
    requires IsTree(NestedFinalChart()) && AllInTree(NestedFinalChart(), entered)
    ensures 1 !in Documented(NestedFinalChart(), base, entered)
    decreases |entered|
  {
    hide NestedFinalChart, IsTree, DocumentedBy;
    if entered == [] {
    } else {
      var last := |entered| - 1;
      assert entered[last] in entered;
      forall n | n in entered[..last] ensures n in entered { }
      NestedNotDocumented(base, entered[..last]);
      NestedDocumentedBy(entered[last], base + Members(entered));
    }
  }

  lemma NestedDocumentedBy(s: Node, stage: set<Node>)
    requires IsTree(NestedFinalChart()) && InTree(NestedFinalChart(), s)
    ensures 1 !in DocumentedBy(NestedFinalChart(), s, stage)
  {
    hide NestedFinalChart, IsTree, AllInFinalState;
    NestedFinalFacts();
    NestedNotInFinal(stage);
  }

  lemma NestedFinalWellFormed()
    ensures WellFormed(NestedFinalChart())
  {
    hide NestedFinalChart;
    NestedFinalFacts();
    NestedFinalIsTree();
    NestedFinalPreOrder();
    var d := NestedFinalChart();
    assert forall n: Node | n < 7 :: NodeShapeOk(d, n) && EdgesOk(d, n);
  }

  lemma NestedFinalPreOrder()
    requires IsTree(NestedFinalChart())
    ensures IsPreOrder(NestedFinalChart())
  {
    hide NestedFinalChart, IsTree;
    NestedFinalFacts();
    var d := NestedFinalChart();
    forall a: Node, b: Node, c: Node | a < b < c && IsDescendant(d, c, a) ensures IsDescendant(d, b, a) {
      assert c < 7;
    }
    assert forall n: Node | n < 7 :: ChildrenOrdered(d, n);
  }

  /** The chart has one legal configuration: everything is active. */
  lemma NestedFinalAllActive(cfg: set<Node>)
    requires Legal(NestedFinalChart(), cfg)
    ensures cfg == {0, 1, 2, 3, 4, 5, 6}
  {
    hide NestedFinalChart;
    NestedFinalFacts();
    var d := NestedFinalChart();
    assert NodeFilled(d, cfg, 0);
    assert 1 in cfg;
    assert NodeFilled(d, cfg, 1);
    assert 2 in cfg && 5 in cfg;
    assert NodeFilled(d, cfg, 2) && NodeFilled(d, cfg, 5);
    assert 3 in cfg && 6 in cfg;
    assert NodeFilled(d, cfg, 3);
  }

  lemma NestedFinalIsTree()
    ensures IsTree(NestedFinalChart())
  {
    hide NestedFinalChart;
    NestedFinalFacts();
  }
}
