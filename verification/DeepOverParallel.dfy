/** Deep history over a parallel: a run of the interpreter that starts in a legal
    configuration and ends in one that is not. */
module DeepOverParallel {
  import opened Definitions
  import opened Configurations
  import opened Entry
  import opened Growth
  import opened Selection
  import opened Microsteps
  import opened Histories
  import opened Engines
  import opened HistoryRuns
  import opened SmallCharts

  /** A compound C over a parallel of two regions, with a deep history H: root 0, C 1,
      parallel 2, regions 3 (4, 5) and 6 (7, 8), H 9, and a state D 10 outside.  The edges
      move each region to its second state, leave C for D, and return from D to H. */
  function DeepChart(): Definition
  {
    Definition("m", [
      Plain("", Compound, None, [1, 10], Some(1), [], 0),
      Plain("c", Compound, Some(0), [2, 9], Some(2), [Edge(1, "out", 10)], 1),
      Plain("c.p", Parallel, Some(1), [3, 6], None, [], 2),
      Plain("c.p.r", Compound, Some(2), [4, 5], Some(4), [], 3),
      Plain("c.p.r.a", Atomic, Some(3), [], None, [Edge(4, "r", 5)], 4),
      Plain("c.p.r.b", Atomic, Some(3), [], None, [], 5),
      Plain("c.p.s", Compound, Some(2), [7, 8], Some(7), [], 6),
      Plain("c.p.s.a", Atomic, Some(6), [], None, [Edge(7, "s", 8)], 7),
      Plain("c.p.s.b", Atomic, Some(6), [], None, [], 8),
      Plain("c.h", History, Some(1), [], None, [], 9).(historyKind := Deep, historyTo := [2]),
      Plain("d", Atomic, Some(0), [], None, [Edge(10, "back", 9)], 10)], 0, 0)
  }

  /** Both regions in their first state, the first region in its second, both, and D. */
  const FIRST_BOTH: set<Node> := {0, 1, 2, 3, 4, 6, 7}
  const SECOND_FIRST: set<Node> := {0, 1, 2, 3, 5, 6, 7}
  const SECOND_BOTH: set<Node> := {0, 1, 2, 3, 5, 6, 8}
  const OUTSIDE: set<Node> := {0, 10}

  // ------------------------------------------------------------------ the chart

  lemma ChartTree()
    ensures var d := DeepChart();
            && |d.nodes| == 11
            && Parent(d, 0) == None && Parent(d, 1) == Parent(d, 10) == Some(0)
              && Parent(d, 2) == Parent(d, 9) == Some(1)
            && Parent(d, 3) == Parent(d, 6) == Some(2) && Parent(d, 4) == Parent(d, 5) == Some(3)
            && Parent(d, 7) == Parent(d, 8) == Some(6)
            && Children(d, 0) == [1, 10] && Children(d, 1) == [2, 9] && Children(d, 2) == [3, 6]
            && Children(d, 3) == [4, 5] && Children(d, 6) == [7, 8]
            && Children(d, 4) == Children(d, 5) == Children(d, 7) == []
            && Children(d, 8) == Children(d, 9) == Children(d, 10) == []
            && (forall n: Node | n < 11 :: d.nodes[n].docOrder == n)
  {
  }

  lemma ChartKinds()
    ensures var d := DeepChart();
            && |d.nodes| == 11
            && Kind(d, 0) == Kind(d, 1) == Kind(d, 3) == Kind(d, 6) == Compound && Kind(d, 2) == Parallel
              && Kind(d, 9) == History
            && Kind(d, 4) == Kind(d, 5) == Kind(d, 7) == Kind(d, 8) == Kind(d, 10) == Atomic
            && d.nodes[0].initial == Some(1) && d.nodes[1].initial == Some(2)
            && d.nodes[3].initial == Some(4) && d.nodes[6].initial == Some(7)
            && d.nodes[9].historyKind == Deep && d.nodes[9].historyTo == [2]
  {
  }

  lemma ChartEdges()
    ensures var d := DeepChart();
            && |d.nodes| == 11 && (forall n: Node | n < 11 :: d.nodes[n].invokes == [])
            && d.nodes[1].transitions == [Edge(1, "out", 10)] && d.nodes[4].transitions == [Edge(4, "r", 5)]
            && d.nodes[7].transitions == [Edge(7, "s", 8)] && d.nodes[10].transitions == [Edge(10, "back", 9)]
            && (forall n: Node | n < 11 && n != 1 && n != 4 && n != 7 && n != 10 :: d.nodes[n].transitions == [])
  {
  }

  lemma ChartIsTree()
    ensures IsTree(DeepChart())
  {
    hide DeepChart;
    ChartTree();
    var d := DeepChart();
    assert forall n: Node | 0 < n < 11 ::
           Parent(d, n).Some? && Parent(d, n).value < n && n in Children(d, Parent(d, n).value);
  }

  /** Who lies below whom. */
  lemma ChartBelow()
    ensures var d := DeepChart();
            && IsTree(d)
            && (forall n: Node :: IsDescendant(d, n, 0) <==> 0 < n < 11)
            && (forall n: Node :: IsDescendant(d, n, 1) <==> 1 < n < 10)
            && (forall n: Node :: IsDescendant(d, n, 2) <==> 2 < n < 9)
            && (forall n: Node :: IsDescendant(d, n, 3) <==> n == 4 || n == 5)
            && (forall n: Node :: IsDescendant(d, n, 6) <==> n == 7 || n == 8)
  {
    hide DeepChart, IsTree;
    ChartIsTree();
    ChartTree();
    var d := DeepChart();
    assert forall n: Node | IsDescendant(d, n, 0) || IsDescendant(d, n, 1) || IsDescendant(d, n, 2) :: n < 11;
    assert IsDescendant(d, 2, 0) && IsDescendant(d, 2, 1);
    assert IsDescendant(d, 3, 0) && IsDescendant(d, 3, 1) && IsDescendant(d, 6, 0) && IsDescendant(d, 6, 1);
    assert !IsDescendant(d, 0, 1) && !IsDescendant(d, 1, 1) && !IsDescendant(d, 10, 1);
    assert !IsDescendant(d, 0, 2) && !IsDescendant(d, 1, 2) && !IsDescendant(d, 2, 2) && !IsDescendant(d, 9, 2)
           && !IsDescendant(d, 10, 2);
    assert !IsDescendant(d, 2, 3) && !IsDescendant(d, 2, 6) && !IsDescendant(d, 1, 3) && !IsDescendant(d, 1, 6);
    assert !IsDescendant(d, 3, 3) && !IsDescendant(d, 6, 3) && !IsDescendant(d, 3, 6) && !IsDescendant(d, 6, 6);
  }

  /** Nodes that are below nothing but the nodes above. */
  lemma LeavesAbove()
    ensures var d := DeepChart();
            IsTree(d) && forall a: Node, n: Node | IsDescendant(d, n, a) ::
              a == 0 || a == 1 || a == 2 || a == 3 || a == 6
  {
    hide DeepChart, IsTree;
    ChartIsTree();
    ChartTree();
    var d := DeepChart();
    forall a: Node, n: Node | IsDescendant(d, n, a) ensures a == 0 || a == 1 || a == 2 || a == 3 || a == 6 {
      var c := ChildTowards(d, n, a);
      DescendantAfter(d, n, a);
      assert Children(d, a) != [];
    }
  }

  lemma ChartShaped()
    ensures IsTree(DeepChart()) && forall n: Node | n < 11 :: n < |DeepChart().nodes| && NodeShapeOk(DeepChart(), n)
  {
    hide DeepChart, IsTree;
    ChartIsTree();
    ChartTree();
    ChartKinds();
    var d := DeepChart();
    assert 1 in Children(d, 0) && 2 in Children(d, 1) && 4 in Children(d, 3) && 7 in Children(d, 6);
  }

  lemma ChartOrdered()
    ensures IsTree(DeepChart()) && IsPreOrder(DeepChart())
  {
    hide DeepChart, IsTree, IsDescendant;
    ChartIsTree();
    ChartTree();
    ChartBelow();
    LeavesAbove();
    var d := DeepChart();
    assert forall p: Node | p < 11 :: ChildrenOrdered(d, p);
  }

  lemma ChartEdgesOk()
    ensures |DeepChart().nodes| == 11 && forall n: Node | n < 11 :: EdgesOk(DeepChart(), n)
  {
    hide DeepChart;
    ChartEdges();
  }

  lemma ChartWellFormed()
    ensures WellFormed(DeepChart()) && NoFinals(DeepChart())
  {
    hide DeepChart, IsTree, NodeShapeOk, EdgesOk, IsPreOrder;
    ChartIsTree();
    ChartTree();
    ChartKinds();
    ChartShaped();
    ChartOrdered();
    ChartEdgesOk();
  }

  lemma ChartEvented()
    ensures var d := DeepChart();
            && |d.nodes| == 11
            && EventedEdges(d.nodes[1]) == [Edge(1, "out", 10)] && EventedEdges(d.nodes[4]) == [Edge(4, "r", 5)]
            && EventedEdges(d.nodes[7]) == [Edge(7, "s", 8)] && EventedEdges(d.nodes[10]) == [Edge(10, "back", 9)]
            && (forall n: Node | n < 11 && n != 1 && n != 4 && n != 7 && n != 10 :: EventedEdges(d.nodes[n]) == [])
  {
    hide DeepChart;
    ChartEdges();
  }

  lemma ChartIsEdge(t: Transition)
    ensures IsEdge(DeepChart(), t)
       <==> t == Edge(1, "out", 10) || t == Edge(4, "r", 5) || t == Edge(7, "s", 8) || t == Edge(10, "back", 9)
  {
    hide DeepChart, EventedEdges;
    ChartEvented();
  }

  /** Every event has one edge that reacts to it. */
  lemma ChartReacts()
    ensures var d := DeepChart();
            && NothingEventless(d)
            && OnlyEdgeFor(d, "r", Edge(4, "r", 5)) && OnlyEdgeFor(d, "s", Edge(7, "s", 8))
            && OnlyEdgeFor(d, "out", Edge(1, "out", 10)) && OnlyEdgeFor(d, "back", Edge(10, "back", 9))
  {
    hide DeepChart, IsEdge;
    forall t: Transition
      ensures IsEdge(DeepChart(), t) <==>
                t == Edge(1, "out", 10) || t == Edge(4, "r", 5) || t == Edge(7, "s", 8) || t == Edge(10, "back", 9)
    {
      ChartIsEdge(t);
    }
  }

  // ------------------------------------------------------------------ the run

  /** The chart starts with both regions in their first state. */
  lemma Starts(c: Chart, ctx: Ctx)
    requires c.d == DeepChart()
    ensures WellFormed(c.d) && Idle(c, Started(c, ctx)) && Started(c, ctx).cfg == FIRST_BOTH
            && Started(c, ctx).hist == map[]
  {
    hide DeepChart, WellFormed, Legal, Rooted, EntryReady, Runnable, Started, IsTree, FIRST_BOTH;
    ChartWellFormed();
    StartedIdle(c, ctx);
    ChartDefault();
  }

  lemma ChartDefault()
    requires WellFormed(DeepChart()) && EntryReady(DeepChart(), map[])
    ensures AddDescendants(DeepChart(), map[], ROOT, {}) == FIRST_BOTH
  {
    hide DeepChart, WellFormed, IsTree;
    ChartIsTree();
    ChartTree();
    ChartKinds();
    var d := DeepChart();
    InitialOnly(d, map[], 3, 4, {0, 1, 2});
    assert AddDescendants(d, map[], 3, {0, 1, 2}) == {0, 1, 2, 3, 4};
    InitialOnly(d, map[], 6, 7, {0, 1, 2, 3, 4});
    assert AddDescendants(d, map[], 6, {0, 1, 2, 3, 4}) == FIRST_BOTH;
    ChartRegions();
    InitialOnly(d, map[], 1, 2, {0});
    InitialOnly(d, map[], 0, 1, {});
    assert {} + {0} == {0} && {0} + {1} == {0, 1} && {0, 1} + {2} == {0, 1, 2};
  }

  lemma ChartRegions()
    requires IsTree(DeepChart()) && EntryReady(DeepChart(), map[])
    requires AddDescendants(DeepChart(), map[], 3, {0, 1, 2}) == {0, 1, 2, 3, 4}
    requires AddDescendants(DeepChart(), map[], 6, {0, 1, 2, 3, 4}) == FIRST_BOTH
    ensures AddRegions(DeepChart(), map[], 2, [3, 6], {0, 1, 2}) == FIRST_BOTH
  {
    hide DeepChart, IsTree, EntryReady, AddDescendants;
    ChartTree();
    var d := DeepChart();
    assert !HasDescendantInSet(d, 4, {0, 1, 2}) && !HasDescendantInSet(d, 5, {0, 1, 2});
    assert !HasDescendantInSet(d, 3, {0, 1, 2});
    assert !HasDescendantInSet(d, 7, {0, 1, 2, 3, 4}) && !HasDescendantInSet(d, 8, {0, 1, 2, 3, 4});
    assert !HasDescendantInSet(d, 6, {0, 1, 2, 3, 4});
    assert [3, 6][1..] == [6] && [6][1..] == [];
  }

  /** A region moves to its second state. */
  lemma RegionMoves(d: Definition, cfg: set<Node>, t: Transition, r: Node)
    requires d == DeepChart() && IsTree(d) && EntryReady(d, map[]) && EndsInTree(d, t)
    requires (t == Edge(4, "r", 5) && r == 3) || (t == Edge(7, "s", 8) && r == 6)
    ensures ExitSetOf(d, cfg, t) == set n | n in cfg && (n == t.source || n == t.targets[0])
    ensures EntrySetOf(d, map[], [t]) == {t.targets[0]}
  {
    hide DeepChart, IsTree, EntryReady;
    ChartTree();
    ChartKinds();
    ChartBelow();
    LccaIsLeast(d, t.source, t.targets);
    assert Domain(d, t) == Some(r);
    LeafHop(d, map[], t, t.targets[0]);
  }

  lemma LeavesForOutside(d: Definition, cfg: set<Node>, t: Transition)
    requires d == DeepChart() && IsTree(d) && EntryReady(d, map[]) && EndsInTree(d, t) && t == Edge(1, "out", 10)
    ensures ExitSetOf(d, cfg, t) == set n | n in cfg && 0 < n < 11
    ensures EntrySetOf(d, map[], [t]) == {10}
  {
    hide DeepChart, IsTree, EntryReady;
    ChartTree();
    ChartKinds();
    ChartBelow();
    assert Domain(d, t) == Some(0);
    LeafHop(d, map[], t, 10);
  }

  /** The three events that lead away: both regions move on, then C is left. */
  lemma RunsAway(c: Chart, s: State, r: Payload)
    requires c.d == DeepChart() && WellFormed(c.d) && Idle(c, s) && s.cfg == FIRST_BOTH && s.hist == map[]
    ensures var moves := [Offer(Queued("r", r)), Take] + [Offer(Queued("s", r)), Take]
                           + [Offer(Queued("out", r)), Take];
            var s3 := Exec(c, s, moves);
            Idle(c, s3) && s3.cfg == OUTSIDE && s3.hist == map[9 := [5, 8]]
  {
    hide DeepChart, WellFormed, Idle, FIRST_BOTH, SECOND_FIRST, SECOND_BOTH, OUTSIDE, Exec;
    IdleRuns(c, s);
    var a, b, e := [Offer(Queued("r", r)), Take], [Offer(Queued("s", r)), Take], [Offer(Queued("out", r)), Take];
    var s1 := Exec(c, s, a);
    FirstMoves(c, s, r);
    IdleRuns(c, s1);
    var s2 := Exec(c, s1, b);
    SecondMoves(c, s1, r);
    IdleRuns(c, s2);
    LeavesC(c, s2, r);
    ExecAppend(c, s, a + b, e);
    ExecAppend(c, s, a, b);
  }

  lemma IdleRuns(c: Chart, s: State)
    requires Idle(c, s)
    ensures Runnable(c, s)
  {
  }

  /** One event of this chart, taken from an idle state without records. */
  lemma Hops(c: Chart, s: State, event: string, t: Transition, r: Payload)
    requires c.d == DeepChart() && WellFormed(c.d) && Idle(c, s) && s.hist == map[]
    requires OnlyEdgeFor(c.d, event, t) && t.source in s.cfg && !RootEdge(t)
    ensures Runnable(c, s) && IsTree(c.d) && EntryReady(c.d, map[]) && EndsInTree(c.d, t)
    ensures var s1 := Exec(c, s, [Offer(Queued(event, r)), Take]);
            && Idle(c, s1) && Took(c, s, t, s1)
            && s1.cfg == (s.cfg - ExitSetOf(c.d, s.cfg, t)) + EntrySetOf(c.d, map[], [t])
  {
    hide DeepChart, WellFormed, Legal, Rooted, IsTree, NoFinals, NothingEventless, Exec;
    IdleRuns(c, s);
    StartEnters(c);
    ChartWellFormed();
    ChartReacts();
    RunnableTree(c, s);
    OneEvent(c, s, Queued(event, r), t);
    IdleAgain(c, s, t, Exec(c, s, [Offer(Queued(event, r)), Take]));
    OneExitSet(c.d, s.cfg, t);
  }

  lemma FirstMoves(c: Chart, s: State, r: Payload)
    requires c.d == DeepChart() && WellFormed(c.d) && Idle(c, s) && s.cfg == FIRST_BOTH && s.hist == map[]
    ensures var s1 := Exec(c, s, [Offer(Queued("r", r)), Take]);
            Idle(c, s1) && s1.cfg == SECOND_FIRST && s1.hist == map[]
  {
    hide DeepChart, WellFormed, Idle, Runnable, IsTree, OnlyEdgeFor, Exec, ExitSetOf, EntrySetOf, EntryReady,
         EndsInTree;
    var t := Edge(4, "r", 5);
    ChartReacts();
    Hops(c, s, "r", t, r);
    RegionMoves(c.d, s.cfg, t, 3);
    NothingRecorded(c.d, s.cfg, t);
    assert Exec(c, s, [Offer(Queued("r", r)), Take]).hist == map[];
    assert (FIRST_BOTH - {4}) + {5} == SECOND_FIRST;
  }

  lemma NothingRecorded(d: Definition, cfg: set<Node>, t: Transition)
    requires d == DeepChart() && IsTree(d) && 1 !in ExitSetOf(d, cfg, t)
    ensures forall h: Node :: !HistoryOfExit(d, cfg, t, h)
  {
    hide DeepChart, IsTree, ExitSetOf;
    ChartTree();
    ChartKinds();
  }

  lemma SecondMoves(c: Chart, s: State, r: Payload)
    requires c.d == DeepChart() && WellFormed(c.d) && Idle(c, s) && s.cfg == SECOND_FIRST && s.hist == map[]
    ensures var s1 := Exec(c, s, [Offer(Queued("s", r)), Take]);
            Idle(c, s1) && s1.cfg == SECOND_BOTH && s1.hist == map[]
  {
    hide DeepChart, WellFormed, Idle, Runnable, IsTree, OnlyEdgeFor, Exec, ExitSetOf, EntrySetOf, EntryReady,
         EndsInTree;
    var t := Edge(7, "s", 8);
    ChartReacts();
    Hops(c, s, "s", t, r);
    RegionMoves(c.d, s.cfg, t, 6);
    NothingRecorded(c.d, s.cfg, t);
    assert Exec(c, s, [Offer(Queued("s", r)), Take]).hist == map[];
    assert (SECOND_FIRST - {7}) + {8} == SECOND_BOTH;
  }

  lemma LeavesC(c: Chart, s: State, r: Payload)
    requires c.d == DeepChart() && WellFormed(c.d) && Idle(c, s) && s.cfg == SECOND_BOTH && s.hist == map[]
    ensures var s1 := Exec(c, s, [Offer(Queued("out", r)), Take]);
            Idle(c, s1) && s1.cfg == OUTSIDE && s1.hist == map[9 := [5, 8]]
  {
    hide DeepChart, WellFormed, Idle, Runnable, IsTree, OnlyEdgeFor, Exec, ExitSetOf, EntrySetOf, EntryReady,
         EndsInTree, Recorded;
    var t := Edge(1, "out", 10);
    ChartReacts();
    Hops(c, s, "out", t, r);
    LeavesForOutside(c.d, s.cfg, t);
    RecordsBoth();
    RecordsNine(c.d, s.cfg, t);
    assert Exec(c, s, [Offer(Queued("out", r)), Take]).hist == map[9 := [5, 8]];
    assert (SECOND_BOTH - {1, 2, 3, 5, 6, 8}) + {10} == OUTSIDE;
  }

  lemma RecordsNine(d: Definition, cfg: set<Node>, t: Transition)
    requires d == DeepChart() && IsTree(d) && 1 in ExitSetOf(d, cfg, t)
    ensures forall h: Node :: HistoryOfExit(d, cfg, t, h) <==> h == 9
    ensures InTree(d, 9) && Parent(d, 9) == Some(1)
  {
    hide DeepChart, IsTree, ExitSetOf;
    ChartTree();
    ChartKinds();
  }

  lemma RecordsBoth()
    requires IsTree(DeepChart())
    ensures InTree(DeepChart(), 9) && InTree(DeepChart(), 1) && Recorded(DeepChart(), SECOND_BOTH, 1, 9) == [5, 8]
  {
    hide DeepChart, IsTree, IsDescendant, LeavesBelow, AllActive;
    ChartTree();
    ChartKinds();
    ChartBelow();
    var d := DeepChart();
    RecordsLeaves(d, SECOND_BOTH, 1);
    SortedUnique(LeavesBelow(d, AllActive(d, SECOND_BOTH), 1), [5, 8]);
  }

  // ------------------------------------------------------------------ the return

  lemma ReturnReady()
    requires IsTree(DeepChart())
    ensures EntryReady(DeepChart(), map[9 := [5, 8]])
    ensures InTree(DeepChart(), 9) && Restorable(DeepChart(), 9, 5) && Restorable(DeepChart(), 9, 8)
  {
    hide DeepChart, IsTree, IsDescendant;
    ChartTree();
    ChartKinds();
    ChartBelow();
    var d := DeepChart();
    assert 1 in Children(d, 0) && 2 in Children(d, 1) && 4 in Children(d, 3) && 7 in Children(d, 6);
  }

  /** Climbing from the first recorded leaf enters the other region by default, at 7. */
  lemma ClimbFrom5(hist: Hist)
    requires IsTree(DeepChart()) && EntryReady(DeepChart(), hist)
    ensures InTree(DeepChart(), 5) && InTree(DeepChart(), 1) && IsDescendant(DeepChart(), 5, 1)
    ensures AddAncestors(DeepChart(), hist, 5, Some(1), {5}) == {5, 3, 2, 6, 7}
  {
    hide DeepChart, IsTree, EntryReady;
    ChartTree();
    ChartKinds();
    var d := DeepChart();
    assert IsDescendant(d, 2, 1) && IsDescendant(d, 3, 1);
    var E: set<Node> := {5, 3, 2};
    InitialOnly(d, hist, 6, 7, E);
    assert AddDescendants(d, hist, 6, E) == {5, 3, 2, 6, 7};
    OtherRegion(hist, E);
    assert AddAncestors(d, hist, 2, Some(1), {5, 3, 2, 6, 7}) == {5, 3, 2, 6, 7};
    assert {5} + {3} == {5, 3} && {5, 3} + {2} == E;
    assert StepUp(d, hist, 3, {5}) == {5, 3} && StepUp(d, hist, 2, {5, 3}) == {5, 3, 2, 6, 7};
    ClimbUnfold(d, hist, 5, 1, {5});
    ClimbUnfold(d, hist, 3, 1, {5, 3});
  }

  lemma OtherRegion(hist: Hist, E: set<Node>)
    requires IsTree(DeepChart()) && EntryReady(DeepChart(), hist) && E == {5, 3, 2}
    requires InTree(DeepChart(), 6) && InTree(DeepChart(), 2)
             && AddDescendants(DeepChart(), hist, 6, E) == {5, 3, 2, 6, 7}
    requires Children(DeepChart(), 2) == [3, 6]
    ensures AddRegions(DeepChart(), hist, 2, [3, 6], E) == {5, 3, 2, 6, 7}
  {
    hide DeepChart, IsTree, EntryReady, AddDescendants;
    ChartTree();
    var d := DeepChart();
    assert HasDescendantInSet(d, 3, E);
    assert !HasDescendantInSet(d, 7, E) && !HasDescendantInSet(d, 8, E);
    assert !HasDescendantInSet(d, 6, E);
    assert [3, 6][1..] == [6] && [6][1..] == [];
  }

  /** So the second recorded leaf is not among what restoring the first one enters, and it is
      added to a region that is occupied. */
  lemma RestoresTooMuch(hist: Hist)
    requires WellFormed(DeepChart()) && EntryReady(DeepChart(), hist) && hist == map[9 := [5, 8]]
    requires InTree(DeepChart(), 9) && Kind(DeepChart(), 9) == History
    ensures !Closes(DeepChart(), hist, 9, {})
    ensures {7, 8} <= AddDescendants(DeepChart(), hist, 9, {})
  {
    hide DeepChart, WellFormed, IsTree, EntryReady;
    ChartIsTree();
    ChartTree();
    ChartKinds();
    ReturnReady();
    ClimbFrom5(hist);
    var d := DeepChart();
    FirstClimbIs(d, hist, 9, {});
    assert AddDescendants(d, hist, 5, {}) == {5};
    assert FirstClimb(d, hist, 9, {}) == {5, 3, 2, 6, 7};
    assert RestoreOf(d, hist, 9)[1..] == [8] && 8 in [8];
    FirstIsWithin(d, hist, 9, {});
    EntersRestored(d, hist, 9, {});
    RestoredHolds(d, hist, 9, [5, 8], {});
    assert 8 in [5, 8];
  }

  /** The transition back enters everything that entering H does. */
  lemma ReturnEntersBoth(hist: Hist)
    requires WellFormed(DeepChart()) && EntryReady(DeepChart(), hist) && hist == map[9 := [5, 8]]
    requires EndsInTree(DeepChart(), Edge(10, "back", 9))
    ensures {7, 8} <= EntrySetOf(DeepChart(), hist, [Edge(10, "back", 9)])
  {
    hide DeepChart, WellFormed, IsTree, EntryReady, Closes;
    ChartIsTree();
    ChartTree();
    ChartKinds();
    ChartBelow();
    RestoresTooMuch(hist);
    var d, t := DeepChart(), Edge(10, "back", 9);
    assert Domain(d, t) == Some(0);
    SingleTarget(d, hist, t, 9, 0, {});
    AncestorsGrow(d, hist, 9, Some(0), AddDescendants(d, hist, 9, {}));
    OneEntrySet(d, hist, t);
  }

  function Story(r: Payload): seq<Move>
  {
    [Offer(Queued("r", r)), Take] + [Offer(Queued("s", r)), Take]
    + [Offer(Queued("out", r)), Take] + [Offer(Queued("back", r)), Take]
  }

  /** Started, moved on in both regions, left and re-entered through deep history, the chart
      has two states of one region active. */
  lemma DeepOverParallelBreaksLegality(c: Chart, ctx: Ctx, r: Payload)
    requires c.d == DeepChart()
    ensures WellFormed(c.d) && Runnable(c, Started(c, ctx)) && Legal(c.d, Started(c, ctx).cfg)
    ensures var cfg := Exec(c, Started(c, ctx), Story(r)).cfg; 7 in cfg && 8 in cfg && !Legal(c.d, cfg)
  {
    hide DeepChart, WellFormed, Runnable, IsTree, Started, Exec, Legal, OnlyEdgeFor, EntryReady, NoFinals,
         NothingEventless;
    Starts(c, ctx);
    ChartWellFormed();
    ChartReacts();
    var s0, back := Started(c, ctx), [Offer(Queued("back", r)), Take];
    var away := [Offer(Queued("r", r)), Take] + [Offer(Queued("s", r)), Take] + [Offer(Queued("out", r)), Take];
    RunsAway(c, s0, r);
    var s3 := Exec(c, s0, away);
    ExecAppend(c, s0, away, back);
    IdleRuns(c, s3);
    OneEvent(c, s3, Queued("back", r), Edge(10, "back", 9));
    RecordsReady(c, s3);
    ReturnEntersBoth(s3.hist);
    BothActive(c, Exec(c, s3, back));
  }

  lemma RecordsReady(c: Chart, s: State)
    requires Runnable(c, s)
    ensures IsTree(c.d) && EntryReady(c.d, s.hist) && Rooted(c.d, s.cfg)
  {
  }

  lemma BothActive(c: Chart, s: State)
    requires c.d == DeepChart() && Runnable(c, s) && 7 in s.cfg && 8 in s.cfg
    ensures !Legal(c.d, s.cfg)
  {
    hide DeepChart, Legal;
    ChartTree();
    ChartKinds();
    assert Parent(c.d, 7) == Some(6);
    assert 7 in Children(c.d, 6) && 8 in Children(c.d, 6);
    TwoActiveChildren(c.d, s.cfg, 6, 7, 8);
  }
}
