/** Completion (microstep.go: the final states in apply, allRegionsFinal): how often a
    microstep completes a parallel, and when the code completes what the documentation says. */
module Completions {
  import opened Definitions
  import opened Configurations
  import opened Entry
  import opened Growth
  import opened Staging

  // ------------------------------------------------------------------ how often a parallel completes

  /** f is a final child of p. */
  predicate ChildFinal(d: Definition, p: Node, f: Node)
  {
    InTree(d, f) && Kind(d, f) == Final && Parent(d, f) == Some(p)
  }

  /** f is a final child of a region of p. */
  predicate RegionFinal(d: Definition, p: Node, f: Node)
    requires IsTree(d)
  {
    && InTree(d, f) && Kind(d, f) == Final
    && Parent(d, f).Some? && Parent(d, Parent(d, f).value) == Some(p)
  }

  /** How many of the entered nodes are final children of p. */
  function ChildFinals(d: Definition, p: Node, entered: seq<Node>): nat
  {
    if entered == [] then 0
    else ChildFinals(d, p, entered[..|entered| - 1]) + (if ChildFinal(d, p, entered[|entered| - 1]) then 1 else 0)
  }

  /** The place just behind the last entered final child of a region of p, or 0. */
  function BehindLastFinal(d: Definition, p: Node, entered: seq<Node>): (k: nat)
    requires IsTree(d)
    ensures k <= |entered| && (k > 0 ==> RegionFinal(d, p, entered[k - 1]))
    ensures forall i | k <= i < |entered| :: !RegionFinal(d, p, entered[i])
  {
    if entered == [] then 0
    else if RegionFinal(d, p, entered[|entered| - 1]) then |entered|
    else BehindLastFinal(d, p, entered[..|entered| - 1])
  }

  /** When the last final child of a region is entered, every region has an active final. */
  predicate CompletesInTime(d: Definition, p: Node, base: set<Node>, entered: seq<Node>)
    requires IsTree(d) && InTree(d, p)
  {
    var k := BehindLastFinal(d, p, entered);
    k > 0 && AllRegionsFinal(d, p, base + Members(entered[..k]))
  }

  /** The regions of p whose children can be final are compound. */
  predicate CompoundRegions(d: Definition, p: Node)
    requires IsTree(d)
  {
    forall f: Node | f < |d.nodes| && RegionFinal(d, p, f) :: Kind(d, Parent(d, f).value) == Compound
  }

  /** How many nodes are entered until every region of p has an active final: none if they
      have one to begin with, and more than there are if they never do. */
  function UntilAllFinal(d: Definition, p: Node, base: set<Node>, entered: seq<Node>): (k: nat)
    requires IsTree(d) && InTree(d, p)
    ensures k <= |entered| + 1
    ensures forall j | 0 <= j <= |entered| :: AllRegionsFinal(d, p, base + Members(entered[..j])) <==> k <= j
  {
    if entered == [] then
      assert base + Members([]) == base;
      if AllRegionsFinal(d, p, base) then 0 else 1
    else
      var last := |entered| - 1;
      assert forall j | 0 <= j <= last :: entered[..last][..j] == entered[..j];
      assert entered[..|entered|] == entered;
      MoreEntered(d, p, base, entered);
      var k := UntilAllFinal(d, p, base, entered[..last]);
      if k <= last || AllRegionsFinal(d, p, base + Members(entered)) then k else |entered| + 1
  }

  lemma MoreEntered(d: Definition, p: Node, base: set<Node>, entered: seq<Node>)
    requires IsTree(d) && InTree(d, p) && entered != []
    ensures AllRegionsFinal(d, p, base + Members(entered[..|entered| - 1]))
            ==> AllRegionsFinal(d, p, base + Members(entered))
  {
    var before := entered[..|entered| - 1];
    assert forall n | n in Members(before) :: n in entered;
    MoreFinal(d, p, base + Members(before), base + Members(entered));
  }

  /** How many final children of regions of p are entered from place `from` on. */
  function RegionFinals(d: Definition, p: Node, entered: seq<Node>, from: nat): nat
    requires IsTree(d)
  {
    if |entered| <= from then 0
    else
      RegionFinals(d, p, entered[..|entered| - 1], from) + if RegionFinal(d, p, entered[|entered| - 1]) then 1 else 0
  }

  /** How often a microstep completes a parallel: once for every entered final child of the
      parallel itself, and once for every entered final child of a region from the node on with
      which the last region gets an active final. */
  lemma {:induction false} ParallelCompletes(d: Definition, p: Node, base: set<Node>, entered: seq<Node>)
    requires WellFormed(d) && InTree(d, p) && Kind(d, p) == Parallel && AllInTree(d, entered)
    ensures var k := UntilAllFinal(d, p, base, entered);
            multiset(Completed(d, base, entered))[p]
            == ChildFinals(d, p, entered) + RegionFinals(d, p, entered, if k == 0 then 0 else k - 1)
    decreases |entered|
  {
    hide WellFormed, Completed, CompletedBy, AllRegionsFinal, RegionFinal, ChildFinals, BehindLastFinal;
    TreeInOrder(d);
    CompletionUnfold(d, p, base, entered);
    if entered == [] {
    } else {
      var last := |entered| - 1;
      ParallelCompletes(d, p, base, entered[..last]);
      CompletedByCounts(d, p, entered[last], base + Members(entered));
      assert entered[..|entered|] == entered && entered[..last][..last] == entered[..last];
    }
  }

  /** If finals are children of compound regions only it is completed at most once apart from
      its own finals: if every region has an active final by the time the last final child of
      a region is entered. */
  lemma {:induction false} CompoundCompletesOnce(d: Definition, p: Node, base: set<Node>, entered: seq<Node>,
                                             final: set<Node>)
    requires WellFormed(d) && InTree(d, p) && Kind(d, p) == Parallel && CompoundRegions(d, p) && Legal(d, final)
    requires AllInTree(d, entered) && StrictlyAscending(entered)
    requires base + Members(entered) <= final && base !! Members(entered)
    ensures multiset(Completed(d, base, entered))[p] ==
              ChildFinals(d, p, entered) + (if CompletesInTime(d, p, base, entered) then 1 else 0)
    decreases |entered|
  {
    hide WellFormed, Legal, Completed, CompletedBy, AllRegionsFinal, RegionFinal, CompoundRegions, ChildFinals,
         BehindLastFinal;
    TreeInOrder(d);
    CompletionUnfold(d, p, base, entered);
    if entered == [] {
    } else {
      var last := |entered| - 1;
      var s, before := entered[last], entered[..last];
      assert entered == before + [s];
      assert s in entered && forall n | n in before :: n in entered;
      assert Members(entered) == Members(before) + {s};
      CompoundCompletesOnce(d, p, base, before, final);
      CompletedByCounts(d, p, s, base + Members(entered));
      var k := BehindLastFinal(d, p, before);
      assert k <= last && entered[..k] == before[..k] && entered[..|entered|] == entered;
      if RegionFinal(d, p, s) {
        assert forall n | n in Members(before[..k]) :: n in before;
        assert s !in base + Members(before[..k]);
        NotAllFinalBefore(d, p, s, base + Members(before[..k]), final);
      }
    }
  }

  lemma CompletionUnfold(d: Definition, p: Node, base: set<Node>, entered: seq<Node>)
    requires IsTree(d) && InTree(d, p) && AllInTree(d, entered)
    ensures entered == [] ==>
              Completed(d, base, entered) == [] && ChildFinals(d, p, entered) == 0
                && BehindLastFinal(d, p, entered) == 0
    ensures entered != [] ==>
              var last := |entered| - 1;
              && InTree(d, entered[last]) && AllInTree(d, entered[..last])
              && Completed(d, base, entered)
                 == Completed(d, base, entered[..last]) + CompletedBy(d, entered[last], base + Members(entered))
              && ChildFinals(d, p, entered)
                 == ChildFinals(d, p, entered[..last]) + (if ChildFinal(d, p, entered[last]) then 1 else 0)
              && BehindLastFinal(d, p, entered)
                 == (if RegionFinal(d, p, entered[last]) then |entered| else BehindLastFinal(d, p, entered[..last]))
  {
    if entered != [] {
      assert entered[|entered| - 1] in entered;
      assert forall n | n in entered[..|entered| - 1] :: n in entered;
    }
  }

  lemma CompletedByCounts(d: Definition, p: Node, s: Node, stage: set<Node>)
    requires WellFormed(d) && InTree(d, p) && Kind(d, p) == Parallel && InTree(d, s)
    ensures multiset(CompletedBy(d, s, stage))[p] ==
              (if ChildFinal(d, p, s) then 1 else 0)
                + (if RegionFinal(d, p, s) && AllRegionsFinal(d, p, stage) then 1 else 0)
  {
    if Parent(d, s).Some? {
      var q := Parent(d, s).value;
      assert s in Children(d, q);
    }
  }

  /** As long as a final child of a region is not entered its region has no active final. */
  lemma NotAllFinalBefore(d: Definition, p: Node, s: Node, stage: set<Node>, final: set<Node>)
    requires WellFormed(d) && InTree(d, p) && CompoundRegions(d, p) && Legal(d, final)
    requires RegionFinal(d, p, s) && s !in stage && stage <= final && s in final
    ensures !AllRegionsFinal(d, p, stage)
  {
    var r := Parent(d, s).value;
    assert r in Children(d, p) && s in Children(d, r);
    if HasFinalIn(d, r, stage) {
      var n :| n in stage && InTree(d, n) && Kind(d, n) == Final && InSubtree(d, n, r);
      FinalBelowActiveChild(d, final, r, s, n);
    }
  }

  /** If the active child of a compound is final, no other final is active below it. */
  lemma FinalBelowActiveChild(d: Definition, cfg: set<Node>, r: Node, s: Node, n: Node)
    requires WellFormed(d) && Legal(d, cfg) && InTree(d, r) && Kind(d, r) == Compound
    requires s in Children(d, r) && s in cfg && InTree(d, s) && Kind(d, s) == Final
    requires n in cfg && InTree(d, n) && Kind(d, n) == Final && InSubtree(d, n, r)
    ensures n == s
  {
    Shape(d, s);
    var c := ChildTowards(d, n, r);
    if n != c { LegalUpward(d, cfg, n, c); }
    LegalUpward(d, cfg, s, r);
    LegalNode(d, cfg, r);
    assert c == s;
    if n != s { LeafHasNothingBelow(d, s); }
  }

  /** A parallel whose regions are compound, with finals only as direct region children. */
  predicate FlatFinals(d: Definition, p: Node)
    requires IsTree(d)
  {
    && 0 < p < |d.nodes| && Kind(d, p) == Parallel
    && (forall r | r in Children(d, p) :: InTree(d, r) && Kind(d, r) == Compound)
    && (forall f: Node | f < |d.nodes| && Kind(d, f) == Final && IsDescendant(d, f, p) :: RegionFinal(d, p, f))
  }

  predicate EntersFinalOf(d: Definition, p: Node, entered: seq<Node>)
    requires IsTree(d)
  {
    exists f | f in entered :: RegionFinal(d, p, f)
  }

  lemma MoreFinal(d: Definition, p: Node, a: set<Node>, b: set<Node>)
    requires IsTree(d) && InTree(d, p) && a <= b
    ensures AllRegionsFinal(d, p, a) ==> AllRegionsFinal(d, p, b)
  {
    if AllRegionsFinal(d, p, a) {
      forall r | r in Children(d, p) ensures HasFinalIn(d, r, b) {
        var n :| n in a && InTree(d, n) && Kind(d, n) == Final && InSubtree(d, n, r);
        assert n in b;
      }
    }
  }

  /** With finals only as direct children of compound regions: once if a final child of a
      region is entered and all regions are final afterwards, else not at all. */
  lemma FlatCompletesOnce(d: Definition, p: Node, base: set<Node>, entered: seq<Node>, final: set<Node>)
    requires WellFormed(d) && FlatFinals(d, p) && Legal(d, final)
    requires AllInTree(d, entered) && StrictlyAscending(entered)
    requires base + Members(entered) <= final && base !! Members(entered)
    ensures multiset(Completed(d, base, entered))[p]
         == if EntersFinalOf(d, p, entered) && AllRegionsFinal(d, p, base + Members(entered)) then 1 else 0
  {
    hide WellFormed, Legal, AllRegionsFinal, RegionFinal, CompoundRegions, Completed;
    TreeInOrder(d);
    FlatShape(d, p);
    NoChildFinals(d, p, entered);
    CompoundCompletesOnce(d, p, base, entered, final);
    var k := BehindLastFinal(d, p, entered);
    if k > 0 { assert entered[k - 1] in entered; }
    assert forall n | n in Members(entered[..k]) :: n in entered;
    MoreFinal(d, p, base + Members(entered[..k]), base + Members(entered));
    if AllRegionsFinal(d, p, base + Members(entered)) { FlatInTime(d, p, base, entered); }
  }

  lemma FlatInTime(d: Definition, p: Node, base: set<Node>, entered: seq<Node>)
    requires IsTree(d) && FlatFinals(d, p) && AllRegionsFinal(d, p, base + Members(entered))
    ensures AllRegionsFinal(d, p, base + Members(entered[..BehindLastFinal(d, p, entered)]))
  {
    var k := BehindLastFinal(d, p, entered);
    var early, late := base + Members(entered[..k]), base + Members(entered);
    forall r | r in Children(d, p) ensures HasFinalIn(d, r, early) {
      var n :| n in late && InTree(d, n) && Kind(d, n) == Final && InSubtree(d, n, r);
      FinalBelowRegion(d, p, r, n);
      if n !in base {
        var i :| 0 <= i < |entered| && entered[i] == n;
        assert i < k && entered[..k][i] == n;
      }
    }
  }

  lemma FlatShape(d: Definition, p: Node)
    requires IsTree(d) && FlatFinals(d, p)
    ensures InTree(d, p) && CompoundRegions(d, p) && forall f: Node :: !ChildFinal(d, p, f)
  {
    forall f: Node ensures !ChildFinal(d, p, f)
      && (f < |d.nodes| && RegionFinal(d, p, f) ==> Kind(d, Parent(d, f).value) == Compound) {
      if f < |d.nodes| && Parent(d, f).Some? { assert f in Children(d, Parent(d, f).value); }
      if f < |d.nodes| && RegionFinal(d, p, f) { assert Parent(d, f).value in Children(d, p); }
    }
  }

  lemma {:induction false} NoChildFinals(d: Definition, p: Node, entered: seq<Node>)
    requires forall f: Node :: !ChildFinal(d, p, f)
    ensures ChildFinals(d, p, entered) == 0
    decreases |entered|
  {
    if entered == [] {
    } else {
      NoChildFinals(d, p, entered[..|entered| - 1]);
    }
  }

  lemma FinalBelowRegion(d: Definition, p: Node, r: Node, n: Node)
    requires IsTree(d) && FlatFinals(d, p) && r in Children(d, p)
    requires InTree(d, n) && Kind(d, n) == Final && InSubtree(d, n, r)
    ensures RegionFinal(d, p, n)
  {
    assert IsDescendant(d, r, p);
    if n != r { DescendantTransitive(d, n, r, p); }
  }

  // ------------------------------------------------------------------ what it means that a region is final

  /** A region is in a final state: a final is its active child. */
  predicate ActiveChildFinal(d: Definition, r: Node, cfg: set<Node>)
    requires IsTree(d)
  {
    exists n | n in cfg :: InTree(d, n) && Kind(d, n) == Final && Parent(d, n) == Some(r)
  }

  /** A final is active deeper inside the region. */
  predicate NestedFinalActive(d: Definition, r: Node, cfg: set<Node>)
    requires IsTree(d)
  {
    exists n | n in cfg :: InTree(d, n) && Kind(d, n) == Final && IsDescendant(d, n, r) && Parent(d, n) != Some(r)
  }

  /** The code's test of a compound region, an active final anywhere in it, agrees with the
      documented one, a final as its active child, exactly when no nested final is active. */
  lemma RegionTestExactly(d: Definition, r: Node, cfg: set<Node>)
    requires WellFormed(d) && Legal(d, cfg) && InTree(d, r) && Kind(d, r) == Compound
    ensures (HasFinalIn(d, r, cfg) <==> ActiveChildFinal(d, r, cfg)) <==> !NestedFinalActive(d, r, cfg)
    ensures HasFinalIn(d, r, cfg) <==> ActiveChildFinal(d, r, cfg) || NestedFinalActive(d, r, cfg)
  {
    if ActiveChildFinal(d, r, cfg) {
      var s :| s in cfg && InTree(d, s) && Kind(d, s) == Final && Parent(d, s) == Some(r);
      assert s in Children(d, r) && IsDescendant(d, s, r);
      if NestedFinalActive(d, r, cfg) {
        var n :| n in cfg && InTree(d, n) && Kind(d, n) == Final && IsDescendant(d, n, r) && Parent(d, n) != Some(r);
        FinalBelowActiveChild(d, cfg, r, s, n);
        assert false;
      }
    }
  }

  /** For a parallel with compound regions: the code finds all regions final if and only if
      each has a final as its active child or a nested final active. */
  lemma AllRegionsExactly(d: Definition, p: Node, cfg: set<Node>)
    requires WellFormed(d) && Legal(d, cfg) && InTree(d, p)
    requires forall r | r in Children(d, p) :: InTree(d, r) && Kind(d, r) == Compound
    ensures AllRegionsFinal(d, p, cfg) <==>
              forall r | r in Children(d, p) :: ActiveChildFinal(d, r, cfg) || NestedFinalActive(d, r, cfg)
    ensures FlatFinals(d, p) ==>
              (AllRegionsFinal(d, p, cfg) <==> forall r | r in Children(d, p) :: ActiveChildFinal(d, r, cfg))
  {
    forall r | r in Children(d, p)
      ensures HasFinalIn(d, r, cfg) <==> ActiveChildFinal(d, r, cfg) || NestedFinalActive(d, r, cfg)
      ensures FlatFinals(d, p) ==> !NestedFinalActive(d, r, cfg)
    {
      RegionTestExactly(d, r, cfg);
      if FlatFinals(d, p) && NestedFinalActive(d, r, cfg) {
        var n :| n in cfg && InTree(d, n) && Kind(d, n) == Final && IsDescendant(d, n, r) && Parent(d, n) != Some(r);
        FinalOfOtherRegion(d, p, r, n);
        assert false;
      }
    }
  }

  lemma FinalOfOtherRegion(d: Definition, p: Node, r: Node, n: Node)
    requires IsTree(d) && InTree(d, p) && FlatFinals(d, p) && r in Children(d, p)
    requires InTree(d, n) && Kind(d, n) == Final && IsDescendant(d, n, r)
    ensures Parent(d, n) == Some(r)
  {
    FinalBelowRegion(d, p, r, n);
    var q := Parent(d, n).value;
    assert n in Children(d, q) && q in Children(d, p);
    ChildrenDisjoint(d, p, q, r, n);
  }

  /** Every state of a chart that is no history node is active in some legal configuration. */
  lemma SomewhereActive(d: Definition, n: Node) returns (cfg: set<Node>)
    requires WellFormed(d) && 0 < n < |d.nodes| && Kind(d, n) != History
    ensures Legal(d, cfg) && n in cfg
  {
    SinglesOk(d, map[]);
    AllUnderRoot(d, n);
    HistoryOkInside(d, map[], ROOT);
    TargetFills(d, map[], n, ROOT, {});
    DescendantsGrow(d, map[], n, {});
    AncestorsGrow(d, map[], n, Some(ROOT), AddDescendants(d, map[], n, {}));
    var E := AddAncestors(d, map[], n, Some(ROOT), AddDescendants(d, map[], n, {}));
    cfg := E + {ROOT};
    forall m: Node | IsDescendant(d, m, ROOT) ensures m in E <==> m in cfg { DescendantAfter(d, m, ROOT); }
    FilledLocal(d, E, cfg, ROOT);
    forall m | m in cfg ensures InTree(d, m) { if m != ROOT { DescendantAfter(d, m, ROOT); } }
    LegalFillsRoot(d, cfg);
  }

  /** Over all legal configurations of a chart: the two tests of a compound region agree if
      and only if every final in the region is a direct child of it. */
  lemma RegionTestAgrees(d: Definition, r: Node)
    requires WellFormed(d) && InTree(d, r) && Kind(d, r) == Compound
    ensures (forall cfg | Legal(d, cfg) :: HasFinalIn(d, r, cfg) <==> ActiveChildFinal(d, r, cfg))
       <==> (forall n: Node | IsDescendant(d, n, r) && Kind(d, n) == Final :: Parent(d, n) == Some(r))
  {
    if n: Node :| IsDescendant(d, n, r) && Kind(d, n) == Final && Parent(d, n) != Some(r) {
      DescendantAfter(d, n, r);
      var cfg := SomewhereActive(d, n);
      RegionTestExactly(d, r, cfg);
      assert NestedFinalActive(d, r, cfg);
      assert !(HasFinalIn(d, r, cfg) <==> ActiveChildFinal(d, r, cfg));
    } else {
      forall cfg | Legal(d, cfg) ensures HasFinalIn(d, r, cfg) <==> ActiveChildFinal(d, r, cfg) {
        RegionTestExactly(d, r, cfg);
      }
    }
  }

  // ------------------------------------------------------------------ the documented rule

  /** A region is in a final state: itself an active final, or a compound whose active child
      is one, or a parallel all of whose children are in one. */
  predicate InFinalState(d: Definition, r: Node, cfg: set<Node>)
    requires IsTree(d) && InTree(d, r)
    decreases |d.nodes| - r
  {
    match Kind(d, r)
    case Final => r in cfg
    case Compound => ActiveChildFinal(d, r, cfg)
    case Parallel => forall c | c in Children(d, r) :: InTree(d, c) && InFinalState(d, c, cfg)
    case _ => false
  }

  predicate AllInFinalState(d: Definition, p: Node, cfg: set<Node>)
    requires IsTree(d) && InTree(d, p)
  {
    forall r | r in Children(d, p) :: InTree(d, r) && InFinalState(d, r, cfg)
  }

  /** What the documentation completes when s is entered. */
  function DocumentedBy(d: Definition, s: Node, stage: set<Node>): seq<Node>
    requires IsTree(d) && InTree(d, s)
  {
    if Kind(d, s) != Final || EndsMachine(d, s) then []
    else
      var p := Parent(d, s).value;
      var gp := Parent(d, p);
      [p] + (if gp.Some? && Kind(d, gp.value) == Parallel && AllInFinalState(d, gp.value, stage) then [gp.value]
        else [])
  }

  function Documented(d: Definition, base: set<Node>, entered: seq<Node>): seq<Node>
    requires IsTree(d) && AllInTree(d, entered)
  {
    if entered == [] then []
    else
      var last := |entered| - 1;
      assert entered[last] in entered;
      Documented(d, base, entered[..last]) + DocumentedBy(d, entered[last], base + Members(entered))
  }

  /** s is a final child of a region, and the test finds all regions final although one of
      them is not in a final state yet. */
  predicate TooEarly(d: Definition, s: Node, stage: set<Node>)
    requires IsTree(d) && InTree(d, s)
  {
    && Kind(d, s) == Final && Parent(d, s).Some? && Parent(d, Parent(d, s).value).Some?
    && var p := Parent(d, Parent(d, s).value).value;
    Kind(d, p) == Parallel && AllRegionsFinal(d, p, stage) && !AllInFinalState(d, p, stage)
  }

  /** A region in a final state has an active final in it. */
  lemma {:induction false} FinalStateFound(d: Definition, r: Node, cfg: set<Node>)
    requires WellFormed(d) && InTree(d, r) && InFinalState(d, r, cfg)
    ensures HasFinalIn(d, r, cfg)
    decreases |d.nodes| - r
  {
    match Kind(d, r)
    case Compound =>
      var n :| n in cfg && InTree(d, n) && Kind(d, n) == Final && Parent(d, n) == Some(r);
      assert n in Children(d, r) && InSubtree(d, n, r);
    case Parallel =>
      assert NodeShapeOk(d, r);
      var c := Children(d, r)[0];
      assert c in Children(d, r);
      FinalStateFound(d, c, cfg);
      var n :| n in cfg && InTree(d, n) && Kind(d, n) == Final && InSubtree(d, n, c);
      assert IsDescendant(d, c, r);
      if n != c { DescendantTransitive(d, n, c, r); }
    case _ =>
  }

  lemma AllStatesFound(d: Definition, p: Node, cfg: set<Node>)
    requires WellFormed(d) && InTree(d, p) && AllInFinalState(d, p, cfg)
    ensures AllRegionsFinal(d, p, cfg)
  {
    forall r | r in Children(d, p) ensures HasFinalIn(d, r, cfg) { FinalStateFound(d, r, cfg); }
  }

  lemma DocumentedByExactly(d: Definition, s: Node, stage: set<Node>)
    requires WellFormed(d) && InTree(d, s)
    ensures |DocumentedBy(d, s, stage)| <= |CompletedBy(d, s, stage)|
    ensures TooEarly(d, s, stage) <==> |DocumentedBy(d, s, stage)| < |CompletedBy(d, s, stage)|
    ensures !TooEarly(d, s, stage) ==> DocumentedBy(d, s, stage) == CompletedBy(d, s, stage)
  {
    hide AllRegionsFinal, AllInFinalState;
    if Kind(d, s) == Final && !EndsMachine(d, s) {
      var gp := Parent(d, Parent(d, s).value);
      if gp.Some? && Kind(d, gp.value) == Parallel {
        if AllInFinalState(d, gp.value, stage) { AllStatesFound(d, gp.value, stage); }
        assert RegionFinal(d, gp.value, s);
      }
    }
  }

  /** The test never finds all regions final too early. */
  predicate Timely(d: Definition, base: set<Node>, entered: seq<Node>)
    requires IsTree(d) && AllInTree(d, entered)
  {
    forall i | 0 <= i < |entered| :: InTree(d, entered[i]) && !TooEarly(d, entered[i], base + Members(entered[..i + 1]))
  }

  /** The code completes what section 7.5 of the documentation says, in that order, exactly if
      it never finds all regions final too early; otherwise it completes more. */
  lemma {:induction false} CompletesAsDocumented(d: Definition, base: set<Node>, entered: seq<Node>)
    requires WellFormed(d) && AllInTree(d, entered)
    ensures |Documented(d, base, entered)| <= |Completed(d, base, entered)|
    ensures Completed(d, base, entered) == Documented(d, base, entered) <==> Timely(d, base, entered)
    decreases |entered|
  {
    hide WellFormed, TooEarly, CompletedBy, DocumentedBy, Completed, Documented, Timely;
    TreeInOrder(d);
    DocumentedUnfold(d, base, entered);
    TimelyUnfold(d, base, entered);
    if entered == [] {
    } else {
      var last := |entered| - 1;
      CompletesAsDocumented(d, base, entered[..last]);
      DocumentedByExactly(d, entered[last], base + Members(entered));
      SameParts(Completed(d, base, entered[..last]), CompletedBy(d, entered[last], base + Members(entered)),
                Documented(d, base, entered[..last]), DocumentedBy(d, entered[last], base + Members(entered)));
    }
  }

  lemma DocumentedUnfold(d: Definition, base: set<Node>, entered: seq<Node>)
    requires IsTree(d) && AllInTree(d, entered)
    ensures entered == [] ==> Completed(d, base, entered) == Documented(d, base, entered) == []
    ensures entered != [] ==>
              var last, stage := |entered| - 1, base + Members(entered);
              && InTree(d, entered[last]) && AllInTree(d, entered[..last])
              && Completed(d, base, entered)
                 == Completed(d, base, entered[..last]) + CompletedBy(d, entered[last], stage)
              && Documented(d, base, entered)
                 == Documented(d, base, entered[..last]) + DocumentedBy(d, entered[last], stage)
  {
    hide CompletedBy, DocumentedBy;
    if entered != [] { assert entered[|entered| - 1] in entered; }
  }

  lemma TimelyUnfold(d: Definition, base: set<Node>, entered: seq<Node>)
    requires IsTree(d) && AllInTree(d, entered)
    ensures entered == [] ==> Timely(d, base, entered)
    ensures entered != [] ==>
              var last := |entered| - 1;
              && InTree(d, entered[last]) && AllInTree(d, entered[..last])
              && (Timely(d, base, entered) <==>
                    Timely(d, base, entered[..last]) && !TooEarly(d, entered[last], base + Members(entered)))
  {
    hide TooEarly, IsTree;
    if entered != [] {
      var last := |entered| - 1;
      var before := entered[..last];
      assert entered[last] in entered && entered[..last + 1] == entered;
      forall i | 0 <= i < last ensures before[i] == entered[i] && before[..i + 1] == entered[..i + 1] { }
      if Timely(d, base, before) && !TooEarly(d, entered[last], base + Members(entered)) {
        forall i | 0 <= i < |entered|
          ensures InTree(d, entered[i]) && !TooEarly(d, entered[i], base + Members(entered[..i + 1]))
        {
          if i < last { assert InTree(d, before[i]) && !TooEarly(d, before[i], base + Members(before[..i + 1])); }
        }
      }
    }
  }

  // ------------------------------------------------------------------ the order of completions

  /** The completion at place j of q is owed to the node entered at place i: a final, which
      completes its parent and, right after it, a parallel above it whose regions are final by then. */
  predicate Owed(d: Definition, base: set<Node>, entered: seq<Node>, q: seq<Node>, i: nat, j: nat)
    requires IsTree(d) && i < |entered| && j < |q|
  {
    && InTree(d, entered[i]) && Kind(d, entered[i]) == Final
    && Parent(d, entered[i]).Some? && Parent(d, entered[i]).value != ROOT
    && var p := Parent(d, entered[i]).value;
       q[j] == p || (0 < j && q[j - 1] == p && FinalAbove(d, base, entered, i, q[j]))
  }

  /** p is the parallel above the parent of the node entered at place i, with all regions final then. */
  predicate FinalAbove(d: Definition, base: set<Node>, entered: seq<Node>, i: nat, p: Node)
    requires IsTree(d) && i < |entered| && InTree(d, entered[i]) && Parent(d, entered[i]).Some?
  {
    && Parent(d, Parent(d, entered[i]).value) == Some(p) && Kind(d, p) == Parallel
    && AllRegionsFinal(d, p, base + Members(entered[..i + 1]))
  }

  /** The completions q come in the order of entry; `at` says to which node each is owed, and
      every entered final has its own. */
  ghost predicate InEntryOrder(d: Definition, base: set<Node>, entered: seq<Node>, q: seq<Node>, at: seq<nat>)
    requires IsTree(d)
  {
    && |at| == |q|
    && (forall j | 0 <= j < |at| :: at[j] < |entered| && Owed(d, base, entered, q, at[j], j))
    && (forall j, k | 0 <= j < k < |at| :: at[j] < at[k] || (at[j] == at[k] && q[j] != q[k]))
    && (forall i | 0 <= i < |entered| :: HasItsOwn(d, base, entered, q, at, i))
  }

  ghost predicate HasItsOwn(d: Definition, base: set<Node>, entered: seq<Node>, q: seq<Node>, at: seq<nat>, i: nat)
    requires IsTree(d) && i < |entered| && |at| == |q|
  {
    InTree(d, entered[i]) && Kind(d, entered[i]) == Final && Parent(d, entered[i]).Some?
    && Parent(d, entered[i]).value != ROOT ==>
      exists j: nat :: OwnAt(d, base, entered, q, at, i, j)
  }

  predicate OwnAt(d: Definition, base: set<Node>, entered: seq<Node>, q: seq<Node>, at: seq<nat>, i: nat, j: nat)
    requires IsTree(d) && i < |entered| && |at| == |q| && InTree(d, entered[i]) && Parent(d, entered[i]).Some?
  {
    && j < |at| && at[j] == i && q[j] == Parent(d, entered[i]).value
    && forall p: Node | p < |d.nodes| && FinalAbove(d, base, entered, i, p) ::
         j + 1 < |at| && at[j + 1] == i && q[j + 1] == p
  }

  lemma {:induction false} CompletesInOrder(d: Definition, base: set<Node>, entered: seq<Node>) returns (at: seq<nat>)
    requires IsTree(d) && AllInTree(d, entered)
    ensures InEntryOrder(d, base, entered, Completed(d, base, entered), at)
    decreases |entered|
  {
    hide IsTree, InEntryOrder, CompletedBy;
    at := [];
    if entered == [] {
      NoneInOrder(d, base);
    } else {
      var last := |entered| - 1;
      assert entered[last] in entered;
      var earlier := CompletesInOrder(d, base, entered[..last]);
      var mine := CompletedBy(d, entered[last], base + Members(entered));
      at := earlier + seq(|mine|, _ => last);
      OneMoreInOrder(d, base, entered, Completed(d, base, entered[..last]), earlier, mine);
    }
  }

  lemma NoneInOrder(d: Definition, base: set<Node>)
    requires IsTree(d)
    ensures InEntryOrder(d, base, [], [], [])
  {
  }

  lemma OneMoreInOrder(d: Definition, base: set<Node>, entered: seq<Node>, q0: seq<Node>, earlier: seq<nat>,
                       mine: seq<Node>)
    requires IsTree(d) && AllInTree(d, entered) && entered != [] && entered[|entered| - 1] in entered
    requires InEntryOrder(d, base, entered[..|entered| - 1], q0, earlier)
    requires mine == CompletedBy(d, entered[|entered| - 1], base + Members(entered))
    ensures InEntryOrder(d, base, entered, q0 + mine, earlier + seq(|mine|, _ => |entered| - 1))
  {
    hide IsTree, CompletedBy, Owed, HasItsOwn;
    var last := |entered| - 1;
    var q, at := q0 + mine, earlier + seq(|mine|, _ => last);
    forall j | 0 <= j < |at| ensures at[j] < |entered| && Owed(d, base, entered, q, at[j], j) {
      if j < |earlier| { OwedStays(d, base, entered, q0, mine, earlier[j], j); }
      else { OwedLast(d, base, entered, q0, mine, j); }
    }
    MineDiffer(d, entered[last], base + Members(entered));
    forall i | 0 <= i < |entered| ensures HasItsOwn(d, base, entered, q, at, i) {
      OwnStays(d, base, entered, q0, earlier, mine, i);
    }
  }

  lemma MineDiffer(d: Definition, s: Node, stage: set<Node>)
    requires IsTree(d) && InTree(d, s)
    ensures var mine := CompletedBy(d, s, stage); forall j, k | 0 <= j < k < |mine| :: mine[j] != mine[k]
  {
  }

  lemma OwedStays(d: Definition, base: set<Node>, entered: seq<Node>, q0: seq<Node>, mine: seq<Node>, i: nat, j: nat)
    requires IsTree(d) && entered != [] && i < |entered| - 1 && j < |q0|
    requires Owed(d, base, entered[..|entered| - 1], q0, i, j)
    ensures Owed(d, base, entered, q0 + mine, i, j)
  {
    hide IsTree, AllRegionsFinal;
    var before := entered[..|entered| - 1];
    assert before[i] == entered[i] && before[..i + 1] == entered[..i + 1];
  }

  lemma OwedLast(d: Definition, base: set<Node>, entered: seq<Node>, q0: seq<Node>, mine: seq<Node>, j: nat)
    requires IsTree(d) && AllInTree(d, entered) && entered != [] && entered[|entered| - 1] in entered
    requires mine == CompletedBy(d, entered[|entered| - 1], base + Members(entered)) && |q0| <= j < |q0 + mine|
    ensures Owed(d, base, entered, q0 + mine, |entered| - 1, j)
  {
    hide AllRegionsFinal;
    assert entered[..|entered|] == entered;
    assert (q0 + mine)[j] == mine[j - |q0|] && (q0 + mine)[|q0|] == mine[0];
  }

  lemma OwnStays(d: Definition, base: set<Node>, entered: seq<Node>, q0: seq<Node>, earlier: seq<nat>,
                 mine: seq<Node>, i: nat)
    requires IsTree(d) && AllInTree(d, entered) && i < |entered| && |earlier| == |q0|
    requires i < |entered| - 1 ==> HasItsOwn(d, base, entered[..|entered| - 1], q0, earlier, i)
    requires entered[|entered| - 1] in entered
    requires mine == CompletedBy(d, entered[|entered| - 1], base + Members(entered))
    ensures HasItsOwn(d, base, entered, q0 + mine, earlier + seq(|mine|, _ => |entered| - 1), i)
  {
    hide IsTree, AllRegionsFinal;
    var last := |entered| - 1;
    var before, at, q := entered[..last], earlier + seq(|mine|, _ => last), q0 + mine;
    assert entered[..last + 1] == entered;
    if i < last {
      assert before[i] == entered[i] && before[..i + 1] == entered[..i + 1];
      if Kind(d, entered[i]) == Final && Parent(d, entered[i]).Some? && Parent(d, entered[i]).value != ROOT {
        var j: nat :| OwnAt(d, base, before, q0, earlier, i, j);
        forall p: Node | p < |d.nodes| && FinalAbove(d, base, entered, i, p)
          ensures j + 1 < |at| && at[j + 1] == i && q[j + 1] == p
        {
          assert FinalAbove(d, base, before, i, p);
        }
        assert OwnAt(d, base, entered, q, at, i, j);
      }
    } else if mine != [] {
      OwnLast(d, base, entered, q0, earlier, mine);
    }
  }

  lemma OwnLast(d: Definition, base: set<Node>, entered: seq<Node>, q0: seq<Node>, earlier: seq<nat>, mine: seq<Node>)
    requires IsTree(d) && AllInTree(d, entered) && entered != [] && |earlier| == |q0| && mine != []
    requires entered[|entered| - 1] in entered
    requires mine == CompletedBy(d, entered[|entered| - 1], base + Members(entered))
    ensures Parent(d, entered[|entered| - 1]).Some?
    ensures OwnAt(d, base, entered, q0 + mine, earlier + seq(|mine|, _ => |entered| - 1), |entered| - 1, |q0|)
  {
    hide IsTree, AllRegionsFinal;
    var last := |entered| - 1;
    var at, q := earlier + seq(|mine|, _ => last), q0 + mine;
    assert entered[..last + 1] == entered;
    assert at[|q0|] == last && q[|q0|] == mine[0];
    forall p: Node | p < |d.nodes| && FinalAbove(d, base, entered, last, p)
      ensures |q0| + 1 < |at| && at[|q0| + 1] == last && q[|q0| + 1] == p
    {
      assert mine == [Parent(d, entered[last]).value, p];
    }
  }

  /** The staged event of each completion, in the same places. */
  lemma {:induction false} DoneEventsAre(d: Definition, q: seq<Node>)
    requires AllInTree(d, q)
    ensures |DoneEvents(d, q)| == |q|
    ensures forall j | 0 <= j < |q| :: InTree(d, q[j]) && DoneEvents(d, q)[j] == "done.state." + d.nodes[q[j]].id
  {
    if q != [] {
      assert q[0] in q;
      DoneEventsAre(d, q[1..]);
    }
  }

  lemma SameParts<T>(a: seq<T>, x: seq<T>, b: seq<T>, y: seq<T>)
    requires |a| >= |b| && |x| >= |y|
    ensures a + x == b + y <==> a == b && x == y
  {
    if a + x == b + y {
      assert |a| == |b|;
      assert (a + x)[..|a|] == a && (b + y)[..|b|] == b && (a + x)[|a|..] == x && (b + y)[|b|..] == y;
    }
  }

  /** It is too early only because of a final deeper inside: a compound region with an active
      final that is not in a final state has a nested one active. */
  lemma EarlyMeansNested(d: Definition, r: Node, cfg: set<Node>)
    requires WellFormed(d) && InTree(d, r) && Kind(d, r) == Compound && HasFinalIn(d, r, cfg)
    ensures !InFinalState(d, r, cfg) ==> NestedFinalActive(d, r, cfg)
  {
    var n :| n in cfg && InTree(d, n) && Kind(d, n) == Final && InSubtree(d, n, r);
    if !InFinalState(d, r, cfg) { assert IsDescendant(d, n, r) && Parent(d, n) != Some(r); }
  }

  /** So a chart whose parallels have finals only as direct children of compound regions
      completes as documented, whatever is entered. */
  lemma FlatAsDocumented(d: Definition, base: set<Node>, entered: seq<Node>)
    requires WellFormed(d) && AllInTree(d, entered)
    requires forall p: Node | p < |d.nodes| && Kind(d, p) == Parallel :: FlatFinals(d, p)
    ensures Completed(d, base, entered) == Documented(d, base, entered)
  {
    CompletesAsDocumented(d, base, entered);
    forall i | 0 <= i < |entered|
      ensures InTree(d, entered[i]) && !TooEarly(d, entered[i], base + Members(entered[..i + 1]))
    {
      assert entered[i] in entered;
      NeverTooEarly(d, entered[i], base + Members(entered[..i + 1]));
    }
  }

  lemma NeverTooEarly(d: Definition, s: Node, stage: set<Node>)
    requires WellFormed(d) && InTree(d, s)
    requires forall p: Node | p < |d.nodes| && Kind(d, p) == Parallel :: FlatFinals(d, p)
    ensures !TooEarly(d, s, stage)
  {
    forall p: Node | InTree(d, p) && Kind(d, p) == Parallel && AllRegionsFinal(d, p, stage)
      ensures AllInFinalState(d, p, stage)
    {
      forall r | r in Children(d, p) ensures InTree(d, r) && InFinalState(d, r, stage) {
        assert FlatFinals(d, p);
        EarlyMeansNested(d, r, stage);
        if NestedFinalActive(d, r, stage) {
          var n :| n in stage && InTree(d, n) && Kind(d, n) == Final
            && IsDescendant(d, n, r) && Parent(d, n) != Some(r);
          FinalOfOtherRegion(d, p, r, n);
          assert false;
        }
      }
    }
  }
}
