/** What one microstep does to the configuration (transition.go, microstep.go): the entry set
    of a transition set, the disjointness of its domains, and the proof that the staged
    configuration stays legal. */
module Microsteps {
  import opened Definitions
  import opened Configurations
  import opened Entry
  import opened Growth
  import opened Coverage
  import opened Selection

  /** The machine's context and event payloads are opaque to the interpreter. */
  type Ctx(==,!new)
  type Payload(==,!new)

  /** What one action returns: a new context, an outbox intent, or nothing. */
  datatype Effect = Noop | Assign(ctx: Ctx) | Send(target: string, event: string) | Spawn(target: string)

  /** The closures injected by generated code, and the zero event they get when no event
      triggered the microstep. */
  datatype Behavior = Behavior(
    applyAction: (int, Ctx, Payload) -> Effect,
    evalGuard: (int, Ctx, Payload) -> bool,
    zero: Payload)

  // ------------------------------------------------------------------ entry sets of transitions

  predicate EndsInTree(d: Definition, t: Transition)
  {
    InTree(d, t.source) && forall g | g in t.targets :: InTree(d, g)
  }

  function AddTargets(d: Definition, hist: Hist, gs: seq<Node>, E: set<Node>): set<Node>
    requires IsTree(d) && EntryReady(d, hist) && forall g | g in gs :: InTree(d, g)
  {
    if gs == [] then E else AddTargets(d, hist, gs[1..], AddDescendants(d, hist, gs[0], E))
  }

  function AddTargetAncestors(d: Definition, hist: Hist, gs: seq<Node>, dom: Option<Node>, E: set<Node>): set<Node>
    requires IsTree(d) && EntryReady(d, hist)
    requires forall g | g in gs :: InTree(d, g) && (dom.Some? ==> InTree(d, dom.value) && IsDescendant(d, g, dom.value))
  {
    if gs == [] then E
    else assert gs[0] in gs; AddTargetAncestors(d, hist, gs[1..], dom, AddAncestors(d, hist, gs[0], dom, E))
  }

  lemma DomainCovers(d: Definition, t: Transition)
    requires IsTree(d) && EndsInTree(d, t)
    ensures Domain(d, t).Some? ==> InTree(d, Domain(d, t).value) && IsDescendant(d, t.source, Domain(d, t).value)
    ensures Domain(d, t).Some? ==> forall g | g in t.targets :: IsDescendant(d, g, Domain(d, t).value)
  {
    LccaIsLeast(d, t.source, t.targets);
  }

  function AddTransition(d: Definition, hist: Hist, t: Transition, E: set<Node>): set<Node>
    requires IsTree(d) && EntryReady(d, hist) && EndsInTree(d, t)
  {
    DomainCovers(d, t);
    AddTargetAncestors(d, hist, t.targets, Domain(d, t), AddTargets(d, hist, t.targets, E))
  }

  function EntrySetFrom(d: Definition, hist: Hist, ts: seq<Transition>, E: set<Node>): set<Node>
    requires IsTree(d) && EntryReady(d, hist) && forall t | t in ts :: EndsInTree(d, t)
  {
    if ts == [] then E else EntrySetFrom(d, hist, ts[1..], AddTransition(d, hist, ts[0], E))
  }

  /** The states that the transition set enters. */
  function EntrySetOf(d: Definition, hist: Hist, ts: seq<Transition>): set<Node>
    requires IsTree(d) && EntryReady(d, hist) && forall t | t in ts :: EndsInTree(d, t)
  {
    EntrySetFrom(d, hist, ts, {})
  }

  /** transition.go: computeEntrySet (its second result is never used). */
  method ComputeEntrySet(d: Definition, hist: Hist, ts: seq<Transition>) returns (toEnter: NodeSet)
    requires IsTree(d) && EntryReady(d, hist) && forall t | t in ts :: EndsInTree(d, t)
    ensures fresh(toEnter) && toEnter.members == EntrySetOf(d, hist, ts)
  {
    toEnter := new NodeSet({});
    for i := 0 to |ts|
      invariant forall t | t in ts[i..] :: EndsInTree(d, t)
      invariant EntrySetOf(d, hist, ts) == EntrySetFrom(d, hist, ts[i..], toEnter.members)
    {
      var t := ts[i];
      assert t in ts && ts[i..][1..] == ts[i + 1..];
      EnterTransition(d, hist, t, toEnter);
    }
  }

  method EnterTransition(d: Definition, hist: Hist, t: Transition, toEnter: NodeSet)
    requires IsTree(d) && EntryReady(d, hist) && EndsInTree(d, t)
    modifies toEnter
    ensures toEnter.members == AddTransition(d, hist, t, old(toEnter.members))
  {
    var gs := t.targets;
    DomainCovers(d, t);
    for j := 0 to |gs|
      invariant forall g | g in gs[j..] :: g in gs
      invariant AddTargets(d, hist, gs, old(toEnter.members)) == AddTargets(d, hist, gs[j..], toEnter.members)
    {
      assert gs[j] in gs && gs[j..][1..] == gs[j + 1..];
      EnterDescendants(d, hist, gs[j], toEnter);
    }
    ghost var below := toEnter.members;
    var dom := Domain(d, t);
    for j := 0 to |gs|
      invariant forall g | g in gs[j..] :: g in gs
      invariant AddTargetAncestors(d, hist, gs, dom, below)
                == AddTargetAncestors(d, hist, gs[j..], dom, toEnter.members)
    {
      assert gs[j] in gs && gs[j..][1..] == gs[j + 1..];
      EnterAncestors(d, hist, gs[j], dom, toEnter);
    }
  }

  // ------------------------------------------------------------------ domains of a selected set

  /** Neither node is above the other. */
  predicate Apart(d: Definition, a: Node, b: Node)
    requires IsTree(d)
  {
    !InSubtree(d, a, b) && !InSubtree(d, b, a)
  }

  lemma ApartDisjoint(d: Definition, a: Node, b: Node, n: Node)
    requires IsTree(d) && Apart(d, a, b)
    ensures !(IsDescendant(d, n, a) && IsDescendant(d, n, b))
  {
    if IsDescendant(d, n, a) && IsDescendant(d, n, b) { AncestorsLinear(d, n, a, b); }
  }

  ghost predicate DomainsApart(d: Definition, ts: seq<Transition>)
    requires IsTree(d)
  {
    forall i, j | 0 <= i < j < |ts| && Domain(d, ts[i]).Some? && Domain(d, ts[j]).Some? ::
      Apart(d, Domain(d, ts[i]).value, Domain(d, ts[j]).value)
  }

  lemma NestedConflict(d: Definition, cfg: set<Node>, t: Transition, u: Transition)
    requires IsTree(d) && Domain(d, t).Some? && Domain(d, u).Some?
    requires t.source in cfg && IsDescendant(d, t.source, Domain(d, t).value)
    requires InSubtree(d, Domain(d, t).value, Domain(d, u).value)
    ensures Conflict(d, cfg, t, u)
  {
    var a, b := Domain(d, t).value, Domain(d, u).value;
    if a != b { DescendantTransitive(d, t.source, a, b); }
    assert t.source in ExitSetOf(d, cfg, t) * ExitSetOf(d, cfg, u);
  }

  /** Disjoint exit sets have domains on different branches. */
  lemma SelectedApart(d: Definition, cfg: set<Node>, ts: seq<Transition>)
    requires WellFormed(d) && Selected(d, cfg, ts)
    ensures DomainsApart(d, ts)
  {
    forall i, j | 0 <= i < j < |ts| && Domain(d, ts[i]).Some? && Domain(d, ts[j]).Some?
      ensures Apart(d, Domain(d, ts[i]).value, Domain(d, ts[j]).value)
    {
      var t, u := ts[i], ts[j];
      assert t in ts && u in ts;
      LccaIsLeast(d, t.source, t.targets);
      LccaIsLeast(d, u.source, u.targets);
      var a, b := Domain(d, t).value, Domain(d, u).value;
      assert !Conflict(d, cfg, t, u);
      if InSubtree(d, a, b) { NestedConflict(d, cfg, t, u); }
      if InSubtree(d, b, a) { ConflictSymmetric(d, cfg, t, u); NestedConflict(d, cfg, u, t); }
    }
  }

  /** n lies strictly below the domain of some transition. */
  ghost predicate BelowDomain(d: Definition, ts: seq<Transition>, n: Node)
    requires IsTree(d)
  {
    exists t | t in ts :: Domain(d, t).Some? && IsDescendant(d, n, Domain(d, t).value)
  }

  ghost predicate EdgesActive(d: Definition, ts: seq<Transition>)
  {
    forall t | t in ts :: InTree(d, t.source) && EdgeOk(d, t.source, t)
  }

  /** A targetless transition enters nothing; any other enters its target and what hangs
      from its domain, or from above the root if it has none. */
  lemma TransitionGrows(d: Definition, hist: Hist, t: Transition, E: set<Node>)
    requires WellFormed(d) && EntryReady(d, hist)
    requires InTree(d, t.source) && EdgeOk(d, t.source, t) && EndsInTree(d, t)
    ensures t.targets == [] ==> AddTransition(d, hist, t, E) == E
    ensures t.targets != [] ==> Grown(d, E, AddTransition(d, hist, t, E), Domain(d, t))
  {
    if t.targets == [] {
    } else {
      DomainCovers(d, t);
      var g := t.targets[0];
      assert t.targets == [g] && g in t.targets && t.targets[1..] == [];
      var F := AddDescendants(d, hist, g, E);
      assert AddTargets(d, hist, t.targets, E) == AddTargets(d, hist, [], F) == F;
      var R := AddAncestors(d, hist, g, Domain(d, t), F);
      assert AddTargetAncestors(d, hist, t.targets, Domain(d, t), F)
             == AddTargetAncestors(d, hist, [], Domain(d, t), R) == R;
      DescendantsGrow(d, hist, g, E);
      AncestorsGrow(d, hist, g, Domain(d, t), F);
      TargetHangs(d, E, F, R, g, Domain(d, t));
    }
  }

  lemma TargetHangs(d: Definition, E: set<Node>, F: set<Node>, R: set<Node>, g: Node, a: Option<Node>)
    requires IsTree(d) && InTree(d, g) && (a.Some? ==> IsDescendant(d, g, a.value))
    requires Grown(d, E, F, Parent(d, g)) && Grown(d, F, R, a)
    requires Parent(d, g) == a || (Parent(d, g).Some? && Parent(d, g).value in R)
    ensures Grown(d, E, R, a)
  {
    forall n | n in R && n !in E ensures Hangs(d, R, a, n) {
      if n in F {
        assert Hangs(d, F, Parent(d, g), n);
        if a.Some? && Parent(d, g) != a { DescendantTransitive(d, n, Parent(d, g).value, a.value); }
      }
    }
  }

  /** n was entered by one of the transitions: it hangs from another entered node, from a
      domain or, for an edge of the root, from nothing. */
  ghost predicate HangsFrom(d: Definition, ts: seq<Transition>, R: set<Node>, n: Node)
    requires IsTree(d)
  {
    && InTree(d, n)
    && Kind(d, n) != History
    && (n != ROOT ==> Parent(d, n).Some? && (Parent(d, n).value in R || IsDomain(d, ts, Parent(d, n).value)))
    && (NoRootEdges(ts) ==> BelowDomain(d, ts, n))
  }

  /** The entry set hangs from the domains. */
  lemma {:induction false} EntryGrowsFrom(d: Definition, hist: Hist, ts: seq<Transition>, E: set<Node>)
    requires WellFormed(d) && EntryReady(d, hist)
    requires EdgesActive(d, ts) && (forall t | t in ts :: EndsInTree(d, t))
    ensures E <= EntrySetFrom(d, hist, ts, E)
    ensures forall n | n in EntrySetFrom(d, hist, ts, E) && n !in E :: HangsFrom(d, ts, EntrySetFrom(d, hist, ts, E), n)
    decreases |ts|
  {
    if ts == [] {
    } else {
      var t0, rest := ts[0], ts[1..];
      assert t0 in ts;
      forall t | t in rest ensures t in ts { }
      TransitionGrows(d, hist, t0, E);
      var F := AddTransition(d, hist, t0, E);
      EntryGrowsFrom(d, hist, rest, F);
      var R := EntrySetFrom(d, hist, rest, F);
      assert EntrySetFrom(d, hist, ts, E) == R;
      forall n | n in R && n !in E ensures HangsFrom(d, ts, R, n) {
        if n in F { HeadHangs(d, ts, E, F, R, n); } else { TailHangs(d, ts, R, n); }
      }
    }
  }

  lemma HeadHangs(d: Definition, ts: seq<Transition>, E: set<Node>, F: set<Node>, R: set<Node>, n: Node)
    requires WellFormed(d) && ts != [] && F <= R && n in F && n !in E
    requires InTree(d, ts[0].source) && EdgeOk(d, ts[0].source, ts[0]) && EndsInTree(d, ts[0])
    requires ts[0].targets == [] ==> F == E
    requires ts[0].targets != [] ==> Grown(d, E, F, Domain(d, ts[0]))
    ensures HangsFrom(d, ts, R, n)
  {
    var t := ts[0];
    assert t in ts && Hangs(d, F, Domain(d, t), n);
    if NoRootEdges(ts) { DomainOfTargeted(d, t); }
    if Domain(d, t) == None && n != ROOT { assert Parent(d, n).Some?; }
  }

  lemma TailHangs(d: Definition, ts: seq<Transition>, R: set<Node>, n: Node)
    requires IsTree(d) && ts != [] && HangsFrom(d, ts[1..], R, n)
    ensures HangsFrom(d, ts, R, n)
  {
    forall t | t in ts[1..] ensures t in ts { }
    if NoRootEdges(ts) { assert NoRootEdges(ts[1..]); }
    if n != ROOT && IsDomain(d, ts[1..], Parent(d, n).value) { assert IsDomain(d, ts, Parent(d, n).value); }
  }

  /** One transition fills its untouched domain and touches nothing else. */
  lemma TransitionFills(d: Definition, hist: Hist, t: Transition, E: set<Node>)
    requires WellFormed(d) && HistoryOk(d, hist)
    requires InTree(d, t.source) && EdgeOk(d, t.source, t) && EndsInTree(d, t) && !RootEdge(t)
    requires Domain(d, t).Some? ==> forall n | n in E :: !IsDescendant(d, n, Domain(d, t).value)
    ensures Domain(d, t) == None ==> AddTransition(d, hist, t, E) == E
    ensures Domain(d, t).Some? ==> InTree(d, Domain(d, t).value)
    ensures Domain(d, t).Some? ==> GrowsBelow(d, E, AddTransition(d, hist, t, E), Domain(d, t).value)
    ensures Domain(d, t).Some? ==> Filled(d, AddTransition(d, hist, t, E), Domain(d, t).value)
  {
    if t.targets != [] {
      DomainOfTargeted(d, t);
      var g, a := t.targets[0], Domain(d, t).value;
      assert t.targets == [g] && t.targets[1..] == [];
      HistoryOkInside(d, hist, a);
      TargetFills(d, hist, g, a, E);
      var E1 := AddDescendants(d, hist, g, E);
      assert AddTargets(d, hist, t.targets, E) == AddTargets(d, hist, [], E1) == E1;
      var E2 := AddAncestors(d, hist, g, Some(a), E1);
      assert AddTargetAncestors(d, hist, t.targets, Some(a), E1) == AddTargetAncestors(d, hist, [], Some(a), E2) == E2;
    }
  }

  /** The entry set fills every domain and stays inside the domains. */
  lemma {:induction false} EntryFillsFrom(d: Definition, hist: Hist, ts: seq<Transition>, E: set<Node>)
    requires WellFormed(d) && HistoryOk(d, hist) && NoRootEdges(ts)
    requires EdgesActive(d, ts) && (forall t | t in ts :: EndsInTree(d, t)) && DomainsApart(d, ts)
    requires forall n | n in E :: !BelowDomain(d, ts, n)
    ensures E <= EntrySetFrom(d, hist, ts, E)
    ensures forall n | n in EntrySetFrom(d, hist, ts, E) && n !in E :: BelowDomain(d, ts, n)
    ensures forall t | t in ts && Domain(d, t).Some? ::
              InTree(d, Domain(d, t).value) && Filled(d, EntrySetFrom(d, hist, ts, E), Domain(d, t).value)
  {
    if ts == [] {
    } else {
      var t0, rest := ts[0], ts[1..];
      assert t0 in ts;
      forall t | t in rest ensures t in ts { }
      assert DomainsApart(d, rest);
      TransitionFills(d, hist, t0, E);
      var E1 := AddTransition(d, hist, t0, E);
      forall n | n in E1 ensures !BelowDomain(d, rest, n) {
        if BelowDomain(d, rest, n) {
          var t :| t in rest && Domain(d, t).Some? && IsDescendant(d, n, Domain(d, t).value);
          assert t in ts;
          HeadApart(d, ts, t);
          if n !in E { ApartDisjoint(d, Domain(d, t0).value, Domain(d, t).value, n); }
        }
      }
      EntryFillsFrom(d, hist, rest, E1);
      var E' := EntrySetFrom(d, hist, rest, E1);
      if Domain(d, t0).Some? {
        var a := Domain(d, t0).value;
        forall n: Node | IsDescendant(d, n, a) ensures n in E1 <==> n in E' {
          if n in E' && n !in E1 {
            var t :| t in rest && Domain(d, t).Some? && IsDescendant(d, n, Domain(d, t).value);
            HeadApart(d, ts, t);
            ApartDisjoint(d, a, Domain(d, t).value, n);
          }
        }
        FilledLocal(d, E1, E', a);
      }
      forall n | n in E' && n !in E ensures BelowDomain(d, ts, n) {
        if n in E1 { } else { assert BelowDomain(d, rest, n); }
      }
      forall t | t in ts ensures t == t0 || t in rest { }
    }
  }

  lemma HeadApart(d: Definition, ts: seq<Transition>, t: Transition)
    requires IsTree(d) && ts != [] && t in ts[1..] && DomainsApart(d, ts)
    ensures Domain(d, ts[0]).Some? && Domain(d, t).Some? ==> Apart(d, Domain(d, ts[0]).value, Domain(d, t).value)
  {
    var j :| 0 <= j < |ts[1..]| && ts[1..][j] == t;
    assert ts[j + 1] == t;
  }

  // ------------------------------------------------------------------ the staged configuration

  function StagedConfiguration(d: Definition, hist: Hist, cfg: set<Node>, ts: seq<Transition>): set<Node>
    requires IsTree(d) && EntryReady(d, hist) && forall t | t in ts :: EndsInTree(d, t)
  {
    (cfg - UnionOfExits(d, cfg, ts)) + EntrySetOf(d, hist, ts)
  }

  lemma SelectedReady(d: Definition, cfg: set<Node>, ts: seq<Transition>)
    requires WellFormed(d) && Selected(d, cfg, ts)
    ensures forall t | t in ts :: EndsInTree(d, t)
    ensures EdgesActive(d, ts) && DomainsApart(d, ts)
  {
    SelectedApart(d, cfg, ts);
    forall t | t in ts ensures EndsInTree(d, t) { if t.targets != [] { assert t.targets == [t.targets[0]]; } }
  }

  /** A microstep exits exactly the active nodes below its domains. */
  lemma ExitsBelowDomains(d: Definition, cfg: set<Node>, ts: seq<Transition>)
    requires IsTree(d)
    ensures forall n: Node :: n in UnionOfExits(d, cfg, ts) <==> n in cfg && BelowDomain(d, ts, n)
  {
    UnionOfExitsMeaning(d, cfg, ts);
    forall n: Node ensures n in UnionOfExits(d, cfg, ts) <==> n in cfg && BelowDomain(d, ts, n) {
      if n in cfg && BelowDomain(d, ts, n) {
        var t :| t in ts && Domain(d, t).Some? && IsDescendant(d, n, Domain(d, t).value);
        assert n in ExitSetOf(d, cfg, t);
      }
    }
  }

  /** Whatever is stored and wherever the edges lead, a microstep enters nodes of the chart,
      no history node, and leaves no active node without an active parent. */
  lemma StagedRooted(d: Definition, hist: Hist, cfg: set<Node>, ts: seq<Transition>)
    requires WellFormed(d) && EntryReady(d, hist) && Rooted(d, cfg) && Selected(d, cfg, ts)
    ensures forall t | t in ts :: EndsInTree(d, t)
    ensures forall n | n in EntrySetOf(d, hist, ts) :: InTree(d, n) && Kind(d, n) != History
    ensures Rooted(d, StagedConfiguration(d, hist, cfg, ts))
  {
    SelectedReady(d, cfg, ts);
    ExitsBelowDomains(d, cfg, ts);
    EntryGrowsFrom(d, hist, ts, {});
    var E, cfg' := EntrySetOf(d, hist, ts), StagedConfiguration(d, hist, cfg, ts);
    forall n | n in cfg' && n != ROOT ensures Parent(d, n).Some? && Parent(d, n).value in cfg' {
      if n in E {
        assert HangsFrom(d, ts, E, n);
        var p := Parent(d, n).value;
        if IsDomain(d, ts, p) { DomainKept(d, cfg, ts, p); }
      } else {
        BelowDomainSteps(d, ts, n, Parent(d, n).value);
      }
    }
  }

  /** Without edges of the root a microstep exits exactly the active nodes below its domains,
      enters only nodes below its domains, and changes nothing elsewhere. */
  lemma MicrostepLocal(d: Definition, hist: Hist, cfg: set<Node>, ts: seq<Transition>)
    requires WellFormed(d) && EntryReady(d, hist) && Selected(d, cfg, ts) && NoRootEdges(ts)
    ensures forall t | t in ts :: EndsInTree(d, t)
    ensures forall n: Node :: n in UnionOfExits(d, cfg, ts) <==> n in cfg && BelowDomain(d, ts, n)
    ensures forall n | n in EntrySetOf(d, hist, ts) :: BelowDomain(d, ts, n) && InTree(d, n)
    ensures EntrySetOf(d, hist, ts) !! (cfg - UnionOfExits(d, cfg, ts))
    ensures forall n: Node | !BelowDomain(d, ts, n) :: n in StagedConfiguration(d, hist, cfg, ts) <==> n in cfg
    ensures forall n: Node | BelowDomain(d, ts, n) ::
            n in StagedConfiguration(d, hist, cfg, ts) <==> n in EntrySetOf(d, hist, ts)
  {
    SelectedReady(d, cfg, ts);
    ExitsBelowDomains(d, cfg, ts);
    EntryGrowsFrom(d, hist, ts, {});
    forall n | n in EntrySetOf(d, hist, ts) ensures BelowDomain(d, ts, n) && InTree(d, n) {
      assert HangsFrom(d, ts, EntrySetOf(d, hist, ts), n);
    }
  }

  /** Every microstep of a conflict-free set of active edges, none of them an edge of the
      root, leads to a legal configuration again. */
  lemma MicrostepLegal(d: Definition, hist: Hist, cfg: set<Node>, ts: seq<Transition>)
    requires WellFormed(d) && HistoryOk(d, hist) && Legal(d, cfg) && Selected(d, cfg, ts) && NoRootEdges(ts)
    ensures forall t | t in ts :: EndsInTree(d, t)
    ensures Legal(d, StagedConfiguration(d, hist, cfg, ts))
  {
    MicrostepLocal(d, hist, cfg, ts);
    var E := EntrySetOf(d, hist, ts);
    var cfg' := StagedConfiguration(d, hist, cfg, ts);
    assert !BelowDomain(d, ts, ROOT);
    forall n | n in cfg'
      ensures InTree(d, n) && Kind(d, n) != History
      ensures n != ROOT ==> Parent(d, n).Some? && Parent(d, n).value in cfg'
      ensures NodeFilled(d, cfg', n)
    {
      if BelowDomain(d, ts, n) {
        EnteredNodeLegal(d, hist, cfg, ts, n);
      } else {
        KeptNodeLegal(d, hist, cfg, ts, n);
      }
    }
  }

  ghost predicate IsDomain(d: Definition, ts: seq<Transition>, a: Node)
    requires IsTree(d)
  {
    exists t | t in ts :: Domain(d, t) == Some(a)
  }

  /** Being below a domain passes from a node to its children, and back except at a domain. */
  lemma BelowDomainSteps(d: Definition, ts: seq<Transition>, c: Node, p: Node)
    requires IsTree(d) && InTree(d, c) && Parent(d, c) == Some(p)
    ensures BelowDomain(d, ts, c) <==> BelowDomain(d, ts, p) || IsDomain(d, ts, p)
  {
    if BelowDomain(d, ts, c) {
      var t :| t in ts && Domain(d, t).Some? && IsDescendant(d, c, Domain(d, t).value);
      assert Domain(d, t) == Some(p) || IsDescendant(d, p, Domain(d, t).value);
    }
    if BelowDomain(d, ts, p) {
      var t :| t in ts && Domain(d, t).Some? && IsDescendant(d, p, Domain(d, t).value);
      assert IsDescendant(d, c, Domain(d, t).value);
    }
    if IsDomain(d, ts, p) {
      var t :| t in ts && Domain(d, t) == Some(p);
      assert IsDescendant(d, c, Domain(d, t).value);
    }
  }

  /** The domain of an active edge is active and survives the microstep. */
  lemma DomainKept(d: Definition, cfg: set<Node>, ts: seq<Transition>, a: Node)
    requires WellFormed(d) && Rooted(d, cfg) && Selected(d, cfg, ts) && IsDomain(d, ts, a)
    ensures a in cfg && !BelowDomain(d, ts, a)
  {
    var t :| t in ts && Domain(d, t) == Some(a);
    LccaIsLeast(d, t.source, t.targets);
    RootedUpward(d, cfg, t.source, a);
    SelectedApart(d, cfg, ts);
    if BelowDomain(d, ts, a) {
      var u :| u in ts && Domain(d, u).Some? && IsDescendant(d, a, Domain(d, u).value);
      var i :| 0 <= i < |ts| && ts[i] == t;
      var j :| 0 <= j < |ts| && ts[j] == u;
      if i == j { DescendantAfter(d, a, a); }
    }
  }

  /** Each domain is filled by the staged configuration. */
  lemma DomainFilled(d: Definition, hist: Hist, cfg: set<Node>, ts: seq<Transition>, a: Node)
    requires WellFormed(d) && HistoryOk(d, hist) && Legal(d, cfg) && Selected(d, cfg, ts) && NoRootEdges(ts)
    requires forall t | t in ts :: EndsInTree(d, t)
    requires IsDomain(d, ts, a)
    ensures InTree(d, a) && Filled(d, StagedConfiguration(d, hist, cfg, ts), a)
  {
    MicrostepLocal(d, hist, cfg, ts);
    SelectedReady(d, cfg, ts);
    EntryFillsFrom(d, hist, ts, {});
    forall n: Node | IsDescendant(d, n, a)
      ensures n in EntrySetOf(d, hist, ts) <==> n in StagedConfiguration(d, hist, cfg, ts)
    {
      assert BelowDomain(d, ts, n);
    }
    FilledLocal(d, EntrySetOf(d, hist, ts), StagedConfiguration(d, hist, cfg, ts), a);
  }

  lemma EnteredNodeLegal(d: Definition, hist: Hist, cfg: set<Node>, ts: seq<Transition>, n: Node)
    requires WellFormed(d) && HistoryOk(d, hist) && Legal(d, cfg) && Selected(d, cfg, ts) && NoRootEdges(ts)
    requires forall t | t in ts :: EndsInTree(d, t)
    requires n in StagedConfiguration(d, hist, cfg, ts) && BelowDomain(d, ts, n)
    ensures InTree(d, n) && Kind(d, n) != History
    ensures Parent(d, n).Some? && Parent(d, n).value in StagedConfiguration(d, hist, cfg, ts)
    ensures NodeFilled(d, StagedConfiguration(d, hist, cfg, ts), n)
  {
    var t :| t in ts && Domain(d, t).Some? && IsDescendant(d, n, Domain(d, t).value);
    var a := Domain(d, t).value;
    DomainFilled(d, hist, cfg, ts, a);
    LegalRooted(d, cfg);
    DomainKept(d, cfg, ts, a);
    MicrostepLocal(d, hist, cfg, ts);
    assert Belongs(d, StagedConfiguration(d, hist, cfg, ts), a, n);
  }

  lemma KeptNodeLegal(d: Definition, hist: Hist, cfg: set<Node>, ts: seq<Transition>, n: Node)
    requires WellFormed(d) && HistoryOk(d, hist) && Legal(d, cfg) && Selected(d, cfg, ts) && NoRootEdges(ts)
    requires forall t | t in ts :: EndsInTree(d, t)
    requires n in StagedConfiguration(d, hist, cfg, ts) && !BelowDomain(d, ts, n)
    ensures InTree(d, n) && Kind(d, n) != History
    ensures n != ROOT ==> Parent(d, n).Some? && Parent(d, n).value in StagedConfiguration(d, hist, cfg, ts)
    ensures NodeFilled(d, StagedConfiguration(d, hist, cfg, ts), n)
  {
    MicrostepLocal(d, hist, cfg, ts);
    var cfg' := StagedConfiguration(d, hist, cfg, ts);
    assert n in cfg;
    if n != ROOT { BelowDomainSteps(d, ts, n, Parent(d, n).value); }
    if IsDomain(d, ts, n) {
      DomainFilled(d, hist, cfg, ts, n);
    } else {
      forall c | c in Children(d, n) ensures c in cfg <==> c in cfg' { BelowDomainSteps(d, ts, c, n); }
      SameChildrenFilled(d, cfg, cfg', n);
    }
  }

  lemma SameChildrenFilled(d: Definition, cfg: set<Node>, cfg': set<Node>, n: Node)
    requires InTree(d, n) && NodeFilled(d, cfg, n)
    requires forall c | c in Children(d, n) :: c in cfg <==> c in cfg'
    ensures NodeFilled(d, cfg', n)
  {
    if Kind(d, n) == Compound {
      var c :| c in Children(d, n) && c in cfg && OnlyActiveChild(d, cfg, n, c);
      assert OnlyActiveChild(d, cfg', n, c);
    }
  }

  /** The initial configuration is legal. */
  lemma StartLegal(d: Definition, hist: Hist)
    requires WellFormed(d) && HistoryOk(d, hist)
    ensures Legal(d, AddDescendants(d, hist, ROOT, {}))
  {
    HistoryOkInside(d, hist, ROOT);
    DescendantsFill(d, hist, ROOT, {});
    LegalFillsRoot(d, AddDescendants(d, hist, ROOT, {}));
  }

  // ------------------------------------------------------------------ edges of the root

  /** A targeted edge of the root exits nothing, so it keeps a legal configuration legal
      exactly when everything it enters is active already. */
  lemma RootEdgeExactly(d: Definition, hist: Hist, cfg: set<Node>, t: Transition)
    requires IsTree(d) && Shaped(d) && EntryReady(d, hist) && Legal(d, cfg)
    requires EndsInTree(d, t) && RootEdge(t)
    ensures StagedConfiguration(d, hist, cfg, [t]) == cfg + EntrySetOf(d, hist, [t])
    ensures Legal(d, StagedConfiguration(d, hist, cfg, [t])) <==> EntrySetOf(d, hist, [t]) <= cfg
  {
    DomainExactly(d, cfg, t);
    assert UnionOfExits(d, cfg, [t]) == {};
    var E, cfg' := EntrySetOf(d, hist, [t]), StagedConfiguration(d, hist, cfg, [t]);
    if Legal(d, cfg') { NestedLegal(d, cfg, cfg'); }
    if E <= cfg { assert cfg' == cfg; }
  }

  // ------------------------------------------------------------------ no active node lacks a child

  /** The root is active, and every active node has at least the active children it demands. */
  ghost predicate Inhabited(d: Definition, cfg: set<Node>)
  {
    ROOT in cfg && forall n | n in cfg :: InTree(d, n) && NodeCovered(d, cfg, n)
  }

  /** No compound has two active children. */
  ghost predicate Unsplit(d: Definition, cfg: set<Node>)
  {
    forall n: Node | n in cfg && InTree(d, n) && Kind(d, n) == Compound ::
      forall a, b | a in Children(d, n) && a in cfg && b in Children(d, n) && b in cfg :: a == b
  }

  /** That is all that an inhabited configuration can lack to be legal. */
  lemma LegalIsUnsplit(d: Definition, cfg: set<Node>)
    requires IsTree(d) && Rooted(d, cfg)
    ensures Legal(d, cfg) <==> Inhabited(d, cfg) && Unsplit(d, cfg)
  {
    hide IsTree;
    if Legal(d, cfg) {
      forall n | n in cfg ensures NodeCovered(d, cfg, n) { assert NodeFilled(d, cfg, n); }
      forall n: Node, a, b | n in cfg && InTree(d, n) && Kind(d, n) == Compound
        && a in Children(d, n) && a in cfg && b in Children(d, n) && b in cfg
        ensures a == b
      {
        assert NodeFilled(d, cfg, n);
      }
    }
    if Inhabited(d, cfg) && Unsplit(d, cfg) {
      forall n | n in cfg ensures NodeFilled(d, cfg, n) { UnsplitFilled(d, cfg, n); }
    }
  }

  lemma UnsplitFilled(d: Definition, cfg: set<Node>, n: Node)
    requires Inhabited(d, cfg) && Unsplit(d, cfg) && n in cfg
    ensures InTree(d, n) && NodeFilled(d, cfg, n)
  {
    assert NodeCovered(d, cfg, n);
    if Kind(d, n) == Compound {
      var c :| c in Children(d, n) && c in cfg;
      assert OnlyActiveChild(d, cfg, n, c);
    }
  }

  /** One transition covers what it enters and occupies its domain, whatever is stored and
      whatever was entered before. */
  lemma TransitionCovers(d: Definition, hist: Hist, t: Transition, E: set<Node>, K: set<Node>)
    requires WellFormed(d) && EntryReady(d, hist) && Rooted(d, K) && Hung(d, E, K, None)
    requires InTree(d, t.source) && EdgeOk(d, t.source, t) && EndsInTree(d, t)
    requires Domain(d, t).Some? ==> Domain(d, t).value in K
    ensures var R := AddTransition(d, hist, t, E);
            E <= R && NewCovered(d, E, R, K) && Hung(d, R, K, None) && Occupies(d, t, R + K)
  {
    hide WellFormed, EntryReady, Rooted, Hung, NewCovered, Grown, Domain;
    TreeInOrder(d);
    TransitionGrows(d, hist, t, E);
    DomainCovers(d, t);
    var R := AddTransition(d, hist, t, E);
    if t.targets == [] {
      NothingNew(d, E, K);
    } else {
      var g, dom := t.targets[0], Domain(d, t);
      assert g in t.targets;
      TargetEnters(d, hist, t, g, E);
      if Kind(d, g) == History { HistoryCovers(d, hist, g, dom, E, K); } else { TargetCovers(d, hist, g, dom, E, K); }
      DomainHangs(d, E, R, K, dom);
    }
  }

  /** A transition with a domain has put a child of it into the set. */
  ghost predicate Occupies(d: Definition, t: Transition, E: set<Node>)
    requires IsTree(d)
  {
    t.targets != [] && Domain(d, t).Some? && InTree(d, Domain(d, t).value) ==> Occupied(d, E, Domain(d, t).value)
  }

  lemma TargetEnters(d: Definition, hist: Hist, t: Transition, g: Node, E: set<Node>)
    requires IsTree(d) && EntryReady(d, hist) && EndsInTree(d, t) && t.targets == [g]
    ensures InTree(d, g) && Under(d, g, Domain(d, t))
    ensures AddTransition(d, hist, t, E) == AddAncestors(d, hist, g, Domain(d, t), AddDescendants(d, hist, g, E))
  {
    DomainCovers(d, t);
    var F := AddDescendants(d, hist, g, E);
    assert g in t.targets && t.targets[1..] == [];
    assert AddTargets(d, hist, t.targets, E) == AddTargets(d, hist, [], F) == F;
    var R := AddAncestors(d, hist, g, Domain(d, t), F);
    assert AddTargetAncestors(d, hist, t.targets, Domain(d, t), F)
           == AddTargetAncestors(d, hist, [], Domain(d, t), R) == R;
  }

  lemma DomainHangs(d: Definition, E: set<Node>, R: set<Node>, K: set<Node>, dom: Option<Node>)
    requires IsTree(d) && Hung(d, E, K, None) && Grown(d, E, R, dom) && (dom.Some? ==> dom.value in K)
    ensures Hung(d, R, K, None)
  {
    forall n | n in R ensures HangsIn(d, R, K, None, n) {
      if n in E { assert HangsIn(d, E, K, None, n); } else { assert Hangs(d, R, dom, n); }
    }
  }

  lemma HungUnder(d: Definition, E: set<Node>, K: set<Node>, dom: Option<Node>)
    requires IsTree(d) && Hung(d, E, K, None) && (dom.Some? ==> InTree(d, dom.value))
    ensures Hung(d, E, K, dom)
  {
    if dom.Some? { HungDown(d, E, K, None, dom.value); }
  }

  lemma TargetCovers(d: Definition, hist: Hist, g: Node, dom: Option<Node>, E: set<Node>, K: set<Node>)
    requires WellFormed(d) && EntryReady(d, hist) && Rooted(d, K) && Hung(d, E, K, None)
    requires Under(d, g, dom) && Kind(d, g) != History
    ensures var R := AddAncestors(d, hist, g, dom, AddDescendants(d, hist, g, E));
            E <= R && NewCovered(d, E, R, K) && (dom.Some? ==> Occupied(d, R + K, dom.value))
  {
    hide WellFormed, EntryReady, Rooted, Hung, NewCovered, Grown;
    TreeInOrder(d);
    HungDown(d, E, K, None, g);
    HungUnder(d, E, K, dom);
    var F := AddDescendants(d, hist, g, E);
    DescendantsCover(d, hist, g, E, K);
    DescendantsGrow(d, hist, g, E);
    GrownHung(d, E, F, K, g);
    NewHungBut(d, E, F, K, dom, g);
    AncestorsCover(d, hist, g, dom, F, K);
    var R := AddAncestors(d, hist, g, dom, F);
    CoveredTwice(d, E, F, R, K);
    if dom.Some? { OccupiedBy(d, R, K, dom.value, g); }
  }

  lemma HistoryCovers(d: Definition, hist: Hist, h: Node, dom: Option<Node>, E: set<Node>, K: set<Node>)
    requires WellFormed(d) && EntryReady(d, hist) && Rooted(d, K) && Hung(d, E, K, None)
    requires Under(d, h, dom) && Kind(d, h) == History
    ensures var R := AddAncestors(d, hist, h, dom, AddDescendants(d, hist, h, E));
            E <= R && NewCovered(d, E, R, K) && (dom.Some? ==> Occupied(d, R + K, dom.value))
  {
    hide WellFormed, EntryReady, Rooted, Hung, NewCovered, Grown, StepUp;
    Shape(d, h);
    var p, F := Parent(d, h).value, AddDescendants(d, hist, h, E);
    HungDown(d, E, K, None, p);
    HungUnder(d, E, K, dom);
    EntersRestored(d, hist, h, E);
    RestoredCover(d, hist, h, RestoreOf(d, hist, h), E, K);
    RestoredGrow(d, hist, h, RestoreOf(d, hist, h), E);
    ClimbStops(d, hist, h, dom, F);
    if dom != Some(p) {
      var F1 := F + {p};
      StepUpOne(d, hist, p, F);
      CompoundCovered(d, F, F1, K, p);
      CoveredTwice(d, E, F, F1, K);
      RestoredHungBut(d, E, F, K, dom, p);
      AncestorsCover(d, hist, p, dom, F1, K);
      var R := AddAncestors(d, hist, p, dom, F1);
      CoveredTwice(d, E, F1, R, K);
      if dom.Some? { OccupiedBy(d, R, K, dom.value, p); }
    }
  }

  lemma StepUpOne(d: Definition, hist: Hist, p: Node, F: set<Node>)
    requires IsTree(d) && EntryReady(d, hist) && InTree(d, p) && Kind(d, p) == Compound
    ensures StepUp(d, hist, p, F) == F + {p}
  {
  }

  lemma CompoundCovered(d: Definition, F: set<Node>, F1: set<Node>, K: set<Node>, p: Node)
    requires InTree(d, p) && Kind(d, p) == Compound && Occupied(d, F + K, p) && F1 == F + {p}
    ensures NewCovered(d, F, F1, K)
  {
    var c :| c in Children(d, p) && c in F + K;
    assert c in F1 + K;
  }

  lemma RestoredHungBut(d: Definition, E: set<Node>, F: set<Node>, K: set<Node>, dom: Option<Node>, p: Node)
    requires IsTree(d) && Hung(d, E, K, dom) && Grown(d, E, F, Some(p))
    ensures HungBut(d, F + {p}, K, dom, p)
  {
    forall n | n in F + {p} && n != p ensures HangsIn(d, F + {p}, K, dom, n) {
      if n in E { assert HangsIn(d, E, K, dom, n); } else { assert Hangs(d, F, Some(p), n); }
    }
  }

  /** So does a whole set of transitions. */
  lemma {:induction false} EntryCoversFrom(d: Definition, hist: Hist, ts: seq<Transition>, E: set<Node>, K: set<Node>)
    requires WellFormed(d) && EntryReady(d, hist) && Rooted(d, K) && Hung(d, E, K, None)
    requires EdgesActive(d, ts) && (forall t | t in ts :: EndsInTree(d, t))
    requires forall t | t in ts && Domain(d, t).Some? :: Domain(d, t).value in K
    ensures var R := EntrySetFrom(d, hist, ts, E);
            E <= R && NewCovered(d, E, R, K) && forall t | t in ts :: Occupies(d, t, R + K)
    decreases |ts|
  {
    hide WellFormed, EntryReady, Rooted, Hung, NewCovered, Domain, Occupies;
    TreeInOrder(d);
    if ts == [] {
      NothingNew(d, E, K);
    } else {
      var t0, rest := ts[0], ts[1..];
      assert t0 in ts && forall t | t in rest :: t in ts;
      var F := AddTransition(d, hist, t0, E);
      TransitionCovers(d, hist, t0, E, K);
      EntryCoversFrom(d, hist, rest, F, K);
      var R := EntrySetFrom(d, hist, rest, F);
      assert EntrySetFrom(d, hist, ts, E) == R;
      CoveredTwice(d, E, F, R, K);
      forall t | t in ts ensures Occupies(d, t, R + K) {
        if t == t0 { OccupiesMore(d, t, F + K, R + K); } else { assert t in rest; }
      }
    }
  }

  lemma OccupiesMore(d: Definition, t: Transition, E: set<Node>, F: set<Node>)
    requires IsTree(d) && Occupies(d, t, E) && E <= F
    ensures Occupies(d, t, F)
  {
  }

  /** A microstep of any selected edges, those of the root included, and whatever is stored,
      leaves no active node without the active children it demands. */
  lemma StagedInhabited(d: Definition, hist: Hist, cfg: set<Node>, ts: seq<Transition>)
    requires WellFormed(d) && EntryReady(d, hist) && Rooted(d, cfg) && Inhabited(d, cfg) && Selected(d, cfg, ts)
    ensures forall t | t in ts :: EndsInTree(d, t)
    ensures Inhabited(d, StagedConfiguration(d, hist, cfg, ts))
  {
    hide WellFormed, EntryReady, Selected, Domain, NewCovered, NodeCovered, Occupies, UnionOfExits, IsDescendant;
    TreeInOrder(d);
    SelectedReady(d, cfg, ts);
    ExitsBelowDomains(d, cfg, ts);
    var K, E := cfg - UnionOfExits(d, cfg, ts), EntrySetOf(d, hist, ts);
    KeptRooted(d, cfg, ts, K);
    forall t | t in ts && Domain(d, t).Some? ensures Domain(d, t).value in K {
      assert IsDomain(d, ts, Domain(d, t).value);
      DomainKept(d, cfg, ts, Domain(d, t).value);
    }
    EntryCoversFrom(d, hist, ts, {}, K);
    RootStays(d, ts);
    assert E + K == StagedConfiguration(d, hist, cfg, ts);
    forall n | n in E + K ensures InTree(d, n) && NodeCovered(d, E + K, n) {
      if n in E { NewOneCovered(d, {}, E, K, n); } else { KeptCovered(d, cfg, ts, K, E, n); }
    }
  }

  lemma NewOneCovered(d: Definition, E: set<Node>, R: set<Node>, K: set<Node>, n: Node)
    requires NewCovered(d, E, R, K) && n in R && n !in E
    ensures InTree(d, n) && NodeCovered(d, R + K, n)
  {
  }

  lemma RootStays(d: Definition, ts: seq<Transition>)
    requires IsTree(d)
    ensures !BelowDomain(d, ts, ROOT)
  {
  }

  lemma KeptRooted(d: Definition, cfg: set<Node>, ts: seq<Transition>, K: set<Node>)
    requires IsTree(d) && Rooted(d, cfg) && forall n: Node :: n in K <==> n in cfg && !BelowDomain(d, ts, n)
    ensures Rooted(d, K)
  {
    hide BelowDomain, IsTree;
    forall n | n in K && n != ROOT ensures Parent(d, n).Some? && Parent(d, n).value in K {
      BelowDomainSteps(d, ts, n, Parent(d, n).value);
    }
  }

  lemma KeptCovered(d: Definition, cfg: set<Node>, ts: seq<Transition>, K: set<Node>, E: set<Node>, n: Node)
    requires WellFormed(d) && Rooted(d, cfg) && Inhabited(d, cfg) && Selected(d, cfg, ts) && n in K
    requires forall m: Node :: m in K <==> m in cfg && !BelowDomain(d, ts, m)
    requires forall t | t in ts :: EndsInTree(d, t) && Occupies(d, t, E + K)
    ensures InTree(d, n) && NodeCovered(d, E + K, n)
  {
    hide BelowDomain, Domain, Selected, NodeCovered;
    TreeInOrder(d);
    if IsDomain(d, ts, n) {
      var t :| t in ts && Domain(d, t) == Some(n);
      DomainIsCompound(d, t);
      OccupiedCompound(d, E + K, n);
    } else {
      forall c | c in Children(d, n) && c in cfg ensures c in K { BelowDomainSteps(d, ts, c, n); }
      SameChildrenCovered(d, cfg, E + K, n);
    }
  }

  lemma OccupiedCompound(d: Definition, E: set<Node>, n: Node)
    requires InTree(d, n) && Kind(d, n) == Compound && Occupied(d, E, n)
    ensures NodeCovered(d, E, n)
  {
  }

  lemma SameChildrenCovered(d: Definition, cfg: set<Node>, E: set<Node>, n: Node)
    requires InTree(d, n) && NodeCovered(d, cfg, n) && forall c | c in Children(d, n) && c in cfg :: c in E
    ensures NodeCovered(d, E, n)
  {
  }

  lemma DomainIsCompound(d: Definition, t: Transition)
    requires WellFormed(d) && EndsInTree(d, t) && Domain(d, t).Some?
    ensures t.targets != [] && InTree(d, Domain(d, t).value) && Kind(d, Domain(d, t).value) == Compound
  {
    LccaIsLeast(d, t.source, t.targets);
  }
}
