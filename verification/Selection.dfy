/** Transition selection and conflict resolution (transition.go). */
module Selection {
  import opened Definitions
  import opened Configurations

  // ------------------------------------------------------------------ domains

  /** Compound states and the root qualify as a least common compound ancestor. */
  predicate Qualifies(d: Definition, a: Node)
    requires IsTree(d)
  {
    InTree(d, a) && (Kind(d, a) == Compound || Parent(d, a) == None)
  }

  predicate CoversAll(d: Definition, others: seq<Node>, a: Node)
    requires IsTree(d)
  {
    forall o | o in others :: IsDescendant(d, o, a)
  }

  /** a is a proper ancestor of n that qualifies and contains all the others. */
  predicate CommonAncestor(d: Definition, n: Node, others: seq<Node>, a: Node)
    requires IsTree(d)
  {
    IsDescendant(d, n, a) && Qualifies(d, a) && CoversAll(d, others, a)
  }

  function LccaFrom(d: Definition, n: Node, others: seq<Node>): Option<Node>
    requires IsTree(d)
    decreases n
  {
    if !InTree(d, n) || Parent(d, n) == None then None
    else
      var p := Parent(d, n).value;
      if Qualifies(d, p) && CoversAll(d, others, p) then Some(p) else LccaFrom(d, p, others)
  }

  /** The search finds the least common compound ancestor, and nil only if there is none. */
  lemma {:induction false} LccaIsLeast(d: Definition, n: Node, others: seq<Node>)
    requires IsTree(d) && InTree(d, n)
    ensures LccaFrom(d, n, others).Some? ==>
              && CommonAncestor(d, n, others, LccaFrom(d, n, others).value)
              && forall b: Node | CommonAncestor(d, n, others, b) :: InSubtree(d, LccaFrom(d, n, others).value, b)
    ensures LccaFrom(d, n, others) == None ==> forall b: Node :: !CommonAncestor(d, n, others, b)
    decreases n
  {
    if Parent(d, n).Some? {
      var p := Parent(d, n).value;
      LccaIsLeast(d, p, others);
      forall b: Node | CommonAncestor(d, n, others, b) ensures b == p || CommonAncestor(d, p, others, b) { }
    }
  }

  /** transition.go: findLCCA. */
  method FindLcca(d: Definition, states: seq<Node>) returns (lcca: Option<Node>)
    requires IsTree(d) && forall s | s in states :: InTree(d, s)
    ensures states == [] ==> lcca == None
    ensures states != [] ==> lcca == LccaFrom(d, states[0], states[1..])
    ensures lcca.Some? ==>
              && CommonAncestor(d, states[0], states[1..], lcca.value)
              && forall b: Node | CommonAncestor(d, states[0], states[1..], b) :: InSubtree(d, lcca.value, b)
    ensures states != [] && lcca == None ==> forall b: Node :: !CommonAncestor(d, states[0], states[1..], b)
  {
    if states == [] { return None; }
    assert states[0] in states;
    LccaIsLeast(d, states[0], states[1..]);
    var cur := states[0];
    while Parent(d, cur).Some?
      invariant InTree(d, cur)
      invariant LccaFrom(d, states[0], states[1..]) == LccaFrom(d, cur, states[1..])
      decreases cur
    {
      var anc := Parent(d, cur).value;
      cur := anc;
      if Kind(d, anc) == Compound || Parent(d, anc) == None {
        var ok := true;
        for i := 1 to |states|
          invariant ok && forall j | 1 <= j < i :: IsDescendant(d, states[j], anc)
        {
          assert states[i] in states;
          var below := CheckDescendant(d, states[i], Some(anc));
          if !below {
            ok := false;
            assert states[1..][i - 1] == states[i];
            assert !CoversAll(d, states[1..], anc);
            break;
          }
        }
        if ok {
          assert CoversAll(d, states[1..], anc);
          return Some(anc);
        }
      }
    }
    return None;
  }

  function Domain(d: Definition, t: Transition): Option<Node>
    requires IsTree(d)
  {
    if t.targets == [] then None else LccaFrom(d, t.source, t.targets)
  }

  /** The active proper descendants of the domain; nothing when the domain is nil. */
  function ExitSetOf(d: Definition, cfg: set<Node>, t: Transition): set<Node>
    requires IsTree(d)
  {
    match Domain(d, t)
    case None => {}
    case Some(a) => set s | s in cfg && IsDescendant(d, s, a)
  }

  /** A targeted edge has a domain if and only if neither end is the root: the search walks
      proper ancestors only.  An edge with the root as source or target exits nothing. */
  lemma DomainExactly(d: Definition, cfg: set<Node>, t: Transition)
    requires IsTree(d) && InTree(d, t.source) && (forall g | g in t.targets :: InTree(d, g)) && t.targets != []
    ensures Domain(d, t).Some? <==> t.source != ROOT && ROOT !in t.targets
    ensures Domain(d, t) == None ==> ExitSetOf(d, cfg, t) == {}
  {
    LccaIsLeast(d, t.source, t.targets);
    if t.source != ROOT && ROOT !in t.targets {
      AllUnderRoot(d, t.source);
      forall g | g in t.targets ensures IsDescendant(d, g, ROOT) { AllUnderRoot(d, g); }
      assert CommonAncestor(d, t.source, t.targets, ROOT);
    }
    assert forall a: Node :: !IsDescendant(d, ROOT, a);
  }

  /** Away from the root a targeted edge has a compound domain above both ends. */
  lemma DomainOfTargeted(d: Definition, t: Transition)
    requires WellFormed(d) && InTree(d, t.source) && EdgeOk(d, t.source, t) && t.targets != [] && !RootEdge(t)
    ensures Domain(d, t).Some?
    ensures InTree(d, Domain(d, t).value) && Kind(d, Domain(d, t).value) == Compound
    ensures IsDescendant(d, t.source, Domain(d, t).value) && IsDescendant(d, t.targets[0], Domain(d, t).value)
  {
    LccaIsLeast(d, t.source, t.targets);
    AllUnderRoot(d, t.source);
    AllUnderRoot(d, t.targets[0]);
    assert CommonAncestor(d, t.source, t.targets, ROOT);
    var a := Domain(d, t).value;
    assert t.targets[0] in t.targets;
    if Parent(d, a) == None { assert a == ROOT; }
  }

  // ------------------------------------------------------------------ matching

  function InvokeEdges(invokes: seq<Invoke>): seq<Transition>
  {
    if invokes == [] then [] else invokes[0].onDone + invokes[0].onError + InvokeEdges(invokes[1..])
  }

  /** A node's own edges, then the edges of its invokes. */
  function EventedEdges(node: StateNode): seq<Transition> { node.transitions + InvokeEdges(node.invokes) }

  function FirstWhere(ts: seq<Transition>, p: Transition -> bool): Option<Transition>
  {
    if ts == [] then None else if p(ts[0]) then Some(ts[0]) else FirstWhere(ts[1..], p)
  }

  datatype Trigger = Always | OnEvent(descriptor: string)

  /** The edge of node s that fires: exact matches before the catch-all. */
  function At(d: Definition, trigger: Trigger, pass: Transition -> bool, s: Node): Option<Transition>
    requires InTree(d, s)
  {
    match trigger
    case Always => FirstWhere(d.nodes[s].transitions, (t: Transition) => t.Eventless() && pass(t))
    case OnEvent(e) =>
      var exact := FirstWhere(EventedEdges(d.nodes[s]), (t: Transition) => !t.Eventless() && t.event == e && pass(t));
      if exact.Some? then exact
      else FirstWhere(EventedEdges(d.nodes[s]), (t: Transition) => !t.Eventless() && t.event == "*" && pass(t))
  }

  /** An edge that may fire on the trigger. */
  predicate Fires(trigger: Trigger, pass: Transition -> bool, t: Transition)
  {
    && pass(t)
    && (match trigger
        case Always => t.Eventless()
        case OnEvent(e) => !t.Eventless() && (t.event == e || t.event == "*"))
  }

  function Offered(d: Definition, trigger: Trigger, s: Node): seq<Transition>
    requires InTree(d, s)
  {
    if trigger == Always then d.nodes[s].transitions else EventedEdges(d.nodes[s])
  }

  lemma {:induction false} FirstWhereMeaning(ts: seq<Transition>, p: Transition -> bool)
    ensures FirstWhere(ts, p).Some? ==> FirstWhere(ts, p).value in ts && p(FirstWhere(ts, p).value)
    ensures FirstWhere(ts, p) == None <==> forall t | t in ts :: !p(t)
  {
    if ts == [] {
    } else {
      FirstWhereMeaning(ts[1..], p);
      assert forall t :: t in ts <==> t == ts[0] || t in ts[1..];
    }
  }

  /** A node fires one of the edges it offers, or none of them may fire. */
  lemma AtMeaning(d: Definition, trigger: Trigger, pass: Transition -> bool, s: Node)
    requires InTree(d, s)
    ensures At(d, trigger, pass, s).Some? ==>
              At(d, trigger, pass, s).value in Offered(d, trigger, s)
                && Fires(trigger, pass, At(d, trigger, pass, s).value)
    ensures At(d, trigger, pass, s) == None <==> forall t | t in Offered(d, trigger, s) :: !Fires(trigger, pass, t)
  {
    match trigger
    case Always => FirstWhereMeaning(d.nodes[s].transitions, (t: Transition) => t.Eventless() && pass(t));
    case OnEvent(e) =>
      FirstWhereMeaning(EventedEdges(d.nodes[s]), (t: Transition) => !t.Eventless() && t.event == e && pass(t));
      FirstWhereMeaning(EventedEdges(d.nodes[s]), (t: Transition) => !t.Eventless() && t.event == "*" && pass(t));
  }

  /** The edge names the event itself, not the catch-all; there is no catch-all for eventless edges. */
  predicate Exact(trigger: Trigger, t: Transition)
  {
    match trigger
    case Always => true
    case OnEvent(e) => t.event == e
  }

  /** The k-th edge offered at s goes first: it may fire, and of all that may fire an exact match
      goes before the catch-all, and of two of a kind the earlier one. */
  ghost predicate GoesFirst(d: Definition, trigger: Trigger, pass: Transition -> bool, s: Node, k: nat)
    requires InTree(d, s)
  {
    var ts := Offered(d, trigger, s);
    && k < |ts| && Fires(trigger, pass, ts[k])
    && forall j | 0 <= j < |ts| && j != k && Fires(trigger, pass, ts[j]) ::
         if Exact(trigger, ts[j]) then Exact(trigger, ts[k]) && k < j else Exact(trigger, ts[k]) || k < j
  }

  lemma {:induction false} FirstWherePlace(ts: seq<Transition>, p: Transition -> bool) returns (k: nat)
    requires FirstWhere(ts, p).Some?
    ensures k < |ts| && FirstWhere(ts, p) == Some(ts[k]) && p(ts[k]) && forall j | 0 <= j < k :: !p(ts[j])
  {
    if p(ts[0]) {
      k := 0;
    } else {
      var i := FirstWherePlace(ts[1..], p);
      k := i + 1;
      forall j | 0 <= j < k ensures !p(ts[j]) { if j > 0 { assert ts[j] == ts[1..][j - 1]; } }
    }
  }

  /** A node fires the edge that goes first among those it offers. */
  lemma AtGoesFirst(d: Definition, trigger: Trigger, pass: Transition -> bool, s: Node) returns (k: nat)
    requires InTree(d, s) && At(d, trigger, pass, s).Some?
    ensures GoesFirst(d, trigger, pass, s, k) && At(d, trigger, pass, s) == Some(Offered(d, trigger, s)[k])
  {
    match trigger
    case Always => k := FirstWherePlace(d.nodes[s].transitions, (t: Transition) => t.Eventless() && pass(t));
    case OnEvent(e) =>
      var ts := EventedEdges(d.nodes[s]);
      var exact, other := (t: Transition) => !t.Eventless() && t.event == e && pass(t),
        (t: Transition) => !t.Eventless() && t.event == "*" && pass(t);
      FirstWhereMeaning(ts, exact);
      if FirstWhere(ts, exact).Some? {
        k := FirstWherePlace(ts, exact);
        assert forall j | 0 <= j < k :: !exact(ts[j]);
      } else {
        k := FirstWherePlace(ts, other);
        assert forall j | 0 <= j < |ts| :: ts[j] in ts && !exact(ts[j]);
        assert forall j | 0 <= j < k :: !other(ts[j]);
      }
  }

  lemma {:induction false} InvokeEdgesInTurn(a: seq<Invoke>, b: seq<Invoke>)
    ensures InvokeEdges(a + b) == InvokeEdges(a) + InvokeEdges(b)
  {
    if a == [] {
      assert a + b == b;
    } else {
      assert (a + b)[1..] == a[1..] + b;
      InvokeEdgesInTurn(a[1..], b);
    }
  }

  /** The order of what a node offers: its own edges, and then, invoke by invoke, the edges for
      its success before those for its failure. */
  lemma EventedOrder(node: StateNode, k: nat)
    ensures node.transitions <= EventedEdges(node)
    ensures k < |node.invokes| ==>
              var before, after := InvokeEdges(node.invokes[..k]), InvokeEdges(node.invokes[k + 1..]);
              EventedEdges(node)
              == node.transitions + before + node.invokes[k].onDone + node.invokes[k].onError + after
  {
    if k < |node.invokes| {
      var rest := node.invokes[k..];
      assert node.invokes == node.invokes[..k] + rest && rest[1..] == node.invokes[k + 1..];
      InvokeEdgesInTurn(node.invokes[..k], rest);
    }
  }

  lemma {:induction false} InvokeEdgesOk(d: Definition, n: Node, invokes: seq<Invoke>)
    requires forall iv | iv in invokes ::
             (forall t | t in iv.onDone :: EdgeOk(d, n, t)) && (forall t | t in iv.onError :: EdgeOk(d, n, t))
    ensures forall t | t in InvokeEdges(invokes) :: EdgeOk(d, n, t)
  {
    if invokes == [] {
    } else {
      assert invokes[0] in invokes;
      forall iv | iv in invokes[1..] ensures iv in invokes { }
      InvokeEdgesOk(d, n, invokes[1..]);
    }
  }

  lemma AtEdgeOk(d: Definition, trigger: Trigger, pass: Transition -> bool, s: Node)
    requires InTree(d, s) && EdgesOk(d, s)
    ensures At(d, trigger, pass, s).Some? ==> EdgeOk(d, s, At(d, trigger, pass, s).value)
  {
    AtMeaning(d, trigger, pass, s);
    InvokeEdgesOk(d, s, d.nodes[s].invokes);
  }

  /** The first firing edge of s or, failing that, of its ancestors, innermost first. */
  function FirstUp(d: Definition, trigger: Trigger, pass: Transition -> bool, s: Node): Option<Transition>
    requires IsTree(d) && InTree(d, s)
    decreases s
  {
    if At(d, trigger, pass, s).Some? then At(d, trigger, pass, s)
    else match Parent(d, s)
         case None => None
         case Some(p) => FirstUp(d, trigger, pass, p)
  }

  lemma {:induction false} FirstUpMeaning(d: Definition, trigger: Trigger, pass: Transition -> bool, s: Node)
    requires IsTree(d) && InTree(d, s) && forall n: Node | n < |d.nodes| :: EdgesOk(d, n)
    ensures FirstUp(d, trigger, pass, s).Some? ==>
              var t := FirstUp(d, trigger, pass, s).value;
              InSubtree(d, s, t.source) && InTree(d, t.source) && At(d, trigger, pass, t.source) == Some(t)
                && EdgeOk(d, t.source, t)
    ensures FirstUp(d, trigger, pass, s) == None <==>
              forall n: Node | InTree(d, n) && InSubtree(d, s, n) :: At(d, trigger, pass, n) == None
    decreases s
  {
    AtEdgeOk(d, trigger, pass, s);
    if At(d, trigger, pass, s) == None && Parent(d, s).Some? {
      var p := Parent(d, s).value;
      FirstUpMeaning(d, trigger, pass, p);
      forall n: Node | InTree(d, n) && InSubtree(d, s, n) ensures n == s || InSubtree(d, p, n) { }
      forall n: Node | InTree(d, n) && InSubtree(d, p, n) ensures InSubtree(d, s, n) { }
    }
  }

  /** t is what an active leaf finds, looking outwards: the edge that goes first at the innermost
      of its ancestors, itself included, that offers one that may fire. */
  ghost predicate Innermost(d: Definition, trigger: Trigger, pass: Transition -> bool, leaf: Node, t: Transition)
    requires IsTree(d)
  {
    && InTree(d, t.source) && InSubtree(d, leaf, t.source)
    && (exists k: nat :: GoesFirst(d, trigger, pass, t.source, k) && Offered(d, trigger, t.source)[k] == t)
    && forall n: Node, u | InTree(d, n) && InSubtree(d, leaf, n) && IsDescendant(d, n, t.source)
         && u in Offered(d, trigger, n) :: !Fires(trigger, pass, u)
  }

  /** The search from a leaf finds that edge. */
  lemma {:induction false} FirstUpInnermost(d: Definition, trigger: Trigger, pass: Transition -> bool, s: Node)
    requires IsTree(d) && InTree(d, s) && forall n: Node | n < |d.nodes| :: EdgesOk(d, n)
    requires FirstUp(d, trigger, pass, s).Some?
    ensures Innermost(d, trigger, pass, s, FirstUp(d, trigger, pass, s).value)
    decreases s
  {
    AtMeaning(d, trigger, pass, s);
    if At(d, trigger, pass, s).Some? {
      AtEdgeOk(d, trigger, pass, s);
      var k := AtGoesFirst(d, trigger, pass, s);
      forall n: Node | InSubtree(d, s, n) ensures !IsDescendant(d, n, s) {
        if IsDescendant(d, n, s) {
          DescendantAfter(d, n, s);
          if s != n { DescendantAfter(d, s, n); }
        }
      }
    } else {
      var p, t := Parent(d, s).value, FirstUp(d, trigger, pass, s).value;
      FirstUpInnermost(d, trigger, pass, p);
      forall n: Node | InTree(d, n) && InSubtree(d, s, n) ensures n == s || InSubtree(d, p, n) { }
    }
  }

  /** And there is no other: the leaf and the chart determine it. */
  lemma InnermostOnly(d: Definition, trigger: Trigger, pass: Transition -> bool, leaf: Node, t: Transition,
                      u: Transition)
    requires IsTree(d) && Innermost(d, trigger, pass, leaf, t) && Innermost(d, trigger, pass, leaf, u)
    ensures t == u
  {
    var k: nat :| GoesFirst(d, trigger, pass, t.source, k) && Offered(d, trigger, t.source)[k] == t;
    var j: nat :| GoesFirst(d, trigger, pass, u.source, j) && Offered(d, trigger, u.source)[j] == u;
    assert t in Offered(d, trigger, t.source) && u in Offered(d, trigger, u.source);
    if t.source != u.source {
      if leaf != t.source && leaf != u.source { AncestorsLinear(d, leaf, t.source, u.source); }
    }
  }

  /** The enabled edges found from the given leaves, without repetition. */
  function Collect(d: Definition, trigger: Trigger, pass: Transition -> bool, leaves: seq<Node>,
                   found: seq<Transition>): seq<Transition>
    requires IsTree(d) && forall n | n in leaves :: InTree(d, n)
  {
    if leaves == [] then found
    else
      assert leaves[0] in leaves;
      var t := FirstUp(d, trigger, pass, leaves[0]);
      Collect(d, trigger, pass, leaves[1..], if t.Some? && t.value !in found then found + [t.value] else found)
  }

  predicate FromLeaf(d: Definition, trigger: Trigger, pass: Transition -> bool, leaves: seq<Node>, t: Transition)
    requires IsTree(d)
  {
    exists n | n in leaves :: InTree(d, n) && FirstUp(d, trigger, pass, n) == Some(t)
  }

  predicate NoRepeats(ts: seq<Transition>) { forall i, j | 0 <= i < j < |ts| :: ts[i] != ts[j] }

  lemma {:induction false} CollectMeaning(d: Definition, trigger: Trigger, pass: Transition -> bool, leaves: seq<Node>,
                                          found: seq<Transition>)
    requires IsTree(d) && (forall n | n in leaves :: InTree(d, n)) && NoRepeats(found)
    ensures NoRepeats(Collect(d, trigger, pass, leaves, found))
    ensures forall t ::
              t in Collect(d, trigger, pass, leaves, found) <==> t in found || FromLeaf(d, trigger, pass, leaves, t)
  {
    if leaves == [] {
    } else {
      var n0 := leaves[0];
      var t0 := FirstUp(d, trigger, pass, n0);
      var found' := if t0.Some? && t0.value !in found then found + [t0.value] else found;
      CollectMeaning(d, trigger, pass, leaves[1..], found');
      forall t ensures FromLeaf(d, trigger, pass, leaves, t)
        <==> t0 == Some(t) || FromLeaf(d, trigger, pass, leaves[1..], t) {
        assert forall n :: n in leaves <==> n == n0 || n in leaves[1..];
      }
    }
  }

  // ------------------------------------------------------------------ sorting

  predicate SortsBefore(t1: Transition, t2: Transition)
  {
    t1.source < t2.source || (t1.source == t2.source && t1.docOrder < t2.docOrder)
  }

  /** Inserts before the first element that does not sort before t: a stable sort step. */
  function Insert(t: Transition, ts: seq<Transition>): seq<Transition>
  {
    if ts == [] then [t] else if SortsBefore(ts[0], t) then [ts[0]] + Insert(t, ts[1..]) else [t] + ts
  }

  function SortBySource(ts: seq<Transition>): seq<Transition>
  {
    if ts == [] then [] else Insert(ts[0], SortBySource(ts[1..]))
  }

  predicate DistinctSources(ts: seq<Transition>)
  {
    forall i, j | 0 <= i < j < |ts| :: ts[i].source != ts[j].source
  }

  predicate AscendingSources(ts: seq<Transition>)
  {
    forall i, j | 0 <= i < j < |ts| :: ts[i].source < ts[j].source
  }

  lemma {:induction false} InsertMeaning(t: Transition, ts: seq<Transition>)
    requires AscendingSources(ts) && forall u | u in ts :: u.source != t.source
    ensures AscendingSources(Insert(t, ts))
    ensures forall u :: u in Insert(t, ts) <==> u == t || u in ts
  {
    if ts == [] {
    } else {
      assert ts[0] in ts;
      if SortsBefore(ts[0], t) {
        forall u | u in ts[1..] ensures u in ts { }
        InsertMeaning(t, ts[1..]);
        var rest := Insert(t, ts[1..]);
        assert forall u :: u in ts <==> u == ts[0] || u in ts[1..];
        forall i | 0 <= i < |rest| ensures ts[0].source < rest[i].source { assert rest[i] in rest; }
      } else {
        forall i | 0 <= i < |ts| ensures t.source < ts[i].source { }
      }
    }
  }

  lemma {:induction false} SortMeaning(ts: seq<Transition>)
    requires DistinctSources(ts)
    ensures AscendingSources(SortBySource(ts))
    ensures forall u :: u in SortBySource(ts) <==> u in ts
  {
    if ts == [] {
    } else {
      SortMeaning(ts[1..]);
      assert forall u :: u in ts <==> u == ts[0] || u in ts[1..];
      InsertMeaning(ts[0], SortBySource(ts[1..]));
    }
  }

  // ------------------------------------------------------------------ conflict resolution

  predicate Conflict(d: Definition, cfg: set<Node>, t1: Transition, t2: Transition)
    requires IsTree(d)
  {
    ExitSetOf(d, cfg, t1) * ExitSetOf(d, cfg, t2) != {}
  }

  predicate Preempted(d: Definition, cfg: set<Node>, t: Transition, filtered: seq<Transition>)
    requires IsTree(d)
  {
    exists u | u in filtered :: Conflict(d, cfg, t, u) && !IsDescendant(d, t.source, u.source)
  }

  function Without(ts: seq<Transition>, removed: set<Transition>): seq<Transition>
  {
    if ts == [] then [] else (if ts[0] in removed then [] else [ts[0]]) + Without(ts[1..], removed)
  }

  lemma {:induction false} WithoutMeaning(ts: seq<Transition>, removed: set<Transition>)
    ensures forall u :: u in Without(ts, removed) <==> u in ts && u !in removed
    ensures AscendingSources(ts) ==> AscendingSources(Without(ts, removed))
  {
    if ts == [] {
    } else {
      var rest := Without(ts[1..], removed);
      WithoutMeaning(ts[1..], removed);
      assert forall u :: u in ts <==> u == ts[0] || u in ts[1..];
      if AscendingSources(ts) {
        forall i | 0 <= i < |rest| ensures ts[0].source < rest[i].source { assert rest[i] in ts[1..]; }
      }
    }
  }

  /** The kept edges that the deeper edge t preempts. */
  function PreemptedBy(d: Definition, cfg: set<Node>, t: Transition, filtered: seq<Transition>): set<Transition>
    requires IsTree(d)
  {
    set u | u in filtered && Conflict(d, cfg, t, u)
  }

  function ResolveOne(d: Definition, cfg: set<Node>, t: Transition, filtered: seq<Transition>): seq<Transition>
    requires IsTree(d)
  {
    if Preempted(d, cfg, t, filtered) then filtered else Without(filtered, PreemptedBy(d, cfg, t, filtered)) + [t]
  }

  function ResolveAll(d: Definition, cfg: set<Node>, ts: seq<Transition>): seq<Transition>
    requires IsTree(d)
  {
    if ts == [] then []
    else
      var last := |ts| - 1;
      ResolveOne(d, cfg, ts[last], ResolveAll(d, cfg, ts[..last]))
  }

  /** Sources in post-order: descendants first, otherwise document order. */
  predicate PostBefore(d: Definition, m: Node, n: Node)
    requires IsTree(d)
  {
    IsDescendant(d, m, n) || (m < n && !IsDescendant(d, n, m))
  }

  predicate Beats(d: Definition, cfg: set<Node>, u: Transition, t: Transition)
    requires IsTree(d)
  {
    Conflict(d, cfg, u, t) && PostBefore(d, u.source, t.source)
  }

  predicate Unbeaten(d: Definition, cfg: set<Node>, kept: seq<Transition>, t: Transition)
    requires IsTree(d)
  {
    forall u | u in kept :: !Beats(d, cfg, u, t)
  }

  /** The reference definition of preemption: exactly the enabled edges are kept that
      conflict with no kept edge whose source comes earlier in post-order. */
  ghost predicate IsKernel(d: Definition, cfg: set<Node>, enabled: seq<Transition>, kept: seq<Transition>)
    requires IsTree(d)
  {
    && (forall t | t in kept :: t in enabled)
    && (forall t | t in enabled :: t in kept <==> Unbeaten(d, cfg, kept, t))
  }

  /** What selection hands to conflict resolution. */
  predicate Resolvable(d: Definition, cfg: set<Node>, ts: seq<Transition>)
  {
    && DistinctSources(ts)
    && forall t | t in ts :: InTree(d, t.source) && t.source in cfg && EdgeOk(d, t.source, t)
  }

  /** An edge that has a domain conflicts with every such edge of an ancestor. */
  lemma DeeperConflicts(d: Definition, cfg: set<Node>, t1: Transition, t2: Transition)
    requires IsTree(d) && InTree(d, t1.source) && t1.source in cfg && InTree(d, t2.source)
    requires Domain(d, t1).Some? && Domain(d, t2).Some?
    requires InSubtree(d, t1.source, t2.source)
    ensures Conflict(d, cfg, t1, t2)
  {
    LccaIsLeast(d, t1.source, t1.targets);
    LccaIsLeast(d, t2.source, t2.targets);
    if t1.source != t2.source { DescendantTransitive(d, t1.source, t2.source, Domain(d, t2).value); }
    assert t1.source in ExitSetOf(d, cfg, t1) * ExitSetOf(d, cfg, t2);
  }

  lemma ConflictSymmetric(d: Definition, cfg: set<Node>, t1: Transition, t2: Transition)
    requires IsTree(d)
    ensures Conflict(d, cfg, t1, t2) <==> Conflict(d, cfg, t2, t1)
  {
    assert ExitSetOf(d, cfg, t1) * ExitSetOf(d, cfg, t2) == ExitSetOf(d, cfg, t2) * ExitSetOf(d, cfg, t1);
  }

  /** One more edge, later in document order than those resolved so far. */
  lemma ResolveOneKernel(d: Definition, cfg: set<Node>, ts: seq<Transition>, t1: Transition, kept: seq<Transition>)
    requires WellFormed(d)
    requires Resolvable(d, cfg, ts + [t1]) && forall t | t in ts :: t.source < t1.source
    requires IsKernel(d, cfg, ts, kept)
    ensures IsKernel(d, cfg, ts + [t1], ResolveOne(d, cfg, t1, kept))
  {
    hide WellFormed, IsTree, IsPreOrder, IsDescendant, Conflict;
    TreeInOrder(d);
    var kept' := ResolveOne(d, cfg, t1, kept);
    assert t1 in ts + [t1];
    forall t | t in ts ensures t in ts + [t1] { }
    forall t | t in ts
      ensures PostBefore(d, t1.source, t.source) <==> IsDescendant(d, t1.source, t.source)
      ensures Conflict(d, cfg, t1, t) <==> Conflict(d, cfg, t, t1)
      ensures !IsDescendant(d, t.source, t1.source)
    {
      ConflictSymmetric(d, cfg, t1, t);
      if IsDescendant(d, t.source, t1.source) { DescendantAfter(d, t.source, t1.source); }
    }
    WithoutMeaning(kept, PreemptedBy(d, cfg, t1, kept));
    if Preempted(d, cfg, t1, kept) {
      var u :| u in kept && Conflict(d, cfg, t1, u) && !IsDescendant(d, t1.source, u.source);
      assert Beats(d, cfg, u, t1);
    } else {
      forall t | t in ts + [t1] ensures t in kept' <==> Unbeaten(d, cfg, kept', t) {
        if t == t1 {
          if IsDescendant(d, t1.source, t1.source) { DescendantAfter(d, t1.source, t1.source); }
        } else if t in kept {
          if t !in kept' { assert Beats(d, cfg, t1, t); }
        } else {
          var u :| u in kept && Beats(d, cfg, u, t);
          if u !in kept' { BeatenThrough(d, cfg, t1, u, t); }
        }
      }
    }
  }

  /** If t1 removes u and u had beaten t, then t1 beats t: no preempter is dropped in vain. */
  lemma BeatenThrough(d: Definition, cfg: set<Node>, t1: Transition, u: Transition, t: Transition)
    requires WellFormed(d)
    requires InTree(d, t1.source) && t1.source in cfg && EdgeOk(d, t1.source, t1)
    requires InTree(d, u.source) && InTree(d, t.source) && EdgeOk(d, t.source, t)
    requires t.source < t1.source && IsDescendant(d, t1.source, u.source)
    requires Conflict(d, cfg, t1, u) && Beats(d, cfg, u, t)
    ensures Beats(d, cfg, t1, t)
  {
    if IsDescendant(d, u.source, t.source) {
      DescendantTransitive(d, t1.source, u.source, t.source);
      assert Domain(d, t1).Some? && Domain(d, t).Some?;
      DeeperConflicts(d, cfg, t1, t);
    }
  }

  /** Scanning in document order and dropping preempted edges yields the kernel. */
  lemma {:induction false} ResolveIsKernel(d: Definition, cfg: set<Node>, ts: seq<Transition>)
    requires WellFormed(d) && Resolvable(d, cfg, ts) && AscendingSources(ts)
    ensures IsKernel(d, cfg, ts, ResolveAll(d, cfg, ts))
  {
    if ts == [] {
    } else {
      var last := |ts| - 1;
      var init := ts[..last];
      InitResolvable(d, cfg, ts);
      ResolveIsKernel(d, cfg, init);
      ResolveOneKernel(d, cfg, init, ts[last], ResolveAll(d, cfg, init));
    }
  }

  lemma InitResolvable(d: Definition, cfg: set<Node>, ts: seq<Transition>)
    requires Resolvable(d, cfg, ts) && AscendingSources(ts) && ts != []
    ensures Resolvable(d, cfg, ts[..|ts| - 1]) && AscendingSources(ts[..|ts| - 1])
    ensures ts == ts[..|ts| - 1] + [ts[|ts| - 1]]
    ensures forall t | t in ts[..|ts| - 1] :: t.source < ts[|ts| - 1].source
  {
    forall t | t in ts[..|ts| - 1] ensures t in ts && t.source < ts[|ts| - 1].source { }
  }

  /** The kernel is unique, so it is a definition of the surviving edges. */
  lemma {:induction false} KernelUnique(d: Definition, cfg: set<Node>, ts: seq<Transition>, k1: seq<Transition>,
                                        k2: seq<Transition>)
    requires WellFormed(d)
    requires IsKernel(d, cfg, ts, k1) && IsKernel(d, cfg, ts, k2)
    ensures forall t :: t in k1 <==> t in k2
  {
    forall t | t in ts ensures t in k1 <==> t in k2 {
      KernelsAgree(d, cfg, ts, k1, k2, t);
    }
  }

  /** By induction along post-order: an edge is beaten only by edges whose sources come
      before its own, on which the two kernels agree already. */
  lemma {:induction false} KernelsAgree(d: Definition, cfg: set<Node>, ts: seq<Transition>, k1: seq<Transition>,
                                        k2: seq<Transition>, t: Transition)
    requires WellFormed(d)
    requires IsKernel(d, cfg, ts, k1) && IsKernel(d, cfg, ts, k2) && t in ts
    ensures t in k1 <==> t in k2
    decreases PostRank(d, t.source)
  {
    hide WellFormed, IsTree, IsPreOrder, PostRank, Beats;
    TreeInOrder(d);
    forall u | u in ts && Beats(d, cfg, u, t) ensures u in k1 <==> u in k2 {
      BeatsMeans(d, cfg, u, t);
      PostRankDecreases(d, u.source, t.source);
      KernelsAgree(d, cfg, ts, k1, k2, u);
    }
    assert Unbeaten(d, cfg, k1, t) <==> Unbeaten(d, cfg, k2, t);
  }

  lemma BeatsMeans(d: Definition, cfg: set<Node>, u: Transition, t: Transition)
    requires IsTree(d) && Beats(d, cfg, u, t)
    ensures InTree(d, u.source) && InTree(d, t.source) && PostBefore(d, u.source, t.source)
  {
  }

  ghost function PostRank(d: Definition, n: Node): nat
    requires IsTree(d)
  {
    |PostPredecessors(d, n)|
  }

  ghost function PostPredecessors(d: Definition, n: Node): set<Node>
    requires IsTree(d)
  {
    set m: Node | m < |d.nodes| && PostBefore(d, m, n)
  }

  lemma PostRankDecreases(d: Definition, m: Node, n: Node)
    requires IsTree(d) && IsPreOrder(d) && InTree(d, m) && InTree(d, n) && PostBefore(d, m, n)
    ensures PostRank(d, m) < PostRank(d, n)
  {
    var M, N := PostPredecessors(d, m), PostPredecessors(d, n);
    forall x: Node | x in M ensures x in N { PostBeforeTransitive(d, x, m, n); }
    assert m in N;
    if IsDescendant(d, m, m) { DescendantAfter(d, m, m); }
    assert m !in M;
    assert M < N;
    StrictSubsetSmaller(M, N);
  }

  lemma StrictSubsetSmaller(a: set<Node>, b: set<Node>)
    requires a < b
    ensures |a| < |b|
  {
    var rest := b - a;
    assert b == a + rest && rest != {};
    assert |b| == |a| + |rest|;
  }

  lemma PostBeforeTransitive(d: Definition, x: Node, m: Node, n: Node)
    requires IsTree(d) && IsPreOrder(d) && PostBefore(d, x, m) && PostBefore(d, m, n)
    ensures PostBefore(d, x, n)
  {
    if IsDescendant(d, x, m) {
      DescendantAfter(d, x, m);
      if IsDescendant(d, m, n) {
        DescendantTransitive(d, x, m, n);
      } else {
        if IsDescendant(d, n, x) { DescendantTransitive(d, n, x, m); }
      }
    } else if IsDescendant(d, m, n) {
      if IsDescendant(d, n, x) { DescendantTransitive(d, m, n, x); }
    }
  }

  predicate DroppedFor(d: Definition, cfg: set<Node>, kept: seq<Transition>, t: Transition)
    requires IsTree(d)
  {
    exists u | u in kept :: Conflict(d, cfg, t, u) && (IsDescendant(d, u.source, t.source) || u.source < t.source)
  }

  /** Survivors exit disjoint sets; a dropped edge conflicts with a survivor whose source
      lies below its own or earlier in document order. */
  lemma KernelSeparates(d: Definition, cfg: set<Node>, ts: seq<Transition>, kept: seq<Transition>)
    requires WellFormed(d)
    requires Resolvable(d, cfg, ts) && IsKernel(d, cfg, ts, kept)
    ensures forall t, u | t in kept && u in kept && t != u :: !Conflict(d, cfg, t, u)
    ensures forall t | t in ts && t !in kept :: DroppedFor(d, cfg, kept, t)
    ensures ts != [] ==> kept != []
  {
    forall t, u | t in kept && u in kept && t != u ensures !Conflict(d, cfg, t, u) {
      ConflictSymmetric(d, cfg, t, u);
      DifferentSources(ts, t, u);
      assert PostBefore(d, t.source, u.source) || PostBefore(d, u.source, t.source);
      assert Unbeaten(d, cfg, kept, t) && Unbeaten(d, cfg, kept, u);
      assert !Beats(d, cfg, t, u) && !Beats(d, cfg, u, t);
    }
    forall t | t in ts && t !in kept ensures DroppedFor(d, cfg, kept, t) {
      var u :| u in kept && Beats(d, cfg, u, t);
      ConflictSymmetric(d, cfg, t, u);
    }
    if ts != [] {
      var t := ts[0];
      assert t in ts && (t in kept <==> Unbeaten(d, cfg, kept, t));
    }
  }

  lemma DifferentSources(ts: seq<Transition>, t: Transition, u: Transition)
    requires DistinctSources(ts) && t in ts && u in ts && t != u
    ensures t.source != u.source
  {
    var i :| 0 <= i < |ts| && ts[i] == t;
    var j :| 0 <= j < |ts| && ts[j] == u;
    if i < j {} else {}
  }

  // ------------------------------------------------------------------ selection as a whole

  function Enabled(d: Definition, cfg: set<Node>, trigger: Trigger, pass: Transition -> bool): seq<Transition>
    requires IsTree(d)
  {
    LeavesAre(d, cfg);
    Collect(d, trigger, pass, Leaves(d, cfg), [])
  }

  lemma EnabledMeaning(d: Definition, cfg: set<Node>, trigger: Trigger, pass: Transition -> bool)
    requires WellFormed(d) && Rooted(d, cfg)
    ensures Resolvable(d, cfg, Enabled(d, cfg, trigger, pass))
    ensures forall t :: t in Enabled(d, cfg, trigger, pass) <==> FromLeaf(d, trigger, pass, Leaves(d, cfg), t)
  {
    var leaves := Leaves(d, cfg);
    LeavesAre(d, cfg);
    CollectMeaning(d, trigger, pass, leaves, []);
    var enabled := Enabled(d, cfg, trigger, pass);
    forall t | t in enabled
      ensures InTree(d, t.source) && t.source in cfg && EdgeOk(d, t.source, t)
              && At(d, trigger, pass, t.source) == Some(t)
    {
      var n :| n in leaves && InTree(d, n) && FirstUp(d, trigger, pass, n) == Some(t);
      FirstUpMeaning(d, trigger, pass, n);
      if n != t.source { RootedUpward(d, cfg, n, t.source); }
    }
    forall i, j | 0 <= i < j < |enabled| ensures enabled[i].source != enabled[j].source {
      assert enabled[i] in enabled && enabled[j] in enabled;
    }
  }

  function Select(d: Definition, cfg: set<Node>, trigger: Trigger, pass: Transition -> bool): seq<Transition>
    requires IsTree(d)
  {
    ResolveEnabled(d, cfg, Enabled(d, cfg, trigger, pass))
  }

  /** Conflict resolution of any list of enabled edges. */
  function ResolveEnabled(d: Definition, cfg: set<Node>, enabled: seq<Transition>): seq<Transition>
    requires IsTree(d)
  {
    ResolveAll(d, cfg, SortBySource(enabled))
  }

  /** What a microstep is given: edges of active nodes that exit disjoint sets. */
  ghost predicate Selected(d: Definition, cfg: set<Node>, ts: seq<Transition>)
    requires IsTree(d)
  {
    && (forall t | t in ts :: InTree(d, t.source) && t.source in cfg && EdgeOk(d, t.source, t))
    && (forall i, j | 0 <= i < j < |ts| :: !Conflict(d, cfg, ts[i], ts[j]))
  }

  /** Resolution keeps exactly the kernel of what it is given, in document order. */
  lemma ResolveEnabledKernel(d: Definition, cfg: set<Node>, enabled: seq<Transition>)
    requires WellFormed(d) && Resolvable(d, cfg, enabled)
    ensures IsKernel(d, cfg, enabled, ResolveEnabled(d, cfg, enabled))
    ensures AscendingSources(ResolveEnabled(d, cfg, enabled))
    ensures Selected(d, cfg, ResolveEnabled(d, cfg, enabled))
    ensures enabled != [] ==> ResolveEnabled(d, cfg, enabled) != []
  {
    SortMeaning(enabled);
    var sorted := SortBySource(enabled);
    ResolveIsKernel(d, cfg, sorted);
    ResolveAscending(d, cfg, sorted);
    var kept := ResolveAll(d, cfg, sorted);
    KernelSeparates(d, cfg, sorted, kept);
    forall i, j | 0 <= i < j < |kept| ensures !Conflict(d, cfg, kept[i], kept[j]) {
      assert kept[i] in kept && kept[j] in kept;
    }
    if enabled != [] { assert enabled[0] in sorted; }
  }

  lemma ResolveOneAscending(d: Definition, cfg: set<Node>, t: Transition, k: seq<Transition>)
    requires IsTree(d) && AscendingSources(k) && forall u | u in k :: u.source < t.source
    ensures AscendingSources(ResolveOne(d, cfg, t, k))
    ensures forall u | u in ResolveOne(d, cfg, t, k) :: u == t || u in k
  {
    var removed := PreemptedBy(d, cfg, t, k);
    WithoutMeaning(k, removed);
    var kept := Without(k, removed);
    forall i | 0 <= i < |kept| ensures kept[i].source < t.source { assert kept[i] in k; }
  }

  lemma {:induction false} ResolveAscending(d: Definition, cfg: set<Node>, ts: seq<Transition>)
    requires IsTree(d) && AscendingSources(ts)
    ensures AscendingSources(ResolveAll(d, cfg, ts))
    ensures forall t | t in ResolveAll(d, cfg, ts) :: t in ts
  {
    if ts == [] {
    } else {
      var last := |ts| - 1;
      var k := ResolveAll(d, cfg, ts[..last]);
      ResolveAscending(d, cfg, ts[..last]);
      forall t | t in k ensures t in ts && t.source < ts[last].source { assert t in ts[..last]; }
      ResolveOneAscending(d, cfg, ts[last], k);
      assert ts[last] in ts;
    }
  }

  /** t is one of the edges of the chart. */
  predicate IsEdge(d: Definition, t: Transition)
  {
    InTree(d, t.source) && t in EventedEdges(d.nodes[t.source])
  }

  lemma {:induction false} InvokeEdgesAvoidRoot(invokes: seq<Invoke>)
    requires forall iv | iv in invokes :: NoRootEdges(iv.onDone) && NoRootEdges(iv.onError)
    ensures NoRootEdges(InvokeEdges(invokes))
    decreases |invokes|
  {
    if invokes == [] {
    } else {
      assert invokes[0] in invokes;
      forall iv | iv in invokes[1..] ensures iv in invokes { }
      InvokeEdgesAvoidRoot(invokes[1..]);
    }
  }

  /** A chart free of edges of the root offers none. */
  lemma EdgesAvoidRoot(d: Definition, t: Transition)
    requires RootFree(d) && IsEdge(d, t)
    ensures !RootEdge(t)
  {
    InvokeEdgesAvoidRoot(d.nodes[t.source].invokes);
  }

  /** Enabled is, for every active leaf that finds one, the edge it finds, and nothing else. */
  lemma EnabledInnermost(d: Definition, cfg: set<Node>, trigger: Trigger, pass: Transition -> bool, t: Transition)
    requires WellFormed(d) && Rooted(d, cfg)
    ensures t in Enabled(d, cfg, trigger, pass) <==>
              exists leaf :: leaf in cfg && IsLeaf(d, leaf) && Innermost(d, trigger, pass, leaf, t)
  {
    hide Innermost;
    EnabledMeaning(d, cfg, trigger, pass);
    LeavesAre(d, cfg);
    if t in Enabled(d, cfg, trigger, pass) {
      var n :| n in Leaves(d, cfg) && InTree(d, n) && FirstUp(d, trigger, pass, n) == Some(t);
      FirstUpInnermost(d, trigger, pass, n);
    }
    if leaf :| leaf in cfg && IsLeaf(d, leaf) && Innermost(d, trigger, pass, leaf, t) {
      SomethingUp(d, trigger, pass, leaf, t);
      FirstUpInnermost(d, trigger, pass, leaf);
      InnermostOnly(d, trigger, pass, leaf, t, FirstUp(d, trigger, pass, leaf).value);
      assert FromLeaf(d, trigger, pass, Leaves(d, cfg), t);
    }
  }

  lemma SomethingUp(d: Definition, trigger: Trigger, pass: Transition -> bool, leaf: Node, t: Transition)
    requires WellFormed(d) && InTree(d, leaf) && Innermost(d, trigger, pass, leaf, t)
    ensures FirstUp(d, trigger, pass, leaf).Some?
  {
    FirstUpMeaning(d, trigger, pass, leaf);
    AtMeaning(d, trigger, pass, t.source);
    assert t in Offered(d, trigger, t.source);
  }

  /** So every selected edge is what some active leaf finds. */
  lemma SelectInnermost(d: Definition, cfg: set<Node>, trigger: Trigger, pass: Transition -> bool)
    requires WellFormed(d) && Rooted(d, cfg)
    ensures forall t | t in Select(d, cfg, trigger, pass) ::
              exists leaf :: leaf in cfg && IsLeaf(d, leaf) && Innermost(d, trigger, pass, leaf, t)
  {
    hide Innermost;
    var enabled := Enabled(d, cfg, trigger, pass);
    EnabledMeaning(d, cfg, trigger, pass);
    ResolveEnabledKernel(d, cfg, enabled);
    forall t | t in Select(d, cfg, trigger, pass)
      ensures exists leaf :: leaf in cfg && IsLeaf(d, leaf) && Innermost(d, trigger, pass, leaf, t)
    {
      EnabledInnermost(d, cfg, trigger, pass, t);
    }
  }

  /** Selection yields a conflict-free set of firing edges of active nodes. */
  lemma SelectChooses(d: Definition, cfg: set<Node>, trigger: Trigger, pass: Transition -> bool)
    requires WellFormed(d) && Rooted(d, cfg)
    ensures Selected(d, cfg, Select(d, cfg, trigger, pass))
    ensures forall t | t in Select(d, cfg, trigger, pass) ::
              Fires(trigger, pass, t) && IsEdge(d, t) && t in Offered(d, trigger, t.source)
    ensures Enabled(d, cfg, trigger, pass) != [] ==> Select(d, cfg, trigger, pass) != []
  {
    var enabled := Enabled(d, cfg, trigger, pass);
    EnabledMeaning(d, cfg, trigger, pass);
    ResolveEnabledKernel(d, cfg, enabled);
    forall t | t in enabled ensures Fires(trigger, pass, t) && t in Offered(d, trigger, t.source) {
      var n :| n in Leaves(d, cfg) && InTree(d, n) && FirstUp(d, trigger, pass, n) == Some(t);
      FirstUpMeaning(d, trigger, pass, n);
      AtMeaning(d, trigger, pass, t.source);
    }
  }

  /** In a legal configuration it is empty exactly when no active node offers an edge that
      may fire. */
  lemma SelectMeaning(d: Definition, cfg: set<Node>, trigger: Trigger, pass: Transition -> bool)
    requires WellFormed(d) && Legal(d, cfg)
    ensures Selected(d, cfg, Select(d, cfg, trigger, pass))
    ensures Select(d, cfg, trigger, pass) == [] <==> NothingFires(d, cfg, trigger, pass)
    ensures forall t | t in Select(d, cfg, trigger, pass) ::
              Fires(trigger, pass, t) && IsEdge(d, t) && t in Offered(d, trigger, t.source)
  {
    LegalRooted(d, cfg);
    SelectChooses(d, cfg, trigger, pass);
    var enabled, leaves := Enabled(d, cfg, trigger, pass), Leaves(d, cfg);
    EnabledMeaning(d, cfg, trigger, pass);
    LeavesAre(d, cfg);
    if enabled == [] {
      forall s, t | s in cfg && t in Offered(d, trigger, s) ensures !Fires(trigger, pass, t) {
        var leaf := ActiveLeafBelow(d, cfg, s);
        FirstUpMeaning(d, trigger, pass, leaf);
        AtMeaning(d, trigger, pass, s);
        assert leaf in leaves;
        if FirstUp(d, trigger, pass, leaf).Some? {
          assert FromLeaf(d, trigger, pass, leaves, FirstUp(d, trigger, pass, leaf).value);
        }
      }
    } else {
      assert Select(d, cfg, trigger, pass)[0] in Select(d, cfg, trigger, pass);
    }
  }

  /** No active node offers an edge that may fire on the trigger. */
  ghost predicate NothingFires(d: Definition, cfg: set<Node>, trigger: Trigger, pass: Transition -> bool)
  {
    forall s, t | s in cfg && InTree(d, s) && t in Offered(d, trigger, s) :: !Fires(trigger, pass, t)
  }

  // ------------------------------------------------------------------ the loops

  /** transition.go: the inner loop of selectBy, from an active leaf outwards. */
  method FindUp(d: Definition, leaf: Node, trigger: Trigger, pass: Transition -> bool) returns (t: Option<Transition>)
    requires IsTree(d) && InTree(d, leaf)
    ensures t == FirstUp(d, trigger, pass, leaf)
  {
    var s := Some(leaf);
    while s.Some?
      invariant s.Some? ==> InTree(d, s.value)
      invariant FirstUp(d, trigger, pass, leaf) == if s.Some? then FirstUp(d, trigger, pass, s.value) else None
      decreases if s.Some? then s.value + 1 else 0
    {
      t := At(d, trigger, pass, s.value);
      if t.Some? { return; }
      s := Parent(d, s.value);
    }
    return None;
  }

  /** transition.go: selectBy, up to conflict resolution. */
  method CollectEnabled(d: Definition, cfg: NodeSet, trigger: Trigger, pass: Transition -> bool)
    returns (enabled: seq<Transition>)
    requires IsTree(d)
    ensures enabled == Enabled(d, cfg.members, trigger, pass)
  {
    hide IsTree;
    var seen: set<Transition> := {};
    enabled := [];
    var leaves := cfg.Atomic(d);
    LeavesAre(d, cfg.members);
    for i := 0 to |leaves|
      invariant forall t :: t in seen <==> t in enabled
      invariant forall n | n in leaves[i..] :: n in leaves
      invariant Collect(d, trigger, pass, leaves, []) == Collect(d, trigger, pass, leaves[i..], enabled)
    {
      assert leaves[i] in leaves && leaves[i..][1..] == leaves[i + 1..];
      var t := FindUp(d, leaves[i], trigger, pass);
      if t.Some? && t.value !in seen {
        seen := seen + {t.value};
        enabled := enabled + [t.value];
      }
    }
  }

  /** transition.go: removeConflictingTransitions, the scan for conflicts of one edge. */
  method ScanConflicts(d: Definition, cfg: set<Node>, t1: Transition, filtered: seq<Transition>)
    returns (preempted: bool, toRemove: set<Transition>)
    requires IsTree(d)
    ensures preempted == Preempted(d, cfg, t1, filtered)
    ensures !preempted ==> toRemove == PreemptedBy(d, cfg, t1, filtered)
  {
    var es1 := ExitSetOf(d, cfg, t1);
    preempted := false;
    toRemove := {};
    for j := 0 to |filtered|
      invariant !preempted && forall u | u in filtered[..j] ::
                Conflict(d, cfg, t1, u) ==> IsDescendant(d, t1.source, u.source)
      invariant forall u :: u in toRemove <==> u in filtered[..j] && Conflict(d, cfg, t1, u)
    {
      assert filtered[j] in filtered && filtered[..j + 1] == filtered[..j] + [filtered[j]];
      if es1 * ExitSetOf(d, cfg, filtered[j]) != {} {
        var deeper := CheckDescendant(d, t1.source, Some(filtered[j].source));
        if deeper {
          toRemove := toRemove + {filtered[j]};
        } else {
          preempted := true;
          break;
        }
      }
    }
    assert !preempted ==> filtered[..|filtered|] == filtered;
  }

  /** transition.go: removeConflictingTransitions, the loop that drops preempted edges. */
  method DropRemoved(filtered: seq<Transition>, toRemove: set<Transition>) returns (next: seq<Transition>)
    ensures next == Without(filtered, toRemove)
  {
    next := [];
    for j := 0 to |filtered|
      invariant Without(filtered, toRemove) == next + Without(filtered[j..], toRemove)
    {
      var tail := Without(filtered[j + 1..], toRemove);
      assert filtered[j..][1..] == filtered[j + 1..];
      if filtered[j] !in toRemove {
        assert next + ([filtered[j]] + tail) == (next + [filtered[j]]) + tail;
        next := next + [filtered[j]];
      }
    }
  }

  /** transition.go: removeConflictingTransitions. */
  method RemoveConflicting(d: Definition, cfg: set<Node>, enabled: seq<Transition>) returns (filtered: seq<Transition>)
    requires WellFormed(d) && Resolvable(d, cfg, enabled)
    ensures filtered == ResolveEnabled(d, cfg, enabled)
    ensures IsKernel(d, cfg, enabled, filtered)
  {
    SortMeaning(enabled);
    ResolveEnabledKernel(d, cfg, enabled);
    filtered := ResolveSorted(d, cfg, SortBySource(enabled));
  }

  method ResolveSorted(d: Definition, cfg: set<Node>, sorted: seq<Transition>) returns (filtered: seq<Transition>)
    requires IsTree(d)
    ensures filtered == ResolveAll(d, cfg, sorted)
  {
    filtered := [];
    for i := 0 to |sorted|
      invariant filtered == ResolveAll(d, cfg, sorted[..i])
    {
      var t1 := sorted[i];
      assert t1 in sorted && sorted[..i + 1][..i] == sorted[..i];
      assert forall t | t in sorted[..i + 1] :: t in sorted;
      var preempted, toRemove := ScanConflicts(d, cfg, t1, filtered);
      if !preempted {
        var next := DropRemoved(filtered, toRemove);
        filtered := next + [t1];
      }
    }
    assert sorted[..|sorted|] == sorted;
  }

  function UnionOfExits(d: Definition, cfg: set<Node>, ts: seq<Transition>): set<Node>
    requires IsTree(d)
  {
    if ts == [] then {} else ExitSetOf(d, cfg, ts[0]) + UnionOfExits(d, cfg, ts[1..])
  }

  lemma {:induction false} UnionOfExitsMeaning(d: Definition, cfg: set<Node>, ts: seq<Transition>)
    requires IsTree(d)
    ensures forall s: Node :: s in UnionOfExits(d, cfg, ts) <==> exists t | t in ts :: s in ExitSetOf(d, cfg, t)
  {
    if ts == [] {
    } else {
      forall t | t in ts[1..] ensures t in ts { }
      UnionOfExitsMeaning(d, cfg, ts[1..]);
      assert forall t :: t in ts <==> t == ts[0] || t in ts[1..];
    }
  }

  /** transition.go: exitSetOf. */
  method CollectExitSet(d: Definition, cfg: set<Node>, t: Transition) returns (out: set<Node>)
    requires IsTree(d) && InTree(d, t.source) && (forall n | n in cfg :: InTree(d, n))
             && forall g | g in t.targets :: InTree(d, g)
    ensures out == ExitSetOf(d, cfg, t)
  {
    out := {};
    if t.targets == [] { return; }
    var dom := FindLcca(d, [t.source] + t.targets);
    assert ([t.source] + t.targets)[1..] == t.targets;
    var active := AllActive(d, cfg);
    AscendingSorted(cfg, |d.nodes|);
    for i := 0 to |active|
      invariant forall s :: s in out <==> s in active[..i] && dom.Some? && IsDescendant(d, s, dom.value)
    {
      assert active[i] in active;
      var below := CheckDescendant(d, active[i], dom);
      if below { out := out + {active[i]}; }
    }
  }

  /** transition.go: computeExitSet; innermost states first. */
  method ComputeExitSet(d: Definition, cfg: set<Node>, ts: seq<Transition>) returns (out: seq<Node>)
    requires IsTree(d) && (forall n | n in cfg :: InTree(d, n))
    requires forall t | t in ts :: InTree(d, t.source) && forall g | g in t.targets :: InTree(d, g)
    ensures out == Descending(UnionOfExits(d, cfg, ts), |d.nodes|)
  {
    var exits: set<Node> := {};
    for i := 0 to |ts|
      invariant UnionOfExits(d, cfg, ts) == exits + UnionOfExits(d, cfg, ts[i..])
    {
      assert ts[i] in ts && ts[i..][1..] == ts[i + 1..];
      var es := CollectExitSet(d, cfg, ts[i]);
      exits := exits + es;
    }
    out := Descending(exits, |d.nodes|);
  }
}
