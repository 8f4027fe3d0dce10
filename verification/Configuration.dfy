/** Configurations: sets of active nodes, what makes one legal (section 3.11 of the
    W3C SCXML Recommendation), and the leaves that encode one (transition.go). */
module Configurations {
  import opened Definitions

  /** The members of s below n, in ascending order: what `sort.Slice` by document
      order makes of a set of nodes. */
  function Ascending(s: set<Node>, n: nat): seq<Node>
  {
    if n == 0 then [] else Ascending(s, n - 1) + (if n - 1 in s then [n - 1] else [])
  }

  function Descending(s: set<Node>, n: nat): seq<Node>
  {
    if n == 0 then [] else (if n - 1 in s then [n - 1] else []) + Descending(s, n - 1)
  }

  predicate StrictlyAscending(q: seq<Node>)
  {
    forall i, j | 0 <= i < j < |q| :: q[i] < q[j]
  }

  predicate StrictlyDescending(q: seq<Node>)
  {
    forall i, j | 0 <= i < j < |q| :: q[i] > q[j]
  }

  lemma {:induction false} AscendingSorted(s: set<Node>, n: nat)
    ensures StrictlyAscending(Ascending(s, n))
    ensures forall x: Node :: x in Ascending(s, n) <==> x in s && x < n
  {
    if n == 0 {
    } else {
      AscendingSorted(s, n - 1);
      var rest := Ascending(s, n - 1);
      forall i | 0 <= i < |rest| ensures rest[i] < n - 1 { assert rest[i] in rest; }
    }
  }

  lemma {:induction false} DescendingSorted(s: set<Node>, n: nat)
    ensures StrictlyDescending(Descending(s, n))
    ensures forall x: Node :: x in Descending(s, n) <==> x in s && x < n
  {
    if n == 0 {
    } else {
      DescendingSorted(s, n - 1);
      var rest := Descending(s, n - 1);
      forall i | 0 <= i < |rest| ensures rest[i] < n - 1 { assert rest[i] in rest; }
    }
  }

  /** A sorted sequence is determined by its members. */
  lemma {:induction false} SortedUnique(p: seq<Node>, q: seq<Node>)
    requires StrictlyAscending(p) && StrictlyAscending(q)
    requires forall x: Node :: x in p <==> x in q
    ensures p == q
  {
    if p != [] || q != [] {
      assert p != [] ==> p[0] in q;
      assert q != [] ==> q[0] in p;
      assert p[0] == q[0];
      forall x: Node ensures x in p[1..] <==> x in q[1..] {
        if x in p[1..] { assert x in p && x != p[0]; assert x in q; }
        if x in q[1..] { assert x in q && x != q[0]; assert x in p; }
      }
      SortedUnique(p[1..], q[1..]);
      assert p == [p[0]] + p[1..] && q == [q[0]] + q[1..];
    }
  }

  function AllActive(d: Definition, cfg: set<Node>): seq<Node> { Ascending(cfg, |d.nodes|) }

  predicate IsLeaf(d: Definition, n: Node) { InTree(d, n) && d.nodes[n].IsAtomic() }

  function AtomicOnly(d: Definition, q: seq<Node>): seq<Node>
  {
    if q == [] then []
    else (if IsLeaf(d, q[0]) then [q[0]] else []) + AtomicOnly(d, q[1..])
  }

  /** The active leaves in document order. */
  function Leaves(d: Definition, cfg: set<Node>): seq<Node>
  {
    AtomicOnly(d, AllActive(d, cfg))
  }

  lemma {:induction false} AtomicOnlyMembers(d: Definition, q: seq<Node>)
    requires StrictlyAscending(q)
    ensures forall n: Node :: n in AtomicOnly(d, q) <==> n in q && IsLeaf(d, n)
    ensures StrictlyAscending(AtomicOnly(d, q))
  {
    if q == [] {
    } else {
      AtomicOnlyMembers(d, q[1..]);
      var rest := AtomicOnly(d, q[1..]);
      assert forall n :: n in q <==> n == q[0] || n in q[1..];
      forall i | 0 <= i < |rest| ensures q[0] < rest[i] { assert rest[i] in q[1..]; }
    }
  }

  lemma LeavesAre(d: Definition, cfg: set<Node>)
    ensures StrictlyAscending(Leaves(d, cfg))
    ensures forall n: Node :: n in Leaves(d, cfg) <==> n in cfg && IsLeaf(d, n)
  {
    AscendingSorted(cfg, |d.nodes|);
    AtomicOnlyMembers(d, AllActive(d, cfg));
  }

  // ------------------------------------------------------------------ legality

  /** What an active node demands of its children: a compound has exactly one active
      child, a parallel has all of them active. */
  ghost predicate NodeFilled(d: Definition, cfg: set<Node>, n: Node)
    requires InTree(d, n)
  {
    match Kind(d, n)
    case Compound => exists c :: c in Children(d, n) && c in cfg && OnlyActiveChild(d, cfg, n, c)
    case Parallel => forall c | c in Children(d, n) :: c in cfg
    case _ => true
  }

  ghost predicate OnlyActiveChild(d: Definition, cfg: set<Node>, n: Node, c: Node)
    requires InTree(d, n)
  {
    forall o | o in Children(d, n) && o in cfg :: o == c
  }

  /** A legal configuration: the root is active, no history node is, every active node
      has an active parent, and every active node is filled. */
  ghost predicate Legal(d: Definition, cfg: set<Node>)
  {
    && |d.nodes| > 0
    && ROOT in cfg
    && forall n | n in cfg ::
         && InTree(d, n)
         && Kind(d, n) != History
         && (n != ROOT ==> Parent(d, n).Some? && Parent(d, n).value in cfg)
         && NodeFilled(d, cfg, n)
  }

  /** What every configuration satisfies that the code can build, legal or not: no history
      node is active, and active nodes have active parents. */
  ghost predicate Rooted(d: Definition, cfg: set<Node>)
  {
    forall n | n in cfg ::
      && InTree(d, n)
      && Kind(d, n) != History
      && (n != ROOT ==> Parent(d, n).Some? && Parent(d, n).value in cfg)
  }

  lemma LegalRooted(d: Definition, cfg: set<Node>)
    requires Legal(d, cfg)
    ensures Rooted(d, cfg)
  {
  }

  /** Legality of the part of cfg strictly below a, given that a is active. */
  ghost predicate Filled(d: Definition, cfg: set<Node>, a: Node)
    requires IsTree(d) && InTree(d, a)
  {
    && NodeFilled(d, cfg, a)
    && forall n | n in cfg && IsDescendant(d, n, a) :: Belongs(d, cfg, a, n)
  }

  ghost predicate Belongs(d: Definition, cfg: set<Node>, a: Node, n: Node)
    requires IsTree(d) && InTree(d, a)
  {
    && InTree(d, n)
    && Kind(d, n) != History
    && Parent(d, n).Some?
    && (Parent(d, n).value == a || Parent(d, n).value in cfg)
    && NodeFilled(d, cfg, n)
  }

  lemma LegalNode(d: Definition, cfg: set<Node>, n: Node)
    requires Legal(d, cfg) && n in cfg
    ensures InTree(d, n) && Kind(d, n) != History && NodeFilled(d, cfg, n)
  {
  }

  lemma LegalFillsRoot(d: Definition, cfg: set<Node>)
    requires IsTree(d) && Kind(d, ROOT) != History
    ensures Legal(d, cfg) <==> ROOT in cfg && (forall n | n in cfg :: InTree(d, n)) && Filled(d, cfg, ROOT)
  {
    if Legal(d, cfg) {
      forall n | n in cfg && IsDescendant(d, n, ROOT) ensures Belongs(d, cfg, ROOT, n) { DescendantAfter(d, n, ROOT); }
    }
    if ROOT in cfg && (forall n | n in cfg :: InTree(d, n)) && Filled(d, cfg, ROOT) {
      forall n | n in cfg && n != ROOT ensures Belongs(d, cfg, ROOT, n) { AllUnderRoot(d, n); }
    }
  }

  lemma LegalFillsActive(d: Definition, cfg: set<Node>, a: Node)
    requires IsTree(d) && Legal(d, cfg) && a in cfg
    ensures Filled(d, cfg, a)
  {
    forall n | n in cfg && IsDescendant(d, n, a) ensures Belongs(d, cfg, a, n) { DescendantAfter(d, n, a); }
  }

  lemma {:induction false} RootedUpward(d: Definition, cfg: set<Node>, n: Node, a: Node)
    requires IsTree(d) && Rooted(d, cfg) && n in cfg && IsDescendant(d, n, a)
    ensures a in cfg
    decreases n
  {
    var p := Parent(d, n).value;
    if p != a { RootedUpward(d, cfg, p, a); }
  }

  lemma LegalUpward(d: Definition, cfg: set<Node>, n: Node, a: Node)
    requires IsTree(d) && Legal(d, cfg) && n in cfg && IsDescendant(d, n, a)
    ensures a in cfg
  {
    LegalRooted(d, cfg);
    RootedUpward(d, cfg, n, a);
  }

  /** `Filled` looks only at the nodes below a. */
  lemma FilledLocal(d: Definition, E: set<Node>, E': set<Node>, a: Node)
    requires IsTree(d) && InTree(d, a) && Filled(d, E, a)
    requires forall n: Node | IsDescendant(d, n, a) :: n in E <==> n in E'
    ensures Filled(d, E', a)
  {
    NodeFilledLocal(d, E, E', a, a);
    forall n | n in E' && IsDescendant(d, n, a) ensures Belongs(d, E', a, n) {
      assert n in E && Belongs(d, E, a, n);
      NodeFilledLocal(d, E, E', a, n);
      var p := Parent(d, n).value;
      if p != a { assert IsDescendant(d, p, a); }
    }
  }

  lemma NodeFilledLocal(d: Definition, E: set<Node>, E': set<Node>, a: Node, n: Node)
    requires IsTree(d) && InTree(d, n) && InSubtree(d, n, a) && NodeFilled(d, E, n)
    requires forall m: Node | IsDescendant(d, m, a) :: m in E <==> m in E'
    ensures NodeFilled(d, E', n)
  {
    forall c | c in Children(d, n) ensures IsDescendant(d, c, a) { }
    if Kind(d, n) == Compound {
      var c :| c in Children(d, n) && c in E && OnlyActiveChild(d, E, n, c);
      assert c in E' && OnlyActiveChild(d, E', n, c);
    }
  }

  /** A compound is filled by one filled child. */
  lemma FilledByOneChild(d: Definition, E: set<Node>, a: Node, c: Node)
    requires IsTree(d) && InTree(d, a) && Kind(d, a) == Compound
    requires c in Children(d, a) && c in E && Kind(d, c) != History && Filled(d, E, c)
    requires forall n | n in E && IsDescendant(d, n, a) :: InSubtree(d, n, c)
    ensures Filled(d, E, a)
  {
    forall o | o in Children(d, a) && o in E ensures o == c {
      assert IsDescendant(d, o, a);
      ChildrenDisjoint(d, a, o, c, o);
    }
    assert OnlyActiveChild(d, E, a, c);
    forall n | n in E && IsDescendant(d, n, a) ensures Belongs(d, E, a, n) {
      if n != c { assert Belongs(d, E, c, n); }
    }
  }

  /** A parallel is filled by all its children, each filled. */
  lemma FilledByAllChildren(d: Definition, E: set<Node>, a: Node)
    requires IsTree(d) && InTree(d, a) && Kind(d, a) == Parallel
    requires forall c | c in Children(d, a) :: c in E && Kind(d, c) != History && Filled(d, E, c)
    ensures Filled(d, E, a)
  {
    forall n | n in E && IsDescendant(d, n, a) ensures Belongs(d, E, a, n) {
      var c := ChildTowards(d, n, a);
      if n != c { assert Belongs(d, E, c, n); }
    }
  }

  ghost predicate Shaped(d: Definition)
    requires IsTree(d)
  {
    forall n: Node | n < |d.nodes| :: NodeShapeOk(d, n)
  }

  /** n has at least what an active node demands: a compound some active child, a parallel all
      of them. */
  ghost predicate NodeCovered(d: Definition, cfg: set<Node>, n: Node)
    requires InTree(d, n)
  {
    match Kind(d, n)
    case Compound => exists c :: c in Children(d, n) && c in cfg
    case Parallel => forall c | c in Children(d, n) :: c in cfg
    case _ => true
  }

  /** a and everything active below it have at least what they demand. */
  ghost predicate Covered(d: Definition, cfg: set<Node>, a: Node)
    requires IsTree(d) && InTree(d, a)
  {
    NodeCovered(d, cfg, a) && forall n | n in cfg && IsDescendant(d, n, a) :: NodeCovered(d, cfg, n)
  }

  lemma FilledCovered(d: Definition, cfg: set<Node>, a: Node)
    requires IsTree(d) && InTree(d, a) && Filled(d, cfg, a)
    ensures Covered(d, cfg, a)
  {
    forall n | n in cfg && IsDescendant(d, n, a) ensures NodeCovered(d, cfg, n) { assert Belongs(d, cfg, a, n); }
  }

  /** A set that covers a inside one that fills a is all of it there. */
  lemma {:induction false} CoveredInFilled(d: Definition, A: set<Node>, B: set<Node>, a: Node, n: Node)
    requires IsTree(d) && Shaped(d) && InTree(d, a) && Covered(d, A, a) && Filled(d, B, a)
    requires forall m: Node | m in A && IsDescendant(d, m, a) :: m in B
    requires n in B && IsDescendant(d, n, a)
    ensures n in A
    decreases n
  {
    assert Belongs(d, B, a, n);
    var p := Parent(d, n).value;
    if p != a {
      assert IsDescendant(d, p, a);
      CoveredInFilled(d, A, B, a, p);
      assert NodeCovered(d, A, p) && Belongs(d, B, a, p);
    }
    ChildOfFilled(d, A, B, a, p, n);
  }

  lemma ChildOfFilled(d: Definition, A: set<Node>, B: set<Node>, a: Node, p: Node, n: Node)
    requires IsTree(d) && Shaped(d) && InTree(d, a) && InTree(d, p) && InSubtree(d, p, a)
    requires NodeCovered(d, A, p) && NodeFilled(d, B, p)
    requires forall m: Node | m in A && IsDescendant(d, m, a) :: m in B
    requires n in B && InTree(d, n) && Parent(d, n) == Some(p)
    ensures n in A
  {
    assert NodeShapeOk(d, p);
    assert n in Children(d, p);
    if Kind(d, p) == Compound {
      var c :| c in Children(d, p) && c in A;
      assert IsDescendant(d, c, a);
      var c' :| c' in Children(d, p) && c' in B && OnlyActiveChild(d, B, p, c');
      assert c == c' == n;
    }
  }

  /** Filled sets do not nest: of two that fill a, none contains the other properly below a. */
  lemma NestedFilled(d: Definition, A: set<Node>, B: set<Node>, a: Node, n: Node)
    requires IsTree(d) && Shaped(d) && InTree(d, a) && Filled(d, A, a) && Filled(d, B, a)
    requires forall m: Node | m in A && IsDescendant(d, m, a) :: m in B
    requires n in B && IsDescendant(d, n, a)
    ensures n in A
  {
    FilledCovered(d, A, a);
    CoveredInFilled(d, A, B, a, n);
  }

  /** Of two legal configurations none contains the other properly. */
  lemma NestedLegal(d: Definition, A: set<Node>, B: set<Node>)
    requires IsTree(d) && Shaped(d) && Legal(d, A) && Legal(d, B) && A <= B
    ensures A == B
  {
    LegalFillsActive(d, A, ROOT);
    LegalFillsActive(d, B, ROOT);
    forall n | n in B ensures n in A {
      if n != ROOT {
        AllUnderRoot(d, n);
        NestedFilled(d, A, B, ROOT, n);
      }
    }
  }

  // ------------------------------------------------------------------ leaves encode configurations

  /** Below every active node there is an active leaf. */
  lemma {:induction false} ActiveLeafBelow(d: Definition, cfg: set<Node>, n: Node) returns (leaf: Node)
    requires WellFormed(d) && Legal(d, cfg) && n in cfg
    ensures leaf in cfg && IsLeaf(d, leaf) && InSubtree(d, leaf, n)
    decreases |d.nodes| - n
  {
    hide WellFormed, Legal;
    LegalNode(d, cfg, n);
    Shape(d, n);
    match Kind(d, n)
    case Atomic => leaf := n;
    case Final => leaf := n;
    case Compound =>
      var c :| c in Children(d, n) && c in cfg && OnlyActiveChild(d, cfg, n, c);
      leaf := ActiveLeafBelow(d, cfg, c);
      if leaf != c { assert IsDescendant(d, c, n); DescendantTransitive(d, leaf, c, n); }
    case Parallel =>
      var c := Children(d, n)[0];
      assert c in Children(d, n);
      leaf := ActiveLeafBelow(d, cfg, c);
      if leaf != c { assert IsDescendant(d, c, n); DescendantTransitive(d, leaf, c, n); }
  }

  ghost predicate AboveLeaf(d: Definition, cfg: set<Node>, n: Node)
    requires IsTree(d)
  {
    exists leaf :: leaf in Leaves(d, cfg) && InSubtree(d, leaf, n)
  }

  /** A legal configuration is the upward closure of its leaves. */
  lemma LegalIsClosureOfLeaves(d: Definition, cfg: set<Node>)
    requires WellFormed(d) && Legal(d, cfg)
    ensures forall n: Node :: n in cfg <==> AboveLeaf(d, cfg, n)
  {
    LeavesAre(d, cfg);
    forall n: Node ensures n in cfg <==> AboveLeaf(d, cfg, n) {
      if n in cfg {
        var leaf := ActiveLeafBelow(d, cfg, n);
        assert leaf in Leaves(d, cfg);
      }
      if AboveLeaf(d, cfg, n) {
        var leaf :| leaf in Leaves(d, cfg) && InSubtree(d, leaf, n);
        if leaf != n { LegalUpward(d, cfg, leaf, n); }
      }
    }
  }

  /** Two legal configurations with the same leaves are the same configuration. */
  lemma LeavesDetermineConfiguration(d: Definition, cfg1: set<Node>, cfg2: set<Node>)
    requires WellFormed(d) && Legal(d, cfg1) && Legal(d, cfg2)
    requires Leaves(d, cfg1) == Leaves(d, cfg2)
    ensures cfg1 == cfg2
  {
    LegalIsClosureOfLeaves(d, cfg1);
    LegalIsClosureOfLeaves(d, cfg2);
    forall n: Node ensures n in cfg1 <==> n in cfg2 {
      assert AboveLeaf(d, cfg1, n) <==> AboveLeaf(d, cfg2, n);
    }
  }

  /** Where no parallel intervenes, only one leaf is active. */
  lemma {:induction false} SingleLeaf(d: Definition, cfg: set<Node>, a: Node, l1: Node, l2: Node)
    requires WellFormed(d) && Legal(d, cfg) && a in cfg
    requires Kind(d, a) != Parallel && !HasParallelBelow(d, a)
    requires l1 in cfg && IsLeaf(d, l1) && InSubtree(d, l1, a)
    requires l2 in cfg && IsLeaf(d, l2) && InSubtree(d, l2, a)
    ensures l1 == l2
    decreases |d.nodes| - a
  {
    hide WellFormed, Legal;
    LegalNode(d, cfg, a);
    Shape(d, a);
    if Kind(d, a) == Compound {
      var c :| c in Children(d, a) && c in cfg && OnlyActiveChild(d, cfg, a, c);
      InActiveChild(d, cfg, a, c, l1);
      InActiveChild(d, cfg, a, c, l2);
      assert IsDescendant(d, c, a);
      forall n: Node | IsDescendant(d, n, c) && n < |d.nodes| ensures Kind(d, n) != Parallel {
        DescendantTransitive(d, n, c, a);
      }
      SingleLeaf(d, cfg, c, l1, l2);
    } else {
      if l1 != a { var _ := ChildTowards(d, l1, a); }
      if l2 != a { var _ := ChildTowards(d, l2, a); }
    }
  }

  /** Active nodes below a compound are in the subtree of its active child. */
  lemma InActiveChild(d: Definition, cfg: set<Node>, a: Node, c: Node, n: Node)
    requires IsTree(d) && Legal(d, cfg) && a in cfg && InTree(d, a)
    requires c in Children(d, a) && OnlyActiveChild(d, cfg, a, c)
    requires n in cfg && IsDescendant(d, n, a)
    ensures InSubtree(d, n, c)
  {
    var c' := ChildTowards(d, n, a);
    if n != c' { LegalUpward(d, cfg, n, c'); }
  }

  /** Below an active compound with no parallel under it, exactly one leaf is active and
      the active nodes are the path to that leaf. */
  lemma SinglePath(d: Definition, cfg: set<Node>, a: Node) returns (leaf: Node)
    requires WellFormed(d) && Legal(d, cfg) && a in cfg
    requires Kind(d, a) == Compound && !HasParallelBelow(d, a)
    ensures leaf in cfg && IsLeaf(d, leaf) && IsDescendant(d, leaf, a)
    ensures forall l | l in cfg && IsLeaf(d, l) && IsDescendant(d, l, a) :: l == leaf
    ensures forall n: Node | IsDescendant(d, n, a) :: n in cfg <==> InSubtree(d, leaf, n)
  {
    leaf := ActiveLeafBelow(d, cfg, a);
    forall l | l in cfg && IsLeaf(d, l) && IsDescendant(d, l, a) ensures l == leaf { SingleLeaf(d, cfg, a, l, leaf); }
    forall n: Node | IsDescendant(d, n, a) ensures n in cfg <==> InSubtree(d, leaf, n) {
      if n in cfg {
        var l := ActiveLeafBelow(d, cfg, n);
        if l != n { DescendantTransitive(d, l, n, a); }
      }
      if IsDescendant(d, leaf, n) { LegalUpward(d, cfg, leaf, n); }
    }
  }

  // ------------------------------------------------------------------ the mutable set

  /** A Go `map[*StateNode]struct{}`: the type behind `configuration` and behind the
      entry sets that the entry functions fill in place. */
  class NodeSet {
    var members: set<Node>

    constructor (initial: set<Node>)
      ensures members == initial
    {
      members := initial;
    }

    method Add(n: Node)
      modifies this
      ensures members == old(members) + {n}
    {
      members := members + {n};
    }

    method Remove(n: Node)
      modifies this
      ensures members == old(members) - {n}
    {
      members := members - {n};
    }

    method Clone() returns (copy: NodeSet)
      ensures fresh(copy) && copy.members == members
    {
      copy := new NodeSet(members);
    }

    /** The active atomic and final nodes in document order. */
    method Atomic(d: Definition) returns (out: seq<Node>)
      ensures out == Leaves(d, members)
    {
      var all := AllActive(d, members);
      out := [];
      for i := 0 to |all|
        invariant AtomicOnly(d, all) == out + AtomicOnly(d, all[i..])
      {
        if IsLeaf(d, all[i]) { out := out + [all[i]]; }
        assert all[i..][1..] == all[i + 1..];
      }
    }
  }
}
