/** The structural machine model that the interpreter walks (definition.go).

    A state node is named by its document order, which is also its position in
    `Definition.nodes`; module Build proves that the loader produces exactly this
    numbering.  A Go `*StateNode` therefore becomes a `Node`, and sorting nodes by
    document order becomes sorting numbers. */
module Definitions {

  datatype Option<+T> = None | Some(value: T)

  type Node = nat

  datatype StateKind = Atomic | Compound | Parallel | Final | History
  datatype HistoryKind = Shallow | Deep

  datatype ActionRef = ActionRef(typ: string, callsite: int)
  datatype GuardRef = GuardRef(typ: string, callsite: int)
  datatype Delay = Delay(millis: int, symbol: string)

  datatype Transition = Transition(
    source: Node,
    event: string,
    guard: Option<GuardRef>,
    targets: seq<Node>,
    actions: seq<ActionRef>,
    docOrder: nat,
    isAfter: bool,
    delay: Delay)
  {
    predicate Eventless() { event == "" && !isAfter }
  }

  datatype Invoke = Invoke(id: string, src: string, onDone: seq<Transition>, onError: seq<Transition>)

  datatype StateNode = StateNode(
    id: string,
    key: string,
    kind: StateKind,
    parent: Option<Node>,
    children: seq<Node>,
    initial: Option<Node>,
    historyKind: HistoryKind,
    historyTo: seq<Node>,
    entry: seq<ActionRef>,
    exit: seq<ActionRef>,
    invokes: seq<Invoke>,
    transitions: seq<Transition>,
    docOrder: nat)
  {
    predicate IsAtomic() { kind == Atomic || kind == Final }
  }

  datatype Definition = Definition(id: string, nodes: seq<StateNode>, actionCount: nat, guardCount: nat)

  const ROOT: Node := 0

  // ------------------------------------------------------------------ tree shape

  predicate InTree(d: Definition, n: Node) { n < |d.nodes| }

  function Kind(d: Definition, n: Node): StateKind
    requires InTree(d, n)
  {
    d.nodes[n].kind
  }

  function Parent(d: Definition, n: Node): Option<Node>
    requires InTree(d, n)
  {
    d.nodes[n].parent
  }

  function Children(d: Definition, n: Node): seq<Node>
    requires InTree(d, n)
  {
    d.nodes[n].children
  }

  /** Parent and child pointers agree, and parents come before their children. */
  predicate IsTree(d: Definition)
  {
    && |d.nodes| > 0
    && Parent(d, ROOT) == None
    && (forall n: Node | 0 < n < |d.nodes| ::
          Parent(d, n).Some? && Parent(d, n).value < n && n in Children(d, Parent(d, n).value))
    && (forall p: Node, c: Node {:trigger c in Children(d, p)} | p < |d.nodes| && c in Children(d, p) ::
          p < c < |d.nodes| && Parent(d, c) == Some(p))
    && (forall n: Node | n < |d.nodes| :: d.nodes[n].docOrder == n)
  }

  /** n is a proper descendant of a: the parent walk from n meets a. */
  predicate IsDescendant(d: Definition, n: Node, a: Node)
    requires IsTree(d)
    decreases n
  {
    InTree(d, n) && Parent(d, n).Some? &&
    (Parent(d, n).value == a || IsDescendant(d, Parent(d, n).value, a))
  }

  predicate InSubtree(d: Definition, n: Node, a: Node)
    requires IsTree(d)
  {
    n == a || IsDescendant(d, n, a)
  }

  /** The ancestors of n from its parent up to the root, innermost first. */
  function ProperAncestors(d: Definition, n: Node): (r: seq<Node>)
    requires IsTree(d) && InTree(d, n)
    decreases n
  {
    match Parent(d, n)
    case None => []
    case Some(p) => [p] + ProperAncestors(d, p)
  }

  function Depth(d: Definition, n: Node): (r: nat)
    requires IsTree(d) && InTree(d, n)
    ensures r <= n
    decreases n
  {
    match Parent(d, n)
    case None => 0
    case Some(p) => 1 + Depth(d, p)
  }

  /** Document order is pre-order: the nodes between an ancestor and its descendant
      are descendants of that ancestor too, and children are listed in order. */
  ghost predicate IsPreOrder(d: Definition)
    requires IsTree(d)
  {
    && (forall a: Node, b: Node, c: Node | a < b < c && IsDescendant(d, c, a) :: IsDescendant(d, b, a))
    && (forall p: Node | p < |d.nodes| :: ChildrenOrdered(d, p))
  }

  predicate ChildrenOrdered(d: Definition, p: Node)
    requires InTree(d, p)
  {
    forall i, j | 0 <= i < j < |Children(d, p)| :: Children(d, p)[i] < Children(d, p)[j]
  }

  // ------------------------------------------------------------------ well-formed charts

  predicate HasParallelBelow(d: Definition, a: Node)
    requires IsTree(d)
  {
    exists n: Node | n < |d.nodes| :: IsDescendant(d, n, a) && Kind(d, n) == Parallel
  }

  predicate NodeShapeOk(d: Definition, n: Node)
    requires IsTree(d) && InTree(d, n)
  {
    var node := d.nodes[n];
    match node.kind
    case Atomic => node.children == []
    case Final => node.children == []
    case Compound => node.initial.Some? && node.initial.value in node.children
    case Parallel =>
      && node.children != []
      && (forall c | c in node.children :: InTree(d, c) && Kind(d, c) != History)
    case History =>
      && node.children == []
      && node.parent.Some?
      && InTree(d, node.parent.value)
      && Kind(d, node.parent.value) == Compound
      && |node.historyTo| == 1
      && InTree(d, node.historyTo[0])
      && node.historyTo[0] in Children(d, node.parent.value)
      && Kind(d, node.historyTo[0]) != History
  }

  /** An edge leaves its own node and has at most one target (resolve.go builds no others). */
  predicate EdgeOk(d: Definition, n: Node, t: Transition)
  {
    && t.source == n
    && |t.targets| <= 1
    && (t.targets != [] ==> InTree(d, t.targets[0]))
  }

  predicate EdgesOk(d: Definition, n: Node)
    requires InTree(d, n)
  {
    && (forall t | t in d.nodes[n].transitions :: EdgeOk(d, n, t))
    && (forall iv | iv in d.nodes[n].invokes ::
          && (forall t | t in iv.onDone :: EdgeOk(d, n, t))
          && (forall t | t in iv.onError :: EdgeOk(d, n, t)))
  }

  /** The charts on which the interpreter can be run: what every result assumes. */
  ghost predicate WellFormed(d: Definition)
  {
    && IsTree(d)
    && IsPreOrder(d)
    && Kind(d, ROOT) == Compound
    && (forall n: Node | n < |d.nodes| :: NodeShapeOk(d, n))
    && (forall n: Node | n < |d.nodes| :: EdgesOk(d, n))
  }

  /** A targeted edge with the root at one of its ends. */
  predicate RootEdge(t: Transition)
  {
    t.targets != [] && (t.source == ROOT || ROOT in t.targets)
  }

  ghost predicate NoRootEdges(ts: seq<Transition>)
  {
    forall t | t in ts :: !RootEdge(t)
  }

  /** Deep history has no parallel beside or below it. */
  predicate DeepSimple(d: Definition)
    requires IsTree(d)
  {
    forall h: Node | h < |d.nodes| && Kind(d, h) == History && d.nodes[h].historyKind == Deep && Parent(d, h).Some? ::
      !HasParallelBelow(d, Parent(d, h).value)
  }

  ghost predicate RootFree(d: Definition)
  {
    forall n: Node | n < |d.nodes| ::
      && NoRootEdges(d.nodes[n].transitions)
      && forall iv | iv in d.nodes[n].invokes :: NoRootEdges(iv.onDone) && NoRootEdges(iv.onError)
  }

  /** The charts on which no run whatever leaves the legal configurations. */
  ghost predicate Tame(d: Definition)
    requires IsTree(d)
  {
    DeepSimple(d) && RootFree(d)
  }

  lemma TreeInOrder(d: Definition)
    requires WellFormed(d)
    ensures IsTree(d) && IsPreOrder(d)
  {
  }

  /** What well-formedness says of one node. */
  lemma Shape(d: Definition, n: Node)
    requires WellFormed(d) && InTree(d, n)
    ensures IsTree(d) && NodeShapeOk(d, n) && ChildrenOrdered(d, n)
  {
  }

  // ------------------------------------------------------------------ facts about ancestry

  lemma {:induction false} DescendantAfter(d: Definition, n: Node, a: Node)
    requires IsTree(d) && IsDescendant(d, n, a)
    ensures a < n && InTree(d, n)
    decreases n
  {
    var p := Parent(d, n).value;
    if p != a { DescendantAfter(d, p, a); }
  }

  lemma {:induction false} DescendantTransitive(d: Definition, n: Node, m: Node, a: Node)
    requires IsTree(d) && IsDescendant(d, n, m) && IsDescendant(d, m, a)
    ensures IsDescendant(d, n, a)
    decreases n
  {
    var p := Parent(d, n).value;
    if p != m { DescendantTransitive(d, p, m, a); }
  }

  /** Two ancestors of one node lie on one path. */
  lemma {:induction false} AncestorsLinear(d: Definition, n: Node, a: Node, b: Node)
    requires IsTree(d) && IsDescendant(d, n, a) && IsDescendant(d, n, b)
    ensures a == b || IsDescendant(d, a, b) || IsDescendant(d, b, a)
    decreases n
  {
    var p := Parent(d, n).value;
    if p != a && p != b { AncestorsLinear(d, p, a, b); }
  }

  lemma {:induction false} DescendantDeeper(d: Definition, n: Node, a: Node)
    requires IsTree(d) && IsDescendant(d, n, a)
    ensures InTree(d, a) && Depth(d, n) > Depth(d, a)
    decreases n
  {
    DescendantAfter(d, n, a);
    var p := Parent(d, n).value;
    if p != a { DescendantDeeper(d, p, a); }
  }

  lemma {:induction false} AllUnderRoot(d: Definition, n: Node)
    requires IsTree(d) && 0 < n < |d.nodes|
    ensures IsDescendant(d, n, ROOT)
    decreases n
  {
    var p := Parent(d, n).value;
    if p != ROOT { AllUnderRoot(d, p); }
  }

  /** The child of a on the path to its descendant n. */
  lemma {:induction false} ChildTowards(d: Definition, n: Node, a: Node) returns (c: Node)
    requires IsTree(d) && IsDescendant(d, n, a)
    ensures InTree(d, a) && c in Children(d, a) && InSubtree(d, n, c)
    decreases n
  {
    DescendantAfter(d, n, a);
    var p := Parent(d, n).value;
    if p == a {
      c := n;
    } else {
      c := ChildTowards(d, p, a);
    }
  }

  /** Subtrees of different children of one node are disjoint. */
  lemma ChildrenDisjoint(d: Definition, p: Node, c1: Node, c2: Node, n: Node)
    requires IsTree(d) && InTree(d, p)
    requires c1 in Children(d, p) && c2 in Children(d, p)
    requires InSubtree(d, n, c1) && InSubtree(d, n, c2)
    ensures c1 == c2
  {
    if c1 != c2 {
      if n == c1 {
        DescendantOfChild(d, c1, c2, p);
      } else if n == c2 {
        DescendantOfChild(d, c2, c1, p);
      } else {
        AncestorsLinear(d, n, c1, c2);
        if IsDescendant(d, c1, c2) { DescendantOfChild(d, c1, c2, p); } else { DescendantOfChild(d, c2, c1, p); }
      }
    }
  }

  lemma DescendantOfChild(d: Definition, n: Node, c: Node, p: Node)
    requires IsTree(d) && InTree(d, p) && InTree(d, n) && c in Children(d, p)
    requires n in Children(d, p)
    ensures !IsDescendant(d, n, c)
  {
    if IsDescendant(d, n, c) {
      if p == c {} else { DescendantAfter(d, p, c); }
    }
  }

  lemma {:induction false} AncestorsAreThePath(d: Definition, n: Node, a: Node)
    requires IsTree(d) && InTree(d, n)
    ensures a in ProperAncestors(d, n) <==> IsDescendant(d, n, a)
    decreases n
  {
    if Parent(d, n).Some? { AncestorsAreThePath(d, Parent(d, n).value, a); }
  }

  // ------------------------------------------------------------------ the loops of definition.go

  /** definition.go: ProperAncestors. */
  method CollectAncestors(d: Definition, n: Node) returns (out: seq<Node>)
    requires IsTree(d) && InTree(d, n)
    ensures out == ProperAncestors(d, n)
    ensures forall a: Node :: a in out <==> IsDescendant(d, n, a)
  {
    hide IsDescendant;
    out := [];
    var p := Parent(d, n);
    while p.Some?
      invariant p.Some? ==> InTree(d, p.value)
      invariant ProperAncestors(d, n) == out + (if p.Some? then [p.value] + ProperAncestors(d, p.value) else [])
      decreases if p.Some? then p.value + 1 else 0
    {
      out := out + [p.value];
      p := Parent(d, p.value);
    }
    TheAncestors(d, n);
  }

  lemma TheAncestors(d: Definition, n: Node)
    requires IsTree(d) && InTree(d, n)
    ensures forall a: Node :: a in ProperAncestors(d, n) <==> IsDescendant(d, n, a)
  {
    hide IsTree, ProperAncestors, IsDescendant;
    forall a: Node ensures a in ProperAncestors(d, n) <==> IsDescendant(d, n, a) { AncestorsAreThePath(d, n, a); }
  }

  /** definition.go: IsDescendant, where the ancestor may be nil. */
  method CheckDescendant(d: Definition, n: Node, anc: Option<Node>) returns (r: bool)
    requires IsTree(d) && InTree(d, n)
    ensures r <==> anc.Some? && IsDescendant(d, n, anc.value)
  {
    if anc == None { return false; }
    var p := Parent(d, n);
    while p.Some?
      invariant p.Some? ==> InTree(d, p.value)
      invariant IsDescendant(d, n, anc.value) <==> p.Some? && InSubtree(d, p.value, anc.value)
      decreases if p.Some? then p.value + 1 else 0
    {
      if p.value == anc.value { return true; }
      p := Parent(d, p.value);
    }
    return false;
  }
}
