/** What the loader passes establish (schema/build.go, definition.go): a tree numbered in
    pre-order, in which document order decides ancestry, and ids that name nodes uniquely. */
module Numbering {
  import opened Definitions
  import opened Build

  /** A definition as the loader leaves it: laid out from the parsed tree and numbered. */
  ghost predicate Loaded(d: Definition, dto: Dto, key: string)
  {
    && |d.nodes| == Size(dto)
    && LaidOut(d.nodes, dto, 0, None, key, "")
    && forall n: Node | n < |d.nodes| :: d.nodes[n].docOrder == n
  }

  // ------------------------------------------------------------------ inside a layout

  /** The node at m was built from some part of the parsed tree. */
  ghost predicate BuiltFrom(nodes: seq<StateNode>, sub: Dto, m: Node)
  {
    m < |nodes| && LaidOut(nodes, sub, m, nodes[m].parent, nodes[m].key, nodes[m].id)
  }

  lemma {:induction false} Locate(nodes: seq<StateNode>, dto: Dto, n: Node, parent: Option<Node>, key: string,
                                  id: string, m: Node) returns (sub: Dto)
    requires LaidOut(nodes, dto, n, parent, key, id) && n <= m < n + Size(dto)
    ensures BuiltFrom(nodes, sub, m) && m + Size(sub) <= n + Size(dto)
    decreases dto, 1
  {
    if m == n { sub := dto; } else { sub := LocateAmong(nodes, dto.states, n + 1, n, id, m); }
  }

  lemma {:induction false} LocateAmong(nodes: seq<StateNode>, cs: seq<DtoChild>, at: Node, parent: Node, id: string,
                                       m: Node) returns (sub: Dto)
    requires AllLaidOut(nodes, cs, at, parent, id) && at <= m < at + SizeAll(cs)
    ensures BuiltFrom(nodes, sub, m) && m + Size(sub) <= at + SizeAll(cs)
    decreases cs, 0
  {
    var c := cs[0];
    if m < at + Size(c.state) {
      sub := Locate(nodes, c.state, at, Some(parent), c.key, ChildId(id, c.key), m);
    } else {
      sub := LocateAmong(nodes, cs[1..], at + Size(c.state), parent, id, m);
    }
  }

  /** The children of one node: in order, inside its range, pointing back at it. */
  lemma {:induction false} ChildFacts(nodes: seq<StateNode>, cs: seq<DtoChild>, at: Node, parent: Node, id: string)
    requires AllLaidOut(nodes, cs, at, parent, id)
    ensures var places := ChildPlaces(cs, at);
            && |places| == |cs|
            && (forall i | 0 <= i < |places| :: at <= places[i] < at + SizeAll(cs) && places[i] < |nodes|)
            && (forall i | 0 <= i < |places| :: nodes[places[i]].parent == Some(parent)
                  && nodes[places[i]].key == cs[i].key && nodes[places[i]].id == ChildId(id, cs[i].key))
            && (forall i, j | 0 <= i < j < |places| :: places[i] < places[j])
    decreases cs
  {
    if cs == [] {
    } else {
      var next := at + Size(cs[0].state);
      ChildFacts(nodes, cs[1..], next, parent, id);
      var rest := ChildPlaces(cs[1..], next);
      assert ChildPlaces(cs, at) == [at] + rest;
      assert forall i | 0 <= i < |rest| :: rest[i] >= next;
    }
  }

  /** k follows its parent, which lists it. */
  predicate HasParent(nodes: seq<StateNode>, n: Node, k: Node)
  {
    k < |nodes| && nodes[k].parent.Some? && n <= nodes[k].parent.value < k && k in nodes[nodes[k].parent.value].children
  }

  lemma {:induction false} ParentFacts(nodes: seq<StateNode>, dto: Dto, n: Node, parent: Option<Node>, key: string,
                                       id: string, k: Node)
    requires LaidOut(nodes, dto, n, parent, key, id) && n < k < n + Size(dto)
    ensures HasParent(nodes, n, k)
    decreases dto, 1
  {
    ParentFactsAmong(nodes, dto.states, n + 1, n, id, k);
  }

  lemma FirstLaidOut(nodes: seq<StateNode>, cs: seq<DtoChild>, at: Node, parent: Node, id: string)
    requires cs != [] && AllLaidOut(nodes, cs, at, parent, id)
    ensures at < |nodes| && nodes[at].parent == Some(parent)
  {
  }

  lemma ChildPlacesOf(cs: seq<DtoChild>, at: Node)
    requires cs != []
    ensures at in ChildPlaces(cs, at)
    ensures forall x | x in ChildPlaces(cs[1..], at + Size(cs[0].state)) :: x in ChildPlaces(cs, at)
  {
    assert ChildPlaces(cs, at)[0] == at;
  }

  lemma {:induction false} ParentFactsAmong(nodes: seq<StateNode>, cs: seq<DtoChild>, at: Node, parent: Node,
                                            id: string, k: Node)
    requires AllLaidOut(nodes, cs, at, parent, id) && at <= k < at + SizeAll(cs) && parent < at
    requires parent < |nodes| && forall c | c in ChildPlaces(cs, at) :: c in nodes[parent].children
    ensures HasParent(nodes, parent, k)
    decreases cs, 0
  {
    hide LaidOut, ChildPlaces;
    var c := cs[0];
    ChildPlacesOf(cs, at);
    FirstLaidOut(nodes, cs, at, parent, id);
    if k < at + Size(c.state) {
      if k != at { ParentFacts(nodes, c.state, at, Some(parent), c.key, ChildId(id, c.key), k); }
    } else {
      ParentFactsAmong(nodes, cs[1..], at + Size(c.state), parent, id, k);
    }
  }

  // ------------------------------------------------------------------ the loaded tree

  lemma LoadedNode(d: Definition, dto: Dto, key: string, n: Node) returns (sub: Dto)
    requires Loaded(d, dto, key) && n < |d.nodes|
    ensures BuiltFrom(d.nodes, sub, n) && n + Size(sub) <= |d.nodes|
  {
    sub := Locate(d.nodes, dto, 0, None, key, "", n);
  }

  lemma LoadedChildren(d: Definition, sub: Dto, n: Node)
    requires BuiltFrom(d.nodes, sub, n)
    ensures forall c | c in Children(d, n) :: n < c < n + Size(sub) && c < |d.nodes| && Parent(d, c) == Some(n)
    ensures ChildrenOrdered(d, n)
  {
    ChildFacts(d.nodes, sub.states, n + 1, n, d.nodes[n].id);
  }

  lemma LoadedIsTree(d: Definition, dto: Dto, key: string)
    requires Loaded(d, dto, key)
    ensures IsTree(d)
    ensures forall p: Node | p < |d.nodes| :: ChildrenOrdered(d, p)
  {
    forall n: Node | 0 < n < |d.nodes| ensures HasParent(d.nodes, 0, n) {
      ParentFacts(d.nodes, dto, 0, None, key, "", n);
    }
    forall p: Node | p < |d.nodes|
      ensures ChildrenOrdered(d, p) && forall c | c in Children(d, p) :: p < c < |d.nodes| && Parent(d, c) == Some(p)
    {
      var sub := LoadedNode(d, dto, key, p);
      LoadedChildren(d, sub, p);
    }
    forall n: Node | 0 < n < |d.nodes|
      ensures Parent(d, n).Some? && Parent(d, n).value < n && n in Children(d, Parent(d, n).value)
    {
      assert HasParent(d.nodes, 0, n);
    }
  }

  /** The number of nodes in the subtree of n. */
  function TreeSize(d: Definition, n: Node): nat
    requires IsTree(d) && InTree(d, n)
    decreases |d.nodes| - n, 1, 0
  {
    1 + TreeSizes(d, n, Children(d, n))
  }

  function TreeSizes(d: Definition, n: Node, cs: seq<Node>): nat
    requires IsTree(d) && InTree(d, n) && forall c | c in cs :: c in Children(d, n)
    decreases |d.nodes| - n, 0, |cs|
  {
    if cs == [] then 0 else assert cs[0] in Children(d, n); TreeSize(d, cs[0]) + TreeSizes(d, n, cs[1..])
  }

  lemma {:induction false} TreeSizeIsSize(d: Definition, sub: Dto, n: Node, parent: Option<Node>, key: string,
                                          id: string)
    requires IsTree(d) && LaidOut(d.nodes, sub, n, parent, key, id)
    ensures TreeSize(d, n) == Size(sub)
    decreases sub, 1
  {
    TreeSizesAreSizes(d, sub.states, n + 1, n, id);
  }

  lemma {:induction false} TreeSizesAreSizes(d: Definition, cs: seq<DtoChild>, at: Node, n: Node, id: string)
    requires IsTree(d) && InTree(d, n) && AllLaidOut(d.nodes, cs, at, n, id)
    requires forall c | c in ChildPlaces(cs, at) :: c in Children(d, n)
    ensures TreeSizes(d, n, ChildPlaces(cs, at)) == SizeAll(cs)
    decreases cs, 0
  {
    if cs == [] {
    } else {
      var c := cs[0];
      var next := at + Size(c.state);
      PlacesUnfold(d.nodes, cs, at, n, id);
      hide LaidOut, AllLaidOut, Size, SizeAll, ChildPlaces, TreeSize, TreeSizes;
      TreeSizeIsSize(d, c.state, at, Some(n), c.key, ChildId(id, c.key));
      TreeSizesAreSizes(d, cs[1..], next, n, id);
      hide IsTree;
      TreeSizesUnfold(d, n, at, ChildPlaces(cs[1..], next));
    }
  }

  lemma TreeSizesUnfold(d: Definition, n: Node, c: Node, rest: seq<Node>)
    requires IsTree(d) && InTree(d, n) && c in Children(d, n) && forall x | x in rest :: x in Children(d, n)
    ensures TreeSizes(d, n, [c] + rest) == TreeSize(d, c) + TreeSizes(d, n, rest)
  {
    assert ([c] + rest)[1..] == rest;
  }

  /** Everything in the range of a node descends from it. */
  lemma {:induction false} RangeDescends(d: Definition, n: Node, sub: Dto, m: Node)
    requires IsTree(d) && BuiltFrom(d.nodes, sub, n) && n < m < n + Size(sub)
    ensures IsDescendant(d, m, n)
    decreases m
  {
    ParentFacts(d.nodes, sub, n, d.nodes[n].parent, d.nodes[n].key, d.nodes[n].id, m);
    var p := Parent(d, m).value;
    if p != n { RangeDescends(d, n, sub, p); }
  }

  /** And nothing else does. */
  lemma {:induction false} DescendantInRange(d: Definition, n: Node, sub: Dto, m: Node)
    requires IsTree(d) && BuiltFrom(d.nodes, sub, n) && IsDescendant(d, m, n)
    ensures n < m < n + Size(sub)
    decreases m
  {
    var p := Parent(d, m).value;
    DescendantAfter(d, m, n);
    assert m in Children(d, p);
    if p == n {
      LoadedChildren(d, sub, n);
    } else {
      DescendantInRange(d, n, sub, p);
      var subp := Locate(d.nodes, sub, n, d.nodes[n].parent, d.nodes[n].key, d.nodes[n].id, p);
      LoadedChildren(d, subp, p);
    }
  }

  /** Document order characterises ancestry: n is a proper descendant of a exactly when it
      is numbered inside the block of the subtree of a. */
  lemma AncestryByNumber(d: Definition, dto: Dto, key: string, a: Node, n: Node)
    requires Loaded(d, dto, key) && a < |d.nodes|
    ensures IsTree(d)
    ensures IsDescendant(d, n, a) <==> a < n < a + TreeSize(d, a)
    ensures a + TreeSize(d, a) <= |d.nodes|
  {
    LoadedIsTree(d, dto, key);
    var sub := LoadedNode(d, dto, key, a);
    TreeSizeIsSize(d, sub, a, d.nodes[a].parent, d.nodes[a].key, d.nodes[a].id);
    if IsDescendant(d, n, a) { DescendantInRange(d, a, sub, n); }
    if a < n < a + Size(sub) { RangeDescends(d, a, sub, n); }
  }

  /** The loader establishes the shape that the interpreter relies on. */
  lemma LoadedIsPreOrder(d: Definition, dto: Dto, key: string)
    requires Loaded(d, dto, key)
    ensures IsTree(d) && IsPreOrder(d)
  {
    LoadedIsTree(d, dto, key);
    forall a: Node, b: Node, c: Node | a < b < c && IsDescendant(d, c, a) ensures IsDescendant(d, b, a) {
      DescendantAfter(d, c, a);
      AncestryByNumber(d, dto, key, a, c);
      AncestryByNumber(d, dto, key, a, b);
    }
  }

  /** schema/build.go: the first half of build.  It fails exactly on an id that differs from
      its key or an unknown type; otherwise the tree it leaves is loaded. */
  method LoadShape(dto: Dto, key: string)
    returns (r: Option<Definition>, ordered: seq<Node>, byKey: map<string, seq<Node>>)
    ensures r.Some? <==> Buildable(dto, key, true)
    ensures r.Some? ==>
              && Loaded(r.value, dto, key) && IsTree(r.value) && IsPreOrder(r.value)
              && ordered == Range(0, |r.value.nodes|) && KeyIndex(byKey, r.value.nodes)
  {
    var b := new Builder();
    var root := b.BuildNode(dto, key, "", None, true);
    if root == None { return None, [], map[]; }
    b.AssignDocOrder(dto, key);
    var d := Definition(key, b.nodes, 0, 0);
    LoadedIsPreOrder(d, dto, key);
    return Some(d), b.ordered, b.byKey;
  }

  // ------------------------------------------------------------------ ids

  predicate KeyOk(key: string) { key != "" && '.' !in key }

  /** Keys are non-empty, free of dots and different among siblings. */
  predicate KeysOk(dto: Dto)
    decreases dto
  {
    && (forall i | 0 <= i < |dto.states| :: KeyOk(dto.states[i].key))
    && (forall i, j | 0 <= i < j < |dto.states| :: dto.states[i].key != dto.states[j].key)
    && (forall i | 0 <= i < |dto.states| :: KeysOk(dto.states[i].state))
  }

  /** The same, said of the loaded nodes. */
  ghost predicate NamesOk(d: Definition)
    requires IsTree(d)
  {
    && d.nodes[ROOT].id == ""
    && forall n: Node | 0 < n < |d.nodes| ::
         && KeyOk(d.nodes[n].key)
         && d.nodes[n].id == ChildId(d.nodes[Parent(d, n).value].id, d.nodes[n].key)
         && forall m: Node | 0 < m < |d.nodes| && Parent(d, m) == Parent(d, n) && d.nodes[m].key == d.nodes[n].key ::
              m == n
  }

  lemma {:induction false} KeysOkInside(nodes: seq<StateNode>, dto: Dto, n: Node, parent: Option<Node>, key: string,
                                        id: string, m: Node) returns (sub: Dto)
    requires LaidOut(nodes, dto, n, parent, key, id) && n <= m < n + Size(dto) && KeysOk(dto)
    ensures BuiltFrom(nodes, sub, m) && KeysOk(sub)
    decreases dto, 1
  {
    if m == n { sub := dto; } else { sub := KeysOkAmong(nodes, dto.states, n + 1, n, id, m); }
  }

  lemma {:induction false} KeysOkAmong(nodes: seq<StateNode>, cs: seq<DtoChild>, at: Node, parent: Node, id: string,
                                       m: Node) returns (sub: Dto)
    requires AllLaidOut(nodes, cs, at, parent, id) && at <= m < at + SizeAll(cs)
    requires forall i | 0 <= i < |cs| :: KeysOk(cs[i].state)
    ensures BuiltFrom(nodes, sub, m) && KeysOk(sub)
    decreases cs, 0
  {
    var c := cs[0];
    if m < at + Size(c.state) {
      sub := KeysOkInside(nodes, c.state, at, Some(parent), c.key, ChildId(id, c.key), m);
    } else {
      sub := KeysOkAmong(nodes, cs[1..], at + Size(c.state), parent, id, m);
    }
  }

  /** The name of n is made from its parent's, and no sibling has the same key. */
  ghost predicate NamedFrom(d: Definition, p: Node, n: Node)
    requires IsTree(d) && InTree(d, p) && InTree(d, n)
  {
    && KeyOk(d.nodes[n].key) && d.nodes[n].id == ChildId(d.nodes[p].id, d.nodes[n].key)
    && forall m: Node | 0 < m < |d.nodes| && Parent(d, m) == Some(p) && d.nodes[m].key == d.nodes[n].key :: m == n
  }

  lemma ChildrenNamed(d: Definition, sub: Dto, p: Node)
    requires IsTree(d) && BuiltFrom(d.nodes, sub, p) && KeysOk(sub)
    ensures var cs := Children(d, p);
            && |cs| == |sub.states|
            && (forall i | 0 <= i < |cs| :: cs[i] < |d.nodes| && d.nodes[cs[i]].key == sub.states[i].key
                  && d.nodes[cs[i]].id == ChildId(d.nodes[p].id, sub.states[i].key))
  {
    hide IsTree;
    ChildFacts(d.nodes, sub.states, p + 1, p, d.nodes[p].id);
  }

  lemma ChildNamed(d: Definition, sub: Dto, p: Node, n: Node)
    requires IsTree(d) && BuiltFrom(d.nodes, sub, p) && KeysOk(sub) && 0 < n < |d.nodes| && Parent(d, n) == Some(p)
    ensures NamedFrom(d, p, n)
  {
    ChildrenNamed(d, sub, p);
    SiblingKeys(sub);
    assert forall m: Node | 0 < m < |d.nodes| && Parent(d, m) == Some(p) :: m in Children(d, p);
    hide IsTree, BuiltFrom, KeysOk, ChildId, KeyOk;
    var cs := Children(d, p);
    var i :| 0 <= i < |cs| && cs[i] == n;
    forall m: Node | 0 < m < |d.nodes| && Parent(d, m) == Some(p) && d.nodes[m].key == d.nodes[n].key ensures m == n {
      var j :| 0 <= j < |cs| && cs[j] == m;
    }
  }

  lemma SiblingKeys(sub: Dto)
    requires KeysOk(sub)
    ensures forall i | 0 <= i < |sub.states| :: KeyOk(sub.states[i].key)
    ensures forall i, j | 0 <= i < j < |sub.states| :: sub.states[i].key != sub.states[j].key
  {
    hide KeyOk;
    assert (forall i | 0 <= i < |sub.states| :: KeyOk(sub.states[i].key))
        && (forall i, j | 0 <= i < j < |sub.states| :: sub.states[i].key != sub.states[j].key);
  }

  lemma LoadedNames(d: Definition, dto: Dto, key: string)
    requires Loaded(d, dto, key) && KeysOk(dto)
    ensures IsTree(d) && NamesOk(d)
  {
    LoadedIsTree(d, dto, key);
    forall n: Node | 0 < n < |d.nodes| ensures Parent(d, n).Some? && NamedFrom(d, Parent(d, n).value, n) {
      var p := Parent(d, n).value;
      var sub := KeysOkInside(d.nodes, dto, 0, None, key, "", p);
      hide Loaded, KeysOk;
      ChildNamed(d, sub, p, n);
    }
    assert d.nodes[ROOT].id == "";
    NamedIsOk(d);
  }

  lemma NamedIsOk(d: Definition)
    requires IsTree(d) && d.nodes[ROOT].id == ""
    requires forall n: Node | 0 < n < |d.nodes| :: Parent(d, n).Some? && NamedFrom(d, Parent(d, n).value, n)
    ensures NamesOk(d)
  {
    hide KeyOk;
    forall n: Node | 0 < n < |d.nodes|
      ensures KeyOk(d.nodes[n].key) && d.nodes[n].id == ChildId(d.nodes[Parent(d, n).value].id, d.nodes[n].key)
      ensures forall m: Node | 0 < m < |d.nodes| && Parent(d, m) == Parent(d, n) && d.nodes[m].key == d.nodes[n].key ::
                m == n
    {
      assert NamedFrom(d, Parent(d, n).value, n);
    }
  }

  /** A dotted id splits at its last dot only. */
  lemma ChildIdInjective(p: string, k: string, q: string, l: string)
    requires KeyOk(k) && KeyOk(l) && ChildId(p, k) == ChildId(q, l)
    ensures p == q && k == l
  {
    var x := ChildId(p, k);
    assert x[|x| - |k|..] == k && x[|x| - |l|..] == l;
    assert forall i | |x| - |k| <= i < |x| :: x[i] == k[i - (|x| - |k|)] && x[i] != '.';
    assert forall i | |x| - |l| <= i < |x| :: x[i] == l[i - (|x| - |l|)] && x[i] != '.';
    assert p != "" ==> x[|x| - |k| - 1] == '.' && x[..|x| - |k| - 1] == p;
    assert q != "" ==> x[|x| - |l| - 1] == '.' && x[..|x| - |l| - 1] == q;
    assert |l| <= |k| <= |l|;
  }

  lemma {:induction false} SameIdSameNode(d: Definition, m: Node, n: Node)
    requires IsTree(d) && NamesOk(d) && InTree(d, m) && InTree(d, n) && d.nodes[m].id == d.nodes[n].id
    ensures m == n
    decreases m
  {
    if m != 0 && n != 0 {
      ChildIdInjective(d.nodes[Parent(d, m).value].id, d.nodes[m].key, d.nodes[Parent(d, n).value].id, d.nodes[n].key);
      SameIdSameNode(d, Parent(d, m).value, Parent(d, n).value);
    }
  }

  // ------------------------------------------------------------------ the id index

  /** The index has grown by nodes of the subtree of n only, each under its own id. */
  ghost predicate Grew(d: Definition, index: map<string, Node>, out: map<string, Node>, n: Node)
    requires IsTree(d)
  {
    && (forall id | id in index :: id in out)
    && (forall id | id in out :: (id in index && out[id] == index[id]) || IndexedBelow(d, out[id], n, id))
  }

  ghost predicate IndexedBelow(d: Definition, m: Node, n: Node, id: string)
    requires IsTree(d)
  {
    InTree(d, m) && InSubtree(d, m, n) && d.nodes[m].id == id
  }

  /** Every node of the subtree of n can be found. */
  ghost predicate Covered(d: Definition, out: map<string, Node>, n: Node)
    requires IsTree(d)
  {
    forall m: Node | InSubtree(d, m, n) :: InTree(d, m) && d.nodes[m].id in out
  }

  lemma GrewByOne(d: Definition, index: map<string, Node>, n: Node)
    requires IsTree(d) && InTree(d, n)
    ensures Grew(d, index, index[d.nodes[n].id := n], n)
  {
  }

  lemma GrewFurther(d: Definition, a: map<string, Node>, b: map<string, Node>, c: map<string, Node>, n: Node,
                    child: Node)
    requires IsTree(d) && InTree(d, n) && child in Children(d, n) && Grew(d, a, b, n) && Grew(d, b, c, child)
    ensures Grew(d, a, c, n) && forall id | id in b :: id in c
    ensures forall x: Node :: Covered(d, b, x) ==> Covered(d, c, x)
  {
    assert IsDescendant(d, child, n);
    forall id | id in c ensures (id in a && c[id] == a[id]) || IndexedBelow(d, c[id], n, id) {
      if !(id in b && c[id] == b[id]) && c[id] != child { DescendantTransitive(d, c[id], child, n); }
    }
  }

  lemma CoveredByChildren(d: Definition, out: map<string, Node>, n: Node)
    requires IsTree(d) && InTree(d, n) && d.nodes[n].id in out && forall c | c in Children(d, n) :: Covered(d, out, c)
    ensures Covered(d, out, n)
  {
    forall m: Node | InSubtree(d, m, n) ensures InTree(d, m) && d.nodes[m].id in out {
      if m != n { var c := ChildTowards(d, m, n); }
    }
  }

  /** What holds when the first i children of n have been visited. */
  ghost predicate Indexed(d: Definition, index: map<string, Node>, out: map<string, Node>, n: Node, i: nat)
    requires IsTree(d) && InTree(d, n) && i <= |Children(d, n)|
  {
    && d.nodes[n].id in out && Grew(d, index, out, n)
    && forall j | 0 <= j < i :: Covered(d, out, Children(d, n)[j])
  }

  lemma IndexedStep(d: Definition, index: map<string, Node>, was: map<string, Node>, out: map<string, Node>, n: Node,
                    i: nat)
    requires IsTree(d) && InTree(d, n) && i < |Children(d, n)| && Indexed(d, index, was, n, i)
    requires var c := Children(d, n)[i]; Covered(d, out, c) && Grew(d, was, out, c)
    ensures Indexed(d, index, out, n, i + 1)
  {
    hide Grew, Covered, IsTree;
    assert Children(d, n)[i] in Children(d, n);
    GrewFurther(d, index, was, out, n, Children(d, n)[i]);
  }

  lemma IndexedEnds(d: Definition, index: map<string, Node>, out: map<string, Node>, n: Node)
    requires IsTree(d) && InTree(d, n) && Indexed(d, index, out, n, |Children(d, n)|)
    ensures Covered(d, out, n) && Grew(d, index, out, n)
  {
    hide Grew, Covered, IsTree;
    CoveredByChildren(d, out, n);
  }

  lemma ChildAfter(d: Definition, n: Node, i: nat)
    requires IsTree(d) && InTree(d, n) && i < |Children(d, n)|
    ensures n < Children(d, n)[i] < |d.nodes|
  {
    assert Children(d, n)[i] in Children(d, n);
  }

  /** definition.go: the index that NewDefinition builds; a later node with the same id
      replaces an earlier one. */
  method IndexNodes(d: Definition, n: Node, index: map<string, Node>) returns (out: map<string, Node>)
    requires IsTree(d) && InTree(d, n)
    ensures Covered(d, out, n) && Grew(d, index, out, n)
    decreases |d.nodes| - n
  {
    out := index[d.nodes[n].id := n];
    GrewByOne(d, index, n);
    hide Grew, Covered, IsTree;
    assert Indexed(d, index, out, n, 0);
    hide Indexed;
    for i := 0 to |Children(d, n)|
      invariant Indexed(d, index, out, n, i)
    {
      ChildAfter(d, n, i);
      ghost var was := out;
      out := IndexNodes(d, Children(d, n)[i], out);
      IndexedStep(d, index, was, out, n, i);
    }
    IndexedEnds(d, index, out, n);
  }

  /** definition.go: NewDefinition and Lookup.  With keys as required, looking up the id of
      any node finds that node, and an id that no node has finds nothing. */
  method NewIndex(d: Definition, ghost dto: Dto, ghost key: string) returns (index: map<string, Node>)
    requires Loaded(d, dto, key) && KeysOk(dto)
    ensures forall n: Node | n < |d.nodes| :: d.nodes[n].id in index && index[d.nodes[n].id] == n
    ensures forall id | id in index :: InTree(d, index[id]) && d.nodes[index[id]].id == id
  {
    LoadedNames(d, dto, key);
    index := IndexNodes(d, ROOT, map[]);
    assert forall id | id in index :: IndexedBelow(d, index[id], ROOT, id);
    forall n: Node | n < |d.nodes| ensures d.nodes[n].id in index && index[d.nodes[n].id] == n {
      if n != 0 { AllUnderRoot(d, n); }
      SameIdSameNode(d, index[d.nodes[n].id], n);
    }
  }
}
