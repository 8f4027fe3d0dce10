/** The loader passes that give the tree its shape and numbering (schema/build.go).  The
    builder keeps all nodes in one growing list; a node is named by its place in it, and the
    passes fill the nodes in place. */
module Build {
  import opened Definitions

  datatype Dto = Dto(id: Option<string>, typ: Option<string>, states: seq<DtoChild>)
  datatype DtoChild = DtoChild(key: string, state: Dto)

  // ------------------------------------------------------------------ what the passes compute

  /** schema/build.go: kindOf; None is the unknown-type error. */
  function KindOf(dto: Dto): Option<StateKind>
  {
    match dto.typ
    case Some(t) =>
      if t == "parallel" then Some(Parallel)
      else if t == "final" then Some(Final)
      else if t == "history" then Some(History)
      else None
    case None => if dto.states != [] then Some(Compound) else Some(Atomic)
  }

  /** schema/build.go: findChild. */
  function FindChild(nodes: seq<StateNode>, cs: seq<Node>, key: string): Option<Node>
  {
    if cs == [] then None
    else if cs[0] < |nodes| && nodes[cs[0]].key == key then Some(cs[0])
    else FindChild(nodes, cs[1..], key)
  }

  function ChildId(parentId: string, key: string): string
  {
    if parentId == "" then key else parentId + "." + key
  }

  function Size(dto: Dto): nat
    decreases dto
  {
    1 + SizeAll(dto.states)
  }

  function SizeAll(cs: seq<DtoChild>): nat
    decreases cs
  {
    if cs == [] then 0 else Size(cs[0].state) + SizeAll(cs[1..])
  }

  /** Every id equals its key and every type is known. */
  predicate Buildable(dto: Dto, key: string, root: bool)
    decreases dto
  {
    (root || dto.id == None || dto.id == Some(key)) && KindOf(dto).Some? && AllBuildable(dto.states)
  }

  predicate AllBuildable(cs: seq<DtoChild>)
    decreases cs
  {
    cs == [] || (Buildable(cs[0].state, cs[0].key, false) && AllBuildable(cs[1..]))
  }

  /** Where the children of a node at n - 1 are, one subtree after the other. */
  function ChildPlaces(cs: seq<DtoChild>, n: nat): seq<Node>
  {
    if cs == [] then [] else [n] + ChildPlaces(cs[1..], n + Size(cs[0].state))
  }

  /** The list holds the subtree of dto at n: pre-order, with parents, keys, ids and kinds. */
  predicate LaidOut(nodes: seq<StateNode>, dto: Dto, n: Node, parent: Option<Node>, key: string, id: string)
    decreases dto
  {
    && n + Size(dto) <= |nodes|
    && nodes[n].parent == parent && nodes[n].key == key && nodes[n].id == id
    && KindOf(dto) == Some(nodes[n].kind)
    && nodes[n].children == ChildPlaces(dto.states, n + 1)
    && AllLaidOut(nodes, dto.states, n + 1, n, id)
  }

  predicate AllLaidOut(nodes: seq<StateNode>, cs: seq<DtoChild>, at: Node, parent: Node, parentId: string)
    decreases cs
  {
    cs == [] ||
    (&& LaidOut(nodes, cs[0].state, at, Some(parent), cs[0].key, ChildId(parentId, cs[0].key))
     && AllLaidOut(nodes, cs[1..], at + Size(cs[0].state), parent, parentId))
  }

  /** Equal up to what the shape passes do not look at. */
  predicate SameShape(a: StateNode, b: StateNode)
  {
    a.id == b.id && a.key == b.key && a.kind == b.kind && a.parent == b.parent && a.children == b.children
  }

  lemma {:induction false} LaidOutLocal(a: seq<StateNode>, b: seq<StateNode>, dto: Dto, n: Node, parent: Option<Node>,
                                        key: string, id: string)
    requires LaidOut(a, dto, n, parent, key, id) && n + Size(dto) <= |b|
    requires forall k | n <= k < n + Size(dto) :: SameShape(a[k], b[k])
    ensures LaidOut(b, dto, n, parent, key, id)
    decreases dto, 1
  {
    AllLaidOutLocal(a, b, dto.states, n + 1, n, id);
  }

  lemma {:induction false} AllLaidOutLocal(a: seq<StateNode>, b: seq<StateNode>, cs: seq<DtoChild>, at: Node,
                                           parent: Node, parentId: string)
    requires AllLaidOut(a, cs, at, parent, parentId) && at + SizeAll(cs) <= |b|
    requires cs != [] ==> at + SizeAll(cs) <= |a|
    requires forall k | at <= k < at + SizeAll(cs) :: k < |a| && SameShape(a[k], b[k])
    ensures AllLaidOut(b, cs, at, parent, parentId)
    decreases cs, 0
  {
    if cs == [] {
    } else {
      LaidOutLocal(a, b, cs[0].state, at, Some(parent), cs[0].key, ChildId(parentId, cs[0].key));
      if cs[1..] != [] { AllLaidOutLocal(a, b, cs[1..], at + Size(cs[0].state), parent, parentId); }
    }
  }

  /** The first of several laid out children. */
  lemma PlacesUnfold(nodes: seq<StateNode>, cs: seq<DtoChild>, at: Node, n: Node, id: string)
    requires cs != [] && AllLaidOut(nodes, cs, at, n, id)
    ensures var c := cs[0]; var next := at + Size(c.state);
            && ChildPlaces(cs, at) == [at] + ChildPlaces(cs[1..], next) && at in ChildPlaces(cs, at)
            && (forall x | x in ChildPlaces(cs[1..], next) :: x in ChildPlaces(cs, at))
            && SizeAll(cs) == Size(c.state) + SizeAll(cs[1..])
            && LaidOut(nodes, c.state, at, Some(n), c.key, ChildId(id, c.key)) && at < |nodes|
            && AllLaidOut(nodes, cs[1..], next, n, id)
  {
    assert at < |nodes|;
    hide LaidOut, Size;
  }

  lemma {:induction false} SizeAllSplit(cs: seq<DtoChild>, c: DtoChild)
    ensures SizeAll(cs + [c]) == SizeAll(cs) + Size(c.state)
  {
    if cs == [] {
      assert [] + [c] == [c] && [c][1..] == [];
    } else {
      assert (cs + [c])[1..] == cs[1..] + [c];
      SizeAllSplit(cs[1..], c);
    }
  }

  lemma {:induction false} ChildPlacesSplit(cs: seq<DtoChild>, c: DtoChild, at: Node)
    ensures ChildPlaces(cs + [c], at) == ChildPlaces(cs, at) + [at + SizeAll(cs)]
  {
    if cs == [] {
      assert [] + [c] == [c] && [c][1..] == [];
    } else {
      assert (cs + [c])[1..] == cs[1..] + [c];
      ChildPlacesSplit(cs[1..], c, at + Size(cs[0].state));
    }
  }

  lemma {:induction false} AllLaidOutSplit(nodes: seq<StateNode>, cs: seq<DtoChild>, c: DtoChild, at: Node,
                                           parent: Node, parentId: string)
    requires AllLaidOut(nodes, cs, at, parent, parentId)
    requires LaidOut(nodes, c.state, at + SizeAll(cs), Some(parent), c.key, ChildId(parentId, c.key))
    ensures AllLaidOut(nodes, cs + [c], at, parent, parentId)
    decreases cs
  {
    hide LaidOut;
    if cs == [] {
      assert [] + [c] == [c] && [c][1..] == [];
    } else {
      assert (cs + [c])[1..] == cs[1..] + [c] && (cs + [c])[0] == cs[0];
      AllLaidOutSplit(nodes, cs[1..], c, at + Size(cs[0].state), parent, parentId);
    }
  }

  /** byKey lists, under each key, exactly the nodes of that key, in order. */
  ghost predicate KeyIndex(byKey: map<string, seq<Node>>, nodes: seq<StateNode>)
  {
    && (forall n: Node | n < |nodes| :: nodes[n].key in byKey && n in byKey[nodes[n].key])
    && (forall k, i | k in byKey && 0 <= i < |byKey[k]| :: byKey[k][i] < |nodes| && nodes[byKey[k][i]].key == k)
    && (forall k, i, j | k in byKey && 0 <= i < j < |byKey[k]| :: byKey[k][i] < byKey[k][j])
  }

  lemma KeyIndexGrows(a: map<string, seq<Node>>, nodesA: seq<StateNode>, b: map<string, seq<Node>>,
                      nodesB: seq<StateNode>, key: string)
    requires KeyIndex(a, nodesA) && |nodesB| == |nodesA| + 1 && nodesB[..|nodesA|] == nodesA
             && nodesB[|nodesA|].key == key
    requires b == a[key := (if key in a then a[key] else []) + [|nodesA|]]
    ensures KeyIndex(b, nodesB)
  {
    var top := |nodesA|;
    assert forall n: Node | n < top :: nodesB[n] == nodesB[..top][n];
    var was := if key in a then a[key] else [];
    KeyListGrows(was, nodesA, nodesB, key);
    var now := was + [top];
    assert b[key] == now;
    forall k | k in b ensures k == key || (k in a && b[k] == a[k]) {}
    forall n: Node | n < |nodesB| ensures nodesB[n].key in b && n in b[nodesB[n].key] {
      if nodesB[n].key != key { assert n < top; }
    }
    forall k, i | k in b && 0 <= i < |b[k]| ensures b[k][i] < |nodesB| && nodesB[b[k][i]].key == k {
      if k != key { assert b[k][i] == a[k][i]; }
    }
    forall k, i, j | k in b && 0 <= i < j < |b[k]| ensures b[k][i] < b[k][j] {
      if k != key { assert b[k] == a[k]; }
    }
  }

  lemma KeyListGrows(was: seq<Node>, nodesA: seq<StateNode>, nodesB: seq<StateNode>, key: string)
    requires |nodesB| == |nodesA| + 1 && nodesB[|nodesA|].key == key
             && forall n: Node | n < |nodesA| :: nodesB[n] == nodesA[n]
    requires forall n: Node | n < |nodesA| && nodesA[n].key == key :: n in was
    requires forall i | 0 <= i < |was| :: was[i] < |nodesA| && nodesA[was[i]].key == key
    requires forall i, j | 0 <= i < j < |was| :: was[i] < was[j]
    ensures var now := was + [|nodesA|];
            && (forall n: Node | n < |nodesB| && nodesB[n].key == key :: n in now)
            && (forall i | 0 <= i < |now| :: now[i] < |nodesB| && nodesB[now[i]].key == key)
            && (forall i, j | 0 <= i < j < |now| :: now[i] < now[j])
  {
    var now := was + [|nodesA|];
    assert now[|was|] == |nodesA|;
    forall n: Node | n < |nodesB| && nodesB[n].key == key ensures n in now {
      if n < |nodesA| { assert n in was; }
    }
  }

  lemma KeyIndexLocal(byKey: map<string, seq<Node>>, a: seq<StateNode>, b: seq<StateNode>)
    requires KeyIndex(byKey, a) && |a| == |b| && forall n: Node | n < |a| :: a[n].key == b[n].key
    ensures KeyIndex(byKey, b)
  {
  }

  /** The numbers n, n + 1, ..., n + k - 1. */
  function Range(n: Node, k: nat): seq<Node> { seq(k, (i: nat) => n + i) }

  /** b is a with document orders i, i + 1, ... on the k nodes from n on. */
  ghost predicate Numbered(a: seq<StateNode>, b: seq<StateNode>, n: Node, k: nat, i: nat)
  {
    |b| == |a| && forall m | 0 <= m < |a| ::
      b[m] == a[m].(docOrder := if n <= m < n + k then i + (m - n) else a[m].docOrder)
  }

  /** The children from the j-th on are laid out from place on. */
  ghost predicate Remaining(nodes: seq<StateNode>, cs: seq<Node>, states: seq<DtoChild>, j: nat, place: Node, n: Node,
                            id: string)
  {
    j <= |states| == |cs| && cs[j..] == ChildPlaces(states[j..], place) && AllLaidOut(nodes, states[j..], place, n, id)
  }

  lemma RemainingStep(was: seq<StateNode>, nodes: seq<StateNode>, cs: seq<Node>, states: seq<DtoChild>, j: nat,
                      place: Node, n: Node, id: string)
    requires j < |cs| && Remaining(was, cs, states, j, place, n, id) && |was| == |nodes|
    requires forall m | 0 <= m < |was| :: SameShape(was[m], nodes[m])
    ensures Remaining(nodes, cs, states, j + 1, place + Size(states[j].state), n, id)
    ensures SizeAll(states[j..]) == Size(states[j].state) + SizeAll(states[j + 1..])
  {
    TodoStep(was, states, j, place, n, id);
    assert cs[j..][1..] == cs[j + 1..];
    hide LaidOut, AllLaidOut, SameShape, Size, SizeAll, ChildPlaces;
    ShapeKept(was, nodes, states[j + 1..], place + Size(states[j].state), n, id);
  }

  lemma WalkOneHead(nodes: seq<StateNode>, cs: seq<Node>, states: seq<DtoChild>, j: nat, place: Node, n: Node,
                    id: string)
    requires j < |cs| && Remaining(nodes, cs, states, j, place, n, id)
    ensures cs[j] == place && states[j] in states
    ensures LaidOut(nodes, states[j].state, place, Some(n), states[j].key, ChildId(id, states[j].key))
  {
    hide LaidOut, AllLaidOut, Size, SizeAll, ChildPlaces;
    TodoStep(nodes, states, j, place, n, id);
    assert cs[j..][0] == cs[j];
  }

  /** The head of what is left to walk. */
  lemma TodoStep(nodes: seq<StateNode>, states: seq<DtoChild>, j: nat, at: Node, n: Node, id: string)
    requires j < |states| && AllLaidOut(nodes, states[j..], at, n, id)
    ensures states[j] in states
    ensures LaidOut(nodes, states[j].state, at, Some(n), states[j].key, ChildId(id, states[j].key))
    ensures AllLaidOut(nodes, states[j + 1..], at + Size(states[j].state), n, id)
    ensures ChildPlaces(states[j..], at) == [at] + ChildPlaces(states[j + 1..], at + Size(states[j].state))
    ensures SizeAll(states[j..]) == Size(states[j].state) + SizeAll(states[j + 1..])
  {
    hide LaidOut, AllLaidOut, Size, SizeAll, ChildPlaces;
    assert states[j..][0] == states[j] && states[j..][1..] == states[j + 1..];
    PlacesUnfold(nodes, states[j..], at, n, id);
  }

  /** Numbering does not disturb the layout. */
  lemma ShapeKept(a: seq<StateNode>, b: seq<StateNode>, cs: seq<DtoChild>, at: Node, parent: Node, id: string)
    requires AllLaidOut(a, cs, at, parent, id) && |a| == |b|
    requires forall m | 0 <= m < |a| :: SameShape(a[m], b[m])
    ensures AllLaidOut(b, cs, at, parent, id)
  {
    AllLaidOutFits(a, cs, at, parent, id);
    if cs != [] { AllLaidOutLocal(a, b, cs, at, parent, id); }
  }

  lemma {:induction false} AllLaidOutFits(a: seq<StateNode>, cs: seq<DtoChild>, at: Node, parent: Node, id: string)
    requires AllLaidOut(a, cs, at, parent, id)
    ensures cs != [] ==> at + SizeAll(cs) <= |a|
    decreases cs
  {
    if cs == [] {
    } else {
      AllLaidOutFits(a, cs[1..], at + Size(cs[0].state), parent, id);
    }
  }

  lemma {:induction false} PlacesCount(cs: seq<DtoChild>, at: Node)
    ensures |ChildPlaces(cs, at)| == |cs|
  {
    if cs == [] {
    } else {
      PlacesCount(cs[1..], at + Size(cs[0].state));
    }
  }

  // ------------------------------------------------------------------ the builder

  class Builder {
    var nodes: seq<StateNode>
    /** The nodes of each key, in the order in which they were built. */
    var byKey: map<string, seq<Node>>
    /** The nodes in the order in which assignDocOrder meets them. */
    var ordered: seq<Node>

    constructor ()
      ensures nodes == [] && ordered == [] && KeyIndex(byKey, nodes)
    {
      nodes, ordered, byKey := [], [], map[];
    }

    /** schema/build.go: buildNode; None is an error. */
    method BuildNode(dto: Dto, key: string, parentId: string, parent: Option<Node>, root: bool)
      returns (r: Option<Node>)
      requires KeyIndex(byKey, nodes)
      modifies this`nodes, this`byKey
      ensures KeyIndex(byKey, nodes)
      ensures r.Some? <==> Buildable(dto, key, root)
      ensures |nodes| >= |old(nodes)| && nodes[..|old(nodes)|] == old(nodes)
      ensures r.Some? ==>
                && r.value == |old(nodes)| && |nodes| == |old(nodes)| + Size(dto)
                && LaidOut(nodes, dto, r.value, parent, key, if root then "" else ChildId(parentId, key))
      decreases dto, 2
    {
      if !root && dto.id.Some? && dto.id.value != key { return None; }
      var id := if root then "" else ChildId(parentId, key);
      var kind := KindOf(dto);
      if kind == None { return None; }
      var n := |nodes|;
      nodes := nodes + [StateNode(id, key, kind.value, parent, [], None, Shallow, [], [], [], [], [], 0)];
      byKey := byKey[key := (if key in byKey then byKey[key] else []) + [n]];
      KeyIndexGrows(old(byKey), old(nodes), byKey, nodes, key);
      var ok := BuildChildren(dto, n, id);
      return if ok then Some(n) else None;
    }

    /** schema/build.go: the loop of buildNode over the child states. */
    method BuildChildren(dto: Dto, n: Node, id: string) returns (ok: bool)
      requires |nodes| == n + 1 && nodes[n].children == [] && KeyIndex(byKey, nodes)
      modifies this`nodes, this`byKey
      ensures KeyIndex(byKey, nodes)
      ensures ok <==> AllBuildable(dto.states)
      ensures |nodes| >= n + 1 && nodes[..n] == old(nodes)[..n]
      ensures ok ==>
                && |nodes| == n + 1 + SizeAll(dto.states) && AllLaidOut(nodes, dto.states, n + 1, n, id)
                && nodes[n] == old(nodes)[n].(children := ChildPlaces(dto.states, n + 1))
      decreases dto, 1
    {
      NoChildren(nodes, n, id);
      assert dto.states[..0] == [] && dto.states[0..] == dto.states;
      hide LaidOut, AllLaidOut, ChildPlaces, SizeAll, AllBuildable, KeyIndex;
      for i := 0 to |dto.states|
        invariant AllBuildable(dto.states) <==> AllBuildable(dto.states[i..])
        invariant KeyIndex(byKey, nodes)
        invariant Built(old(nodes), nodes, dto.states[..i], n, id)
      {
        OneBuildable(dto.states, i);
        assert dto.states[..i + 1] == dto.states[..i] + [dto.states[i]];
        var ok := BuildChild(dto.states[i], n, id, old(nodes), dto.states[..i]);
        if !ok { return false; }
      }
      assert dto.states[..|dto.states|] == dto.states && dto.states[|dto.states|..] == [];
      NoneBuildable();
      return true;
    }

    /** The children done of n are built; nothing before n has changed. */
    ghost predicate Built(nodes0: seq<StateNode>, nodes: seq<StateNode>, done: seq<DtoChild>, n: Node, id: string)
    {
      && n < |nodes0| && |nodes| == n + 1 + SizeAll(done) && nodes[..n] == nodes0[..n]
      && nodes[n] == nodes0[n].(children := ChildPlaces(done, n + 1))
      && AllLaidOut(nodes, done, n + 1, n, id)
    }

    method BuildChild(ch: DtoChild, n: Node, id: string, ghost nodes0: seq<StateNode>, ghost done: seq<DtoChild>)
      returns (ok: bool)
      requires Built(nodes0, nodes, done, n, id) && KeyIndex(byKey, nodes)
      modifies this`nodes, this`byKey
      ensures ok <==> Buildable(ch.state, ch.key, false)
      ensures KeyIndex(byKey, nodes) && |nodes| >= n + 1 && nodes[..n] == nodes0[..n]
      ensures ok ==> Built(nodes0, nodes, done + [ch], n, id)
      decreases ch, 0
    {
      hide LaidOut, AllLaidOut, ChildPlaces, SizeAll, Size, Buildable, KeyIndex;
      var cn := BuildNode(ch.state, ch.key, id, Some(n), false);
      assert nodes[..n] == nodes[..|old(nodes)|][..n] == nodes0[..n];
      if cn == None { return false; }
      assert nodes[n] == nodes[..|old(nodes)|][n];
      ghost var mid := nodes;
      nodes := nodes[n := nodes[n].(children := nodes[n].children + [cn.value])];
      KeyIndexLocal(byKey, mid, nodes);
      OneMoreChild(old(nodes), mid, nodes, done, ch, n, id);
      ChildPlacesSplit(done, ch, n + 1);
      return true;
    }

    /** The list after the child ch of n has been built behind the children done. */
    lemma OneMoreChild(before: seq<StateNode>, mid: seq<StateNode>, after: seq<StateNode>, done: seq<DtoChild>,
                       ch: DtoChild, n: Node, id: string)
      requires n < |before| && |before| == n + 1 + SizeAll(done) && AllLaidOut(before, done, n + 1, n, id)
      requires |mid| == |before| + Size(ch.state) && mid[..|before|] == before
      requires LaidOut(mid, ch.state, |before|, Some(n), ch.key, ChildId(id, ch.key))
      requires |after| == |mid| && forall m | 0 <= m < |mid| && m != n :: after[m] == mid[m]
      ensures AllLaidOut(after, done + [ch], n + 1, n, id)
      ensures SizeAll(done + [ch]) == SizeAll(done) + Size(ch.state)
    {
      hide LaidOut, AllLaidOut, ChildPlaces, SizeAll, Size, SameShape;
      ShapeBut(before, mid, after, n);
      LaidOutLocal(mid, after, ch.state, |before|, Some(n), ch.key, ChildId(id, ch.key));
      AllLaidOutLocal(before, after, done, n + 1, n, id);
      AllLaidOutSplit(after, done, ch, n + 1, n, id);
      SizeAllSplit(done, ch);
    }

    lemma ShapeBut(before: seq<StateNode>, mid: seq<StateNode>, after: seq<StateNode>, n: Node)
      requires n < |before| <= |mid| == |after| && mid[..|before|] == before
      requires forall m | 0 <= m < |mid| && m != n :: after[m] == mid[m]
      ensures forall m | 0 <= m < |mid| && m != n :: SameShape(mid[m], after[m])
      ensures forall m | 0 <= m < |before| && m != n :: SameShape(before[m], after[m])
    {
      assert forall m | 0 <= m < |before| :: mid[m] == mid[..|before|][m];
    }

    lemma NoChildren(nodes: seq<StateNode>, n: Node, id: string)
      ensures AllLaidOut(nodes, [], n + 1, n, id) && ChildPlaces([], n + 1) == [] && SizeAll([]) == 0
    {
    }

    lemma NoneBuildable()
      ensures AllBuildable([])
    {
    }

    lemma OneBuildable(cs: seq<DtoChild>, i: nat)
      requires i < |cs|
      ensures AllBuildable(cs[i..]) <==> Buildable(cs[i].state, cs[i].key, false) && AllBuildable(cs[i + 1..])
    {
      assert cs[i..][1..] == cs[i + 1..];
    }

    /** schema/build.go: the recursive walk of assignDocOrder. */
    method Walk(n: Node, i: nat, ghost dto: Dto, ghost parent: Option<Node>, ghost key: string, ghost id: string)
      returns (next: nat)
      requires LaidOut(nodes, dto, n, parent, key, id)
      modifies this`nodes, this`ordered
      ensures next == i + Size(dto)
      ensures Numbered(old(nodes), nodes, n, Size(dto), i)
      ensures ordered == old(ordered) + Range(n, Size(dto))
      decreases dto, 2
    {
      ghost var was := nodes;
      nodes := nodes[n := nodes[n].(docOrder := i)];
      ordered := ordered + [n];
      ghost var mid := nodes;
      ShapeKept(was, mid, dto.states, n + 1, n, id);
      next := WalkChildren(nodes[n].children, i + 1, dto.states, n, id);
      NumberedStep(was, mid, nodes, n, 1, SizeAll(dto.states), i);
      RangeStep(n, 1, SizeAll(dto.states));
      assert Range(n, 1) == [n];
    }

    /** schema/build.go: the loop of the walk over the children. */
    method WalkChildren(cs: seq<Node>, i: nat, ghost states: seq<DtoChild>, ghost n: Node, ghost id: string)
      returns (next: nat)
      requires cs == ChildPlaces(states, n + 1) && AllLaidOut(nodes, states, n + 1, n, id)
      modifies this`nodes, this`ordered
      ensures next == i + SizeAll(states)
      ensures Numbered(old(nodes), nodes, n + 1, SizeAll(states), i)
      ensures ordered == old(ordered) + Range(n + 1, SizeAll(states))
      decreases states, 1
    {
      next := i;
      PlacesCount(states, n + 1);
      WalkBegins(nodes, ordered, cs, states, i, n, id);
      hide Walked, Numbered, Range;
      for j := 0 to |cs|
        invariant Walked(old(nodes), nodes, old(ordered), ordered, cs, states, j, next, i, n, id)
      {
        next := WalkOne(cs, next, i, states, j, n, id, old(nodes), old(ordered));
      }
      WalkEnds(old(nodes), nodes, old(ordered), ordered, cs, states, next, i, n, id);
    }

    /** What holds when the first j children have been walked. */
    ghost predicate Walked(nodes0: seq<StateNode>, nodes: seq<StateNode>, ordered0: seq<Node>, ordered: seq<Node>,
                           cs: seq<Node>,
                           states: seq<DtoChild>, j: nat, next: nat, i: nat, n: Node, id: string)
    {
      && i <= next
      && Remaining(nodes, cs, states, j, n + 1 + (next - i), n, id)
      && next - i + SizeAll(states[j..]) == SizeAll(states)
      && Numbered(nodes0, nodes, n + 1, next - i, i)
      && ordered == ordered0 + Range(n + 1, next - i)
    }

    lemma WalkBegins(nodes: seq<StateNode>, ordered: seq<Node>, cs: seq<Node>, states: seq<DtoChild>, i: nat, n: Node,
                     id: string)
      requires |cs| == |states| && cs == ChildPlaces(states, n + 1) && AllLaidOut(nodes, states, n + 1, n, id)
      ensures Walked(nodes, nodes, ordered, ordered, cs, states, 0, i, i, n, id)
    {
      assert states[0..] == states && cs[0..] == cs;
    }

    lemma WalkEnds(nodes0: seq<StateNode>, nodes: seq<StateNode>, ordered0: seq<Node>, ordered: seq<Node>,
                   cs: seq<Node>,
                   states: seq<DtoChild>, next: nat, i: nat, n: Node, id: string)
      requires Walked(nodes0, nodes, ordered0, ordered, cs, states, |cs|, next, i, n, id)
      ensures next == i + SizeAll(states) && Numbered(nodes0, nodes, n + 1, SizeAll(states), i)
      ensures ordered == ordered0 + Range(n + 1, SizeAll(states))
    {
      assert states[|cs|..] == [];
    }

    method WalkOne(cs: seq<Node>, at: nat, ghost i: nat, ghost states: seq<DtoChild>, j: nat, ghost n: Node,
                   ghost id: string,
                   ghost nodes0: seq<StateNode>, ghost ordered0: seq<Node>) returns (next: nat)
      requires j < |cs| && Walked(nodes0, nodes, ordered0, ordered, cs, states, j, at, i, n, id)
      modifies this`nodes, this`ordered
      ensures Walked(nodes0, nodes, ordered0, ordered, cs, states, j + 1, next, i, n, id)
      decreases states, 0
    {
      ghost var c, was, place := states[j], nodes, n + 1 + (at - i);
      WalkOneHead(nodes, cs, states, j, place, n, id);
      hide Walked, Remaining, Numbered, LaidOut, Range, Size;
      next := Walk(cs[j], at, c.state, Some(n), c.key, ChildId(id, c.key));
      WalkedStep(nodes0, was, nodes, ordered0, old(ordered), ordered, cs, states, j, at, i, n, id);
    }

    lemma WalkedStep(nodes0: seq<StateNode>, was: seq<StateNode>, nodes: seq<StateNode>, ordered0: seq<Node>,
                     ordered1: seq<Node>, ordered: seq<Node>,
                     cs: seq<Node>, states: seq<DtoChild>, j: nat, at: nat, i: nat, n: Node, id: string)
      requires j < |cs| && Walked(nodes0, was, ordered0, ordered1, cs, states, j, at, i, n, id)
      requires var place := n + 1 + (at - i);
               && Numbered(was, nodes, place, Size(states[j].state), at)
               && ordered == ordered1 + Range(place, Size(states[j].state))
      ensures Walked(nodes0, nodes, ordered0, ordered, cs, states, j + 1, at + Size(states[j].state), i, n, id)
    {
      var c, k: nat := states[j], at - i;
      hide Remaining, Numbered, Range, SameShape, Size, SizeAll;
      NumberedKeepsShape(was, nodes, n + 1 + k, Size(c.state), i + k);
      RemainingStep(was, nodes, cs, states, j, n + 1 + k, n, id);
      NumberedStep(nodes0, was, nodes, n + 1, k, Size(c.state), i);
      OrderStep(ordered0, n + 1, k, Size(c.state));
    }

    lemma NumberedKeepsShape(a: seq<StateNode>, b: seq<StateNode>, n: Node, k: nat, i: nat)
      requires Numbered(a, b, n, k, i)
      ensures |a| == |b| && forall m | 0 <= m < |a| :: SameShape(a[m], b[m])
    {
    }

    lemma NumberedStep(a: seq<StateNode>, b: seq<StateNode>, c: seq<StateNode>, n: Node, k: nat, k2: nat, i: nat)
      requires Numbered(a, b, n, k, i) && Numbered(b, c, n + k, k2, i + k)
      ensures Numbered(a, c, n, k + k2, i)
    {
    }

    lemma OrderStep(base: seq<Node>, n: Node, k: nat, k2: nat)
      ensures (base + Range(n, k)) + Range(n + k, k2) == base + Range(n, k + k2)
    {
    }

    lemma RangeStep(n: Node, k: nat, k2: nat)
      ensures Range(n, k) + Range(n + k, k2) == Range(n, k + k2)
    {
    }

    /** schema/build.go: assignDocOrder. */
    method AssignDocOrder(ghost dto: Dto, ghost key: string)
      requires ordered == [] && LaidOut(nodes, dto, 0, None, key, "") && |nodes| == Size(dto)
      modifies this`nodes, this`ordered
      ensures Numbered(old(nodes), nodes, 0, |nodes|, 0) && ordered == Range(0, |nodes|)
      ensures LaidOut(nodes, dto, 0, None, key, "")
    {
      var count := Walk(0, 0, dto, None, key, "");
      LaidOutLocal(old(nodes), nodes, dto, 0, None, key, "");
    }
  }
}
