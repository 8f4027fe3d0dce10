/** Target strings (schema/resolve.go): "#id" names a state anywhere, ".a.b" walks down from
    the source, and a bare key names a sibling. */
module Targets {
  import opened Definitions
  import opened Build
  import opened Numbering

  datatype TargetError = MissingId | NoSuchState | Ambiguous | EmptySegment | NotADescendant | NoSiblings | NotASibling
  datatype Resolved = Found(node: Node) | Failed(error: TargetError)

  // ------------------------------------------------------------------ what a target means

  predicate Named(nodes: seq<StateNode>, id: string, n: Node)
  {
    n < |nodes| && (nodes[n].key == id || nodes[n].id == id)
  }

  /** An absolute target is the one state with that key or that id. */
  ghost predicate MeansAbsolute(nodes: seq<StateNode>, id: string, r: Resolved)
  {
    match r
    case Found(n) => id != "" && Named(nodes, id, n) && forall m: Node | Named(nodes, id, m) :: m == n
    case Failed(e) =>
      match e
      case MissingId => id == ""
      case NoSuchState => id != "" && forall m: Node :: !Named(nodes, id, m)
      case Ambiguous => id != "" && exists m: Node, n: Node :: Named(nodes, id, m) && Named(nodes, id, n) && m != n
      case _ => false
  }

  /** Go's strings.Split with a dot. */
  function Split(s: string): (r: seq<string>)
    ensures r != []
  {
    if s == "" then [""]
    else if s[0] == '.' then [""] + Split(s[1..])
    else var rest := Split(s[1..]); [[s[0]] + rest[0]] + rest[1..]
  }

  /** Walking down from a node, key by key. */
  function Follow(nodes: seq<StateNode>, cur: Node, segs: seq<string>): Resolved
    requires cur < |nodes|
    decreases |segs|
  {
    if segs == [] then Found(cur)
    else if segs[0] == "" then Failed(EmptySegment)
    else match FindChild(nodes, nodes[cur].children, segs[0])
         case None => Failed(NotADescendant)
         case Some(c) => FindChildMeaning(nodes, nodes[cur].children, segs[0]); Follow(nodes, c, segs[1..])
  }

  function Sibling(nodes: seq<StateNode>, src: Node, key: string): Resolved
    requires src < |nodes|
  {
    match nodes[src].parent
    case None => Failed(NoSiblings)
    case Some(p) =>
      var found := if p < |nodes| then FindChild(nodes, nodes[p].children, key) else None;
      if found.Some? then Found(found.value) else Failed(NotASibling)
  }

  lemma {:induction false} FindChildMeaning(nodes: seq<StateNode>, cs: seq<Node>, key: string)
    ensures var r := FindChild(nodes, cs, key);
            && (r.Some? ==> r.value in cs && r.value < |nodes| && nodes[r.value].key == key)
            && (r == None ==> forall c | c in cs && c < |nodes| :: nodes[c].key != key)
    decreases |cs|
  {
    if cs == [] {
    } else {
      FindChildMeaning(nodes, cs[1..], key);
    }
  }

  // ------------------------------------------------------------------ resolveTarget

  /** The candidates of an absolute target: the nodes with that key, then those with that id. */
  method ResolveAbsolute(nodes: seq<StateNode>, byKey: map<string, seq<Node>>, ordered: seq<Node>, id: string)
    returns (r: Resolved)
    requires KeyIndex(byKey, nodes) && ordered == Range(0, |nodes|)
    ensures MeansAbsolute(nodes, id, r)
  {
    if id == "" { return Failed(MissingId); }
    var cands := if id in byKey then byKey[id] else [];
    KeyCandidates(nodes, byKey, id);
    hide KeyIndex, Candidates, MeansAbsolute;
    for i := 0 to |ordered|
      invariant Candidates(nodes, id, i, cands)
    {
      var n := ordered[i];
      NextCandidate(nodes, id, n, cands);
      if nodes[n].id == id && n !in cands { cands := cands + [n]; }
    }
    CandidatesMean(nodes, id, cands);
    if |cands| == 0 { return Failed(NoSuchState); }
    if |cands| == 1 { return Found(cands[0]); }
    return Failed(Ambiguous);
  }

  /** The nodes named id, once each, as far as the first i are looked at for their ids. */
  ghost predicate Candidates(nodes: seq<StateNode>, id: string, i: nat, cands: seq<Node>)
  {
    && (forall c | c in cands :: Named(nodes, id, c))
    && (forall j, k | 0 <= j < k < |cands| :: cands[j] != cands[k])
    && (forall n: Node | n < |nodes| && nodes[n].key == id :: n in cands)
    && (forall n: Node | n < |nodes| && n < i && nodes[n].id == id :: n in cands)
  }

  lemma KeyCandidates(nodes: seq<StateNode>, byKey: map<string, seq<Node>>, id: string)
    requires KeyIndex(byKey, nodes)
    ensures Candidates(nodes, id, 0, if id in byKey then byKey[id] else [])
  {
  }

  lemma NextCandidate(nodes: seq<StateNode>, id: string, n: Node, cands: seq<Node>)
    requires n < |nodes| && Candidates(nodes, id, n, cands)
    ensures Candidates(nodes, id, n + 1, if nodes[n].id == id && n !in cands then cands + [n] else cands)
  {
    var more := if nodes[n].id == id && n !in cands then cands + [n] else cands;
    assert forall c | c in cands :: c in more;
    assert more == cands || more[|cands|] == n;
  }

  lemma CandidatesMean(nodes: seq<StateNode>, id: string, cands: seq<Node>)
    requires id != "" && Candidates(nodes, id, |nodes|, cands)
    ensures |cands| == 0 ==> MeansAbsolute(nodes, id, Failed(NoSuchState))
    ensures |cands| == 1 ==> MeansAbsolute(nodes, id, Found(cands[0]))
    ensures |cands| > 1 ==> MeansAbsolute(nodes, id, Failed(Ambiguous))
  {
    assert forall n: Node :: Named(nodes, id, n) <==> n in cands;
    hide Named;
    if |cands| > 1 { assert cands[0] in cands && cands[1] in cands && cands[0] != cands[1]; }
  }

  method ResolveTarget(nodes: seq<StateNode>, byKey: map<string, seq<Node>>, ordered: seq<Node>, src: Node,
                       raw: string) returns (r: Resolved)
    requires KeyIndex(byKey, nodes) && ordered == Range(0, |nodes|) && src < |nodes|
    ensures raw != "" && raw[0] == '#' ==> MeansAbsolute(nodes, raw[1..], r)
    ensures raw != "" && raw[0] == '.' ==> r == Follow(nodes, src, Split(raw[1..]))
    ensures raw == "" || raw[0] !in "#." ==> r == Sibling(nodes, src, raw)
  {
    if raw != "" && raw[0] == '#' {
      r := ResolveAbsolute(nodes, byKey, ordered, raw[1..]);
      return;
    }
    if raw != "" && raw[0] == '.' {
      var cur: Node := src;
      var segs := Split(raw[1..]);
      for i := 0 to |segs|
        invariant cur < |nodes| && Follow(nodes, src, segs) == Follow(nodes, cur, segs[i..])
      {
        if segs[i] == "" { return Failed(EmptySegment); }
        assert segs[i..][0] == segs[i] && segs[i..][1..] == segs[i + 1..];
        var child := FindChild(nodes, nodes[cur].children, segs[i]);
        FindChildMeaning(nodes, nodes[cur].children, segs[i]);
        if child == None { return Failed(NotADescendant); }
        cur := child.value;
      }
      return Found(cur);
    }
    if nodes[src].parent == None { return Failed(NoSiblings); }
    var p := nodes[src].parent.value;
    if p >= |nodes| { return Failed(NotASibling); }
    var child := FindChild(nodes, nodes[p].children, raw);
    if child == None { return Failed(NotASibling); }
    FindChildMeaning(nodes, nodes[p].children, raw);
    return Found(child.value);
  }

  // ------------------------------------------------------------------ every state can be named

  function Join(segs: seq<string>): string
    requires segs != []
  {
    if |segs| == 1 then segs[0] else segs[0] + "." + Join(segs[1..])
  }

  predicate NoDot(s: string) { '.' !in s }

  lemma {:induction false} SplitPlain(s: string)
    requires NoDot(s)
    ensures Split(s) == [s]
    decreases |s|
  {
    if s != "" {
      SplitPlain(s[1..]);
      assert [s[0]] + s[1..] == s;
    }
  }

  lemma {:induction false} SplitFirst(s: string, rest: string)
    requires NoDot(s)
    ensures Split(s + "." + rest) == [s] + Split(rest)
    decreases |s|
  {
    var whole := s + "." + rest;
    if s == "" {
      assert whole[1..] == rest;
    } else {
      SplitFirst(s[1..], rest);
      assert whole[0] == s[0] && whole[1..] == s[1..] + "." + rest;
      assert [s[0]] + s[1..] == s;
    }
  }

  lemma {:induction false} SplitJoin(segs: seq<string>)
    requires segs != [] && forall i | 0 <= i < |segs| :: NoDot(segs[i])
    ensures Split(Join(segs)) == segs
    decreases |segs|
  {
    if |segs| == 1 {
      SplitPlain(segs[0]);
    } else {
      SplitFirst(segs[0], Join(segs[1..]));
      SplitJoin(segs[1..]);
    }
  }

  /** The keys on the way from a down to n. */
  function Path(d: Definition, n: Node, a: Node): seq<string>
    requires IsTree(d) && InTree(d, n) && InSubtree(d, n, a)
    decreases n
  {
    if n == a then [] else Path(d, Parent(d, n).value, a) + [d.nodes[n].key]
  }

  lemma {:induction false} PathKeys(d: Definition, n: Node, a: Node)
    requires IsTree(d) && NamesOk(d) && InTree(d, n) && InSubtree(d, n, a)
    ensures forall i | 0 <= i < |Path(d, n, a)| :: KeyOk(Path(d, n, a)[i])
    ensures n != a ==> Path(d, n, a) != []
    decreases n
  {
    if n != a { PathKeys(d, Parent(d, n).value, a); }
  }

  /** Among the children of p the key of a child finds that child. */
  lemma ChildFound(d: Definition, p: Node, c: Node)
    requires IsTree(d) && NamesOk(d) && InTree(d, p) && c in Children(d, p)
    ensures FindChild(d.nodes, Children(d, p), d.nodes[c].key) == Some(c)
  {
    FindChildMeaning(d.nodes, Children(d, p), d.nodes[c].key);
  }

  lemma {:induction false} FollowMore(nodes: seq<StateNode>, cur: Node, segs: seq<string>, last: string, n: Node,
                                      c: Node)
    requires cur < |nodes| && Follow(nodes, cur, segs) == Found(n) && n < |nodes| && c < |nodes|
    requires last != "" && FindChild(nodes, nodes[n].children, last) == Some(c)
    ensures Follow(nodes, cur, segs + [last]) == Found(c)
    decreases |segs|
  {
    if segs == [] {
      assert ([] + [last])[1..] == [];
      assert Follow(nodes, c, []) == Found(c);
    } else {
      assert (segs + [last])[1..] == segs[1..] + [last];
      FindChildMeaning(nodes, nodes[cur].children, segs[0]);
      FollowMore(nodes, FindChild(nodes, nodes[cur].children, segs[0]).value, segs[1..], last, n, c);
    }
  }

  lemma {:induction false} FollowPath(d: Definition, n: Node, a: Node)
    requires IsTree(d) && NamesOk(d) && InTree(d, n) && InTree(d, a) && InSubtree(d, n, a)
    ensures Follow(d.nodes, a, Path(d, n, a)) == Found(n)
    decreases n
  {
    if n != a {
      var p := Parent(d, n).value;
      FollowPath(d, p, a);
      ChildFound(d, p, n);
      FollowMore(d.nodes, a, Path(d, p, a), d.nodes[n].key, p, n);
    }
  }

  /** A relative target round trip: the dotted path from a to its descendant n resolves,
      from a, to n. */
  lemma RelativeRoundTrip(d: Definition, n: Node, a: Node)
    requires IsTree(d) && NamesOk(d) && InTree(d, a) && IsDescendant(d, n, a)
    ensures InTree(d, n) && InSubtree(d, n, a) && Path(d, n, a) != []
    ensures Follow(d.nodes, a, Split(Join(Path(d, n, a)))) == Found(n)
  {
    DescendantAfter(d, n, a);
    PathKeys(d, n, a);
    SplitJoin(Path(d, n, a));
    FollowPath(d, n, a);
  }

  /** And nothing but a descendant is ever reached by a relative target. */
  lemma {:induction false} FollowDescends(d: Definition, cur: Node, segs: seq<string>, n: Node)
    requires IsTree(d) && InTree(d, cur) && Follow(d.nodes, cur, segs) == Found(n)
    ensures InTree(d, n) && InSubtree(d, n, cur) && (segs != [] ==> n != cur)
    ensures Path(d, n, cur) == segs
    decreases |segs|
  {
    if segs == [] {
    } else {
      var c := FindChild(d.nodes, Children(d, cur), segs[0]).value;
      FindChildMeaning(d.nodes, Children(d, cur), segs[0]);
      FollowDescends(d, c, segs[1..], n);
      if n != c { DescendantTransitive(d, n, c, cur); DescendantAfter(d, n, c); }
      PathFromAbove(d, n, c, cur);
      assert segs == [segs[0]] + segs[1..];
    }
  }

  lemma {:induction false} PathFromAbove(d: Definition, n: Node, c: Node, p: Node)
    requires IsTree(d) && InTree(d, p) && c in Children(d, p) && InTree(d, n) && InSubtree(d, n, c)
    ensures InSubtree(d, n, p) && Path(d, n, p) == [d.nodes[c].key] + Path(d, n, c)
    decreases n
  {
    if n != c {
      PathFromAbove(d, Parent(d, n).value, c, p);
      DescendantTransitive(d, n, c, p);
      DescendantAfter(d, n, p);
    } else {
      assert Path(d, p, p) == [];
    }
  }

  /** An absolute target round trip: "#" and the id of a state resolve to that state exactly
      when no other state has that id as its key. */
  lemma AbsoluteRoundTrip(d: Definition, n: Node, r: Resolved)
    requires IsTree(d) && NamesOk(d) && 0 < n < |d.nodes|
    requires MeansAbsolute(d.nodes, d.nodes[n].id, r)
    ensures r == Found(n) <==> forall m: Node | m < |d.nodes| && m != n :: d.nodes[m].key != d.nodes[n].id
    ensures r != Found(n) ==> r == Failed(Ambiguous)
  {
    var id := d.nodes[n].id;
    assert KeyOk(d.nodes[n].key) && id == ChildId(d.nodes[Parent(d, n).value].id, d.nodes[n].key);
    assert Named(d.nodes, id, n);
    forall m: Node | Named(d.nodes, id, m) && m != n ensures d.nodes[m].key == id {
      if d.nodes[m].id == id { SameIdSameNode(d, m, n); }
    }
    if r == Found(n) {
      forall m: Node | m < |d.nodes| && m != n ensures d.nodes[m].key != id {
        assert d.nodes[m].key == id ==> Named(d.nodes, id, m);
      }
    }
  }

  /** Nested states always have such an id, the machine's own name aside: it has a dot. */
  lemma NestedIdIsNoKey(d: Definition, n: Node, m: Node)
    requires IsTree(d) && NamesOk(d) && 0 < n < |d.nodes| && Parent(d, n).value != ROOT && 0 < m < |d.nodes|
    ensures d.nodes[m].key != d.nodes[n].id
  {
    var p := Parent(d, n).value;
    assert d.nodes[p].id == ChildId(d.nodes[Parent(d, p).value].id, d.nodes[p].key) && KeyOk(d.nodes[p].key);
    var id := d.nodes[p].id + "." + d.nodes[n].key;
    assert id[|d.nodes[p].id|] == '.';
    assert d.nodes[n].id == id && '.' in id;
  }

  /** A bare key resolves to the sibling of that key, and to nothing else. */
  lemma SiblingRoundTrip(d: Definition, src: Node, n: Node)
    requires IsTree(d) && NamesOk(d) && 0 < src < |d.nodes| && InTree(d, n)
    ensures Sibling(d.nodes, src, d.nodes[n].key) == Found(n) <==> Parent(d, n) == Parent(d, src)
  {
    var p := Parent(d, src).value;
    FindChildMeaning(d.nodes, Children(d, p), d.nodes[n].key);
    if Parent(d, n) == Some(p) { ChildFound(d, p, n); }
  }

  /** The root is named by the machine id, so a top-level state that has the machine id as its
      key cannot be named absolutely. */
  lemma MachineIdIsAmbiguous(d: Definition, n: Node, r: Resolved)
    requires IsTree(d) && NamesOk(d) && 0 < n < |d.nodes|
    requires d.nodes[n].id == d.nodes[ROOT].key && MeansAbsolute(d.nodes, d.nodes[n].id, r)
    ensures r == Failed(Ambiguous)
  {
    AbsoluteRoundTrip(d, n, r);
    assert d.nodes[ROOT].key == d.nodes[n].id;
  }

  function SameNameChart(): Definition
  {
    Definition("a", [
      StateNode("", "a", Compound, None, [1], Some(1), Shallow, [], [], [], [], [], 0),
      StateNode("a", "a", Atomic, Some(0), [], None, Shallow, [], [], [], [], [], 1)], 0, 0)
  }

  /** For instance a machine "a" with a state "a": the target "#a" is ambiguous. */
  lemma SameNameIsAmbiguous(r: Resolved)
    requires MeansAbsolute(SameNameChart().nodes, "a", r)
    ensures r == Failed(Ambiguous)
  {
    assert Named(SameNameChart().nodes, "a", 0) && Named(SameNameChart().nodes, "a", 1);
  }
}
