/** Highlighting the active states of a diagram (diagram/render.go: activeSet).  A published
    snapshot holds the ids of the active leaves only; from them the renderer recovers the
    whole configuration. */
module Render {
  import opened Definitions
  import opened Configurations
  import opened Staging

  /** The id index of a definition, as NewDefinition builds it for a loaded chart. */
  ghost predicate IndexOk(d: Definition, index: map<string, Node>)
  {
    && (forall n: Node | n < |d.nodes| :: d.nodes[n].id in index && index[d.nodes[n].id] == n)
    && (forall id | id in index :: InTree(d, index[id]) && d.nodes[index[id]].id == id)
  }

  ghost predicate AncestorId(d: Definition, n: Node, id: string)
    requires IsTree(d)
  {
    exists a: Node :: InTree(d, a) && IsDescendant(d, n, a) && d.nodes[a].id == id
  }

  /** The id comes from one of the leaves: as it is, or as that of an ancestor. */
  ghost predicate FromLeaf(d: Definition, index: map<string, Node>, leaf: string, id: string)
    requires IsTree(d)
  {
    id == leaf || (leaf in index && InTree(d, index[leaf]) && AncestorId(d, index[leaf], id))
  }

  /** diagram/render.go: activeSet. */
  method ActiveSet(d: Definition, index: map<string, Node>, leaves: seq<string>) returns (active: set<string>)
    requires IsTree(d) && forall id | id in index :: InTree(d, index[id])
    ensures forall id :: id in active <==> exists i :: 0 <= i < |leaves| && FromLeaf(d, index, leaves[i], id)
  {
    active := {};
    hide FromLeaf, IsTree;
    for i := 0 to |leaves|
      invariant forall id :: id in active <==> exists j :: 0 <= j < i && FromLeaf(d, index, leaves[j], id)
    {
      var above := OneLeaf(d, index, leaves[i]);
      active := active + above;
    }
  }

  /** The body of the loop. */
  method OneLeaf(d: Definition, index: map<string, Node>, leaf: string) returns (active: set<string>)
    requires IsTree(d) && forall id | id in index :: InTree(d, index[id])
    ensures forall id :: id in active <==> FromLeaf(d, index, leaf, id)
  {
    active := {leaf};
    if leaf !in index { return; }
    var ancestors := CollectAncestors(d, index[leaf]);
    forall a | a in ancestors ensures InTree(d, a) { AncestorInTree(d, index[leaf], a); }
    assert forall a: Node :: InTree(d, a) && IsDescendant(d, index[leaf], a) ==> a in ancestors;
    hide IsTree, IsDescendant;
    for j := 0 to |ancestors|
      invariant forall id :: id in active <==> id == leaf || exists k :: 0 <= k < j && HasId(d, ancestors[k], id)
    {
      assert ancestors[j] in ancestors;
      active := active + {d.nodes[ancestors[j]].id};
    }
    forall id ensures id in active <==> FromLeaf(d, index, leaf, id) {
      if k :| 0 <= k < |ancestors| && HasId(d, ancestors[k], id) {
        assert ancestors[k] in ancestors;
      }
      if AncestorId(d, index[leaf], id) {
        var a: Node :| InTree(d, a) && IsDescendant(d, index[leaf], a) && d.nodes[a].id == id;
        assert a in ancestors && HasId(d, a, id);
      }
    }
  }

  predicate HasId(d: Definition, n: Node, id: string) { InTree(d, n) && d.nodes[n].id == id }

  lemma AncestorInTree(d: Definition, n: Node, a: Node)
    requires IsTree(d) && IsDescendant(d, n, a)
    ensures InTree(d, a)
  {
    DescendantDeeper(d, n, a);
  }

  lemma {:induction false} IdsMembers(d: Definition, q: seq<Node>, id: string)
    ensures id in Ids(d, q) <==> exists n: Node :: n in q && InTree(d, n) && d.nodes[n].id == id
    decreases |q|
  {
    if q == [] {
    } else {
      IdsMembers(d, q[1..], id);
      assert forall n: Node :: n in q <==> n == q[0] || n in q[1..];
    }
  }

  /** The renderer's view of the leaf ids of cfg. */
  ghost predicate Highlighted(d: Definition, cfg: set<Node>, index: map<string, Node>, id: string)
    requires IsTree(d)
  {
    var leaves := Ids(d, Leaves(d, cfg));
    exists i :: 0 <= i < |leaves| && FromLeaf(d, index, leaves[i], id)
  }

  /** The leaf ids of a legal configuration encode it without loss: what activeSet computes
      from them is exactly the ids of all active nodes. */
  lemma ActiveSetIsTheConfiguration(d: Definition, cfg: set<Node>, index: map<string, Node>, id: string)
    requires WellFormed(d) && Legal(d, cfg) && IndexOk(d, index)
    ensures Highlighted(d, cfg, index, id) <==> exists n: Node :: n in cfg && HasId(d, n, id)
  {
    LegalIsClosureOfLeaves(d, cfg);
    LeavesAre(d, cfg);
    assert IsTree(d);
    if Highlighted(d, cfg, index, id) { HighlightedActive(d, cfg, index, id); }
    if n: Node :| n in cfg && HasId(d, n, id) { ActiveHighlighted(d, cfg, index, n); }
  }

  lemma HighlightedActive(d: Definition, cfg: set<Node>, index: map<string, Node>, id: string)
    requires IsTree(d) && IndexOk(d, index) && Highlighted(d, cfg, index, id)
    requires forall n: Node | AboveLeaf(d, cfg, n) :: n in cfg
    ensures exists n: Node :: n in cfg && HasId(d, n, id)
  {
    hide IsTree, Leaves, IsDescendant, Ids;
    var leaves := Ids(d, Leaves(d, cfg));
    var i :| 0 <= i < |leaves| && FromLeaf(d, index, leaves[i], id);
    var n := LeafNode(d, cfg, leaves[i]);
    assert AboveLeaf(d, cfg, n) && HasId(d, n, leaves[i]);
    if id != leaves[i] {
      var a: Node :| InTree(d, a) && IsDescendant(d, n, a) && d.nodes[a].id == id;
      assert AboveLeaf(d, cfg, a) && HasId(d, a, id);
    }
  }

  lemma ActiveHighlighted(d: Definition, cfg: set<Node>, index: map<string, Node>, n: Node)
    requires IsTree(d) && IndexOk(d, index) && InTree(d, n) && AboveLeaf(d, cfg, n)
    requires forall leaf | leaf in Leaves(d, cfg) :: InTree(d, leaf)
    ensures Highlighted(d, cfg, index, d.nodes[n].id)
  {
    hide IsTree, Leaves, IsDescendant, Ids;
    var leaves := Ids(d, Leaves(d, cfg));
    var leaf :| leaf in Leaves(d, cfg) && InSubtree(d, leaf, n);
    IdsMembers(d, Leaves(d, cfg), d.nodes[leaf].id);
    var i :| 0 <= i < |leaves| && leaves[i] == d.nodes[leaf].id;
    assert index[leaves[i]] == leaf;
    assert leaf != n ==> AncestorId(d, leaf, d.nodes[n].id);
    assert FromLeaf(d, index, leaves[i], d.nodes[n].id);
  }

  lemma LeafNode(d: Definition, cfg: set<Node>, id: string) returns (n: Node)
    requires IsTree(d) && id in Ids(d, Leaves(d, cfg))
    ensures n in Leaves(d, cfg) && InTree(d, n) && d.nodes[n].id == id && InSubtree(d, n, n)
  {
    IdsMembers(d, Leaves(d, cfg), id);
    n :| n in Leaves(d, cfg) && InTree(d, n) && d.nodes[n].id == id;
  }
}
