/** Entry sets (transition.go): the mutually recursive closure that turns targets into
    the set of states to enter, and the proof that it fills what it enters. */
module Entry {
  import opened Definitions
  import opened Configurations

  /** Stored history: what to restore, by history node. */
  type Hist = map<Node, seq<Node>>

  /** A nil recorded list and an absent one both fall back to the default. */
  function RestoreOf(d: Definition, hist: Hist, h: Node): seq<Node>
    requires InTree(d, h)
  {
    if h in hist && hist[h] != [] then hist[h] else d.nodes[h].historyTo
  }

  predicate Restorable(d: Definition, h: Node, x: Node)
    requires IsTree(d) && InTree(d, h)
  {
    Parent(d, h).Some? && InTree(d, x) && Kind(d, x) != History && IsDescendant(d, x, Parent(d, h).value)
  }

  /** What termination of entry needs: initial states are children, and history
      restores non-history descendants of its parent. */
  predicate EntryReady(d: Definition, hist: Hist)
    requires IsTree(d)
  {
    && (forall n: Node | n < |d.nodes| && Kind(d, n) == Compound ::
          d.nodes[n].initial.Some? ==> d.nodes[n].initial.value in Children(d, n))
    && (forall h: Node | h < |d.nodes| && Kind(d, h) == History ::
          forall x | x in RestoreOf(d, hist, h) :: Restorable(d, h, x))
  }

  // ------------------------------------------------------------------ specification functions

  function HasDescendantInSet(d: Definition, n: Node, E: set<Node>): bool
    requires IsTree(d) && InTree(d, n)
    decreases |d.nodes| - n
  {
    n in E || exists c | c in Children(d, n) :: HasDescendantInSet(d, c, E)
  }

  function AddDescendants(d: Definition, hist: Hist, s: Node, E: set<Node>): set<Node>
    requires IsTree(d) && EntryReady(d, hist) && InTree(d, s)
    decreases |d.nodes| - Depth(d, s), if Kind(d, s) == History then 3 else 1, 0
  {
    match Kind(d, s)
    case History => AddRestored(d, hist, s, RestoreOf(d, hist, s), E)
    case Compound =>
      (match d.nodes[s].initial
       case None => E + {s}
       case Some(i) => AddAncestors(d, hist, i, Some(s), AddDescendants(d, hist, i, E + {s})))
    case Parallel => AddRegions(d, hist, s, Children(d, s), E + {s})
    case _ => E + {s}
  }

  function AddRestored(d: Definition, hist: Hist, h: Node, restore: seq<Node>, E: set<Node>): set<Node>
    requires IsTree(d) && EntryReady(d, hist) && InTree(d, h) && Kind(d, h) == History
    requires forall x | x in restore :: Restorable(d, h, x)
    decreases |d.nodes| - Depth(d, h), 2, |restore|
  {
    if restore == [] then E
    else
      assert Restorable(d, h, restore[0]);
      DescendantDeeper(d, restore[0], Parent(d, h).value);
      AddRestored(d, hist, h, restore[1..],
                  AddAncestors(d, hist, restore[0], Parent(d, h), AddDescendants(d, hist, restore[0], E)))
  }

  function DepthBelow(d: Definition, anc: Option<Node>): nat
    requires IsTree(d) && (anc.Some? ==> InTree(d, anc.value))
  {
    match anc
    case None => 0
    case Some(a) => Depth(d, a) + 1
  }

  lemma BelowDeeper(d: Definition, p: Node, anc: Option<Node>)
    requires IsTree(d) && InTree(d, p)
    requires anc.Some? ==> InTree(d, anc.value) && IsDescendant(d, p, anc.value)
    ensures Depth(d, p) >= DepthBelow(d, anc)
  {
    if anc.Some? { DescendantDeeper(d, p, anc.value); }
  }

  /** Walks up from s to the node below `anc` (to the root when `anc` is nil). */
  function AddAncestors(d: Definition, hist: Hist, s: Node, anc: Option<Node>, E: set<Node>): set<Node>
    requires IsTree(d) && EntryReady(d, hist) && InTree(d, s)
    requires anc.Some? ==> InTree(d, anc.value) && IsDescendant(d, s, anc.value)
    decreases |d.nodes| - DepthBelow(d, anc), 0, s
  {
    match Parent(d, s)
    case None => E
    case Some(p) =>
      if anc == Some(p) then E
      else
        BelowDeeper(d, p, anc);
        var E1 := E + {p};
        AddAncestors(d, hist, p, anc, if Kind(d, p) == Parallel then AddRegions(d, hist, p, Children(d, p), E1) else E1)
  }

  function AddRegions(d: Definition, hist: Hist, p: Node, cs: seq<Node>, E: set<Node>): set<Node>
    requires IsTree(d) && EntryReady(d, hist) && InTree(d, p)
    requires forall c | c in cs :: c in Children(d, p)
    decreases |d.nodes| - Depth(d, p) - 1, 4, |cs|
  {
    if cs == [] then E
    else
      assert cs[0] in Children(d, p);
      AddRegions(d, hist, p, cs[1..], if HasDescendantInSet(d, cs[0], E) then E else AddDescendants(d, hist, cs[0], E))
  }

  // ------------------------------------------------------------------ stored history

  /** What a record of h consists of: the one recorded child of a shallow history's parent,
      or recorded leaves below a deep history's parent. */
  predicate StoredOk(d: Definition, h: Node, rec: seq<Node>)
    requires IsTree(d)
  {
    && InTree(d, h)
    && Kind(d, h) == History
    && rec != []
    && Restorable(d, h, rec[0])
    && (forall x | x in rec :: Restorable(d, h, x))
    && (if d.nodes[h].historyKind == Shallow then |rec| == 1 && rec[0] in Children(d, Parent(d, h).value)
        else forall x | x in rec :: IsLeaf(d, x))
  }

  ghost predicate Vacant(d: Definition, E: set<Node>, p: Node)
    requires IsTree(d)
  {
    forall n | n in E :: !IsDescendant(d, n, p)
  }

  /** What restoring the first recorded (or default) node of h enters, up to the parent of h. */
  function FirstClimb(d: Definition, hist: Hist, h: Node, E: set<Node>): set<Node>
    requires IsTree(d) && EntryReady(d, hist) && InTree(d, h) && Kind(d, h) == History && RestoreOf(d, hist, h) != []
  {
    var x := RestoreOf(d, hist, h)[0];
    assert Restorable(d, h, x);
    AddAncestors(d, hist, x, Parent(d, h), AddDescendants(d, hist, x, E))
  }

  /** Restoring the first node alone already enters all the others. */
  ghost predicate Closes(d: Definition, hist: Hist, h: Node, E: set<Node>)
    requires IsTree(d) && EntryReady(d, hist) && InTree(d, h) && Kind(d, h) == History && RestoreOf(d, hist, h) != []
  {
    forall x | x in RestoreOf(d, hist, h)[1..] :: x in FirstClimb(d, hist, h, E)
  }

  /** The record of h restores properly wherever the parent of h is untouched; with one
      recorded node it always does. */
  ghost predicate Settles(d: Definition, hist: Hist, h: Node)
    requires IsTree(d) && EntryReady(d, hist) && InTree(d, h) && Kind(d, h) == History && RestoreOf(d, hist, h) != []
    requires Parent(d, h).Some?
  {
    |RestoreOf(d, hist, h)| == 1 || forall E | Vacant(d, E, Parent(d, h).value) :: Closes(d, hist, h, E)
  }

  ghost predicate HistoryOkAt(d: Definition, hist: Hist, h: Node)
    requires IsTree(d) && EntryReady(d, hist) && h in hist
  {
    StoredOk(d, h, hist[h]) && Settles(d, hist, h)
  }

  /** Stored history restores properly for the history nodes strictly inside a. */
  ghost predicate HistoryOkUnder(d: Definition, hist: Hist, a: Node)
    requires IsTree(d) && EntryReady(d, hist)
  {
    forall h | h in hist && InTree(d, h) && Parent(d, h).Some? && IsDescendant(d, Parent(d, h).value, a) ::
      HistoryOkAt(d, hist, h)
  }

  /** The same, and for the history children of s too. */
  ghost predicate HistoryOkIn(d: Definition, hist: Hist, s: Node)
    requires IsTree(d) && EntryReady(d, hist)
  {
    forall h | h in hist && InTree(d, h) && Parent(d, h).Some? && InSubtree(d, Parent(d, h).value, s) ::
      HistoryOkAt(d, hist, h)
  }

  ghost predicate HistoryOk(d: Definition, hist: Hist)
    requires IsTree(d)
  {
    EntryReady(d, hist) && forall h | h in hist :: HistoryOkAt(d, hist, h)
  }

  /** Every record is a single node, as it is on charts where deep history has no parallel
      beside or below it. */
  ghost predicate Singles(d: Definition, hist: Hist)
    requires IsTree(d)
  {
    forall h | h in hist :: StoredOk(d, h, hist[h]) && |hist[h]| == 1
  }

  lemma SinglesReady(d: Definition, hist: Hist)
    requires WellFormed(d) && Singles(d, hist)
    ensures EntryReady(d, hist)
  {
    forall n: Node | n < |d.nodes| && Kind(d, n) == Compound && d.nodes[n].initial.Some?
      ensures d.nodes[n].initial.value in Children(d, n)
    {
      Shape(d, n);
    }
    forall h: Node, x | h < |d.nodes| && Kind(d, h) == History && x in RestoreOf(d, hist, h)
      ensures Restorable(d, h, x)
    {
      Shape(d, h);
    }
  }

  /** With single records every stored history restores properly. */
  lemma SinglesOk(d: Definition, hist: Hist)
    requires WellFormed(d) && Singles(d, hist)
    ensures HistoryOk(d, hist)
  {
    SinglesReady(d, hist);
    forall h | h in hist ensures HistoryOkAt(d, hist, h) { }
  }

  lemma HistoryOkInside(d: Definition, hist: Hist, s: Node)
    requires IsTree(d) && HistoryOk(d, hist)
    ensures HistoryOkIn(d, hist, s) && HistoryOkUnder(d, hist, s)
  {
  }

  lemma OkInIsOkUnder(d: Definition, hist: Hist, s: Node)
    requires IsTree(d) && EntryReady(d, hist) && HistoryOkIn(d, hist, s)
    ensures HistoryOkUnder(d, hist, s)
  {
  }

  /** What restores properly strictly inside a does so inside every state below a. */
  lemma OkUnderIsOkIn(d: Definition, hist: Hist, a: Node, c: Node)
    requires IsTree(d) && EntryReady(d, hist) && HistoryOkUnder(d, hist, a) && IsDescendant(d, c, a)
    ensures HistoryOkIn(d, hist, c) && HistoryOkUnder(d, hist, c)
  {
    forall h | h in hist && InTree(d, h) && Parent(d, h).Some? && InSubtree(d, Parent(d, h).value, c)
      ensures HistoryOkAt(d, hist, h)
    {
      if Parent(d, h).value != c { DescendantTransitive(d, Parent(d, h).value, c, a); }
    }
  }

  // ------------------------------------------------------------------ what entry adds

  ghost predicate Clear(d: Definition, E: set<Node>, s: Node)
    requires IsTree(d)
  {
    forall n | n in E :: !InSubtree(d, n, s)
  }

  ghost predicate AgreeIn(d: Definition, E: set<Node>, E': set<Node>, s: Node)
    requires IsTree(d)
  {
    forall n: Node | InSubtree(d, n, s) :: n in E <==> n in E'
  }

  /** E' is E with new members from the subtree of s only. */
  ghost predicate GrowsIn(d: Definition, E: set<Node>, E': set<Node>, s: Node)
    requires IsTree(d)
  {
    E <= E' && forall n | n in E' && n !in E :: InSubtree(d, n, s)
  }

  /** E' is E with new members from strictly below a only. */
  ghost predicate GrowsBelow(d: Definition, E: set<Node>, E': set<Node>, a: Node)
    requires IsTree(d)
  {
    E <= E' && forall n | n in E' && n !in E :: IsDescendant(d, n, a)
  }

  lemma {:induction false} HasDescendantMeaning(d: Definition, n: Node, E: set<Node>)
    requires IsTree(d) && InTree(d, n)
    ensures HasDescendantInSet(d, n, E) <==> !Clear(d, E, n)
    decreases |d.nodes| - n
  {
    forall c | c in Children(d, n) ensures HasDescendantInSet(d, c, E) <==> !Clear(d, E, c) {
      HasDescendantMeaning(d, c, E);
    }
    if HasDescendantInSet(d, n, E) && n !in E {
      var c :| c in Children(d, n) && HasDescendantInSet(d, c, E);
      var m :| m in E && InSubtree(d, m, c);
      assert IsDescendant(d, c, n);
      if m != c { DescendantTransitive(d, m, c, n); }
    }
    if !Clear(d, E, n) && n !in E {
      var m :| m in E && InSubtree(d, m, n);
      var c := ChildTowards(d, m, n);
      assert !Clear(d, E, c);
    }
  }

  lemma LeafHasNothingBelow(d: Definition, s: Node)
    requires IsTree(d) && InTree(d, s) && Children(d, s) == []
    ensures forall n: Node :: !IsDescendant(d, n, s)
  {
    forall n: Node | IsDescendant(d, n, s) ensures false { var _ := ChildTowards(d, n, s); }
  }

  lemma LeafFilled(d: Definition, E: set<Node>, s: Node)
    requires IsTree(d) && InTree(d, s) && Children(d, s) == [] && Kind(d, s) != Compound && Kind(d, s) != Parallel
    ensures Filled(d, E, s)
  {
    LeafHasNothingBelow(d, s);
  }

  /** A region is either filled already or still untouched. */
  ghost predicate RegionDone(d: Definition, E: set<Node>, c: Node)
    requires IsTree(d) && InTree(d, c)
  {
    c in E && Filled(d, E, c)
  }

  lemma FilledAfterGrowth(d: Definition, E: set<Node>, E': set<Node>, c: Node)
    requires IsTree(d) && InTree(d, c) && RegionDone(d, E, c) && E <= E' && AgreeIn(d, E, E', c)
    ensures RegionDone(d, E', c)
  {
    FilledLocal(d, E, E', c);
  }

  /** Entering a state whose subtree is untouched fills that subtree and nothing else. */
  lemma {:induction false} DescendantsFill(d: Definition, hist: Hist, s: Node, E: set<Node>)
    requires WellFormed(d) && EntryReady(d, hist) && HistoryOkIn(d, hist, s)
    requires InTree(d, s) && Kind(d, s) != History && Clear(d, E, s)
    ensures GrowsIn(d, E, AddDescendants(d, hist, s, E), s)
    ensures RegionDone(d, AddDescendants(d, hist, s, E), s)
    decreases |d.nodes| - Depth(d, s), 1, 0
  {
    hide WellFormed, EntryReady, HistoryOkIn, HistoryOkUnder, Filled;
    Shape(d, s);
    OkInIsOkUnder(d, hist, s);
    var E1 := E + {s};
    var E' := AddDescendants(d, hist, s, E);
    if Kind(d, s) == Compound {
      var i := d.nodes[s].initial.value;
      assert i in Children(d, s) && IsDescendant(d, i, s);
      var E2 := AddDescendants(d, hist, i, E1);
      assert Parent(d, i) == Some(s) && AddAncestors(d, hist, i, Some(s), E2) == E2;
      if Kind(d, i) == History {
        forall n | n in E1 ensures !IsDescendant(d, n, s) {
          if n == s && IsDescendant(d, s, s) { DescendantAfter(d, s, s); }
        }
        RestoreFills(d, hist, i, E1);
      } else {
        forall n | n in E1 ensures !InSubtree(d, n, i) {
          if InSubtree(d, n, i) {
            if n != i { DescendantTransitive(d, n, i, s); DescendantAfter(d, n, s); }
          }
        }
        OkUnderIsOkIn(d, hist, s, i);
        DescendantsFill(d, hist, i, E1);
        forall n | n in E2 && n !in E1 ensures IsDescendant(d, n, s) { if n != i { DescendantTransitive(d, n, i, s); } }
        forall n | n in E2 && IsDescendant(d, n, s) ensures InSubtree(d, n, i) {
          if n in E1 && n == s { DescendantAfter(d, s, s); }
        }
        FilledByOneChild(d, E2, s, i);
      }
    } else if Kind(d, s) == Parallel {
      forall c | c in Children(d, s) ensures Clear(d, E1, c) {
        assert IsDescendant(d, c, s);
        forall n | n in E1 ensures !InSubtree(d, n, c) {
          if InSubtree(d, n, c) {
            if n != c { DescendantTransitive(d, n, c, s); DescendantAfter(d, n, s); }
          }
        }
      }
      RegionsFill(d, hist, s, Children(d, s), E1);
      FilledByAllChildren(d, E', s);
    } else {
      LeafFilled(d, E', s);
    }
  }

  /** Restoring the first node of a record alone fills the untouched parent. */
  lemma {:induction false} FirstClimbFills(d: Definition, hist: Hist, h: Node, E: set<Node>)
    requires WellFormed(d) && EntryReady(d, hist)
    requires InTree(d, h) && Kind(d, h) == History && Parent(d, h).Some? && HistoryOkUnder(d, hist, Parent(d, h).value)
    requires RestoreOf(d, hist, h) != [] && Vacant(d, E, Parent(d, h).value)
    ensures GrowsBelow(d, E, FirstClimb(d, hist, h, E), Parent(d, h).value)
    ensures Filled(d, FirstClimb(d, hist, h, E), Parent(d, h).value)
    decreases |d.nodes| - Depth(d, h), 3, 0
  {
    hide WellFormed, EntryReady, HistoryOkUnder, Filled;
    Shape(d, h);
    var p := Parent(d, h).value;
    FirstClimbIs(d, hist, h, E);
    var x := RestoreOf(d, hist, h)[0];
    DescendantDeeper(d, x, p);
    OkUnderIsOkIn(d, hist, p, x);
    forall n | n in E ensures !InSubtree(d, n, x) {
      if n != x && IsDescendant(d, n, x) { DescendantTransitive(d, n, x, p); }
    }
    DescendantsFill(d, hist, x, E);
    var E1 := AddDescendants(d, hist, x, E);
    forall n | n in E1 && IsDescendant(d, n, p) ensures InSubtree(d, n, x) { }
    ClimbFills(d, hist, x, p, E1);
    var E2 := FirstClimb(d, hist, h, E);
    forall n | n in E2 && n !in E ensures IsDescendant(d, n, p) {
      if n in E1 && n != x { DescendantTransitive(d, n, x, p); }
    }
  }

  /** Restoring history that settles is that first climb, and fills the parent. */
  lemma {:induction false} RestoreFills(d: Definition, hist: Hist, h: Node, E: set<Node>)
    requires WellFormed(d) && EntryReady(d, hist)
    requires InTree(d, h) && Kind(d, h) == History && Parent(d, h).Some? && HistoryOkIn(d, hist, Parent(d, h).value)
    requires Vacant(d, E, Parent(d, h).value)
    ensures GrowsBelow(d, E, AddDescendants(d, hist, h, E), Parent(d, h).value)
    ensures Filled(d, AddDescendants(d, hist, h, E), Parent(d, h).value)
    ensures RestoreOf(d, hist, h) != [] && AddDescendants(d, hist, h, E) == FirstClimb(d, hist, h, E)
    decreases |d.nodes| - Depth(d, h), 4, 0
  {
    RestoreKnown(d, hist, h);
    OkInIsOkUnder(d, hist, Parent(d, h).value);
    FirstClimbFills(d, hist, h, E);
    RestoreIsFirstClimb(d, hist, h, E);
  }

  lemma FirstClimbIs(d: Definition, hist: Hist, h: Node, E: set<Node>)
    requires IsTree(d) && EntryReady(d, hist) && InTree(d, h) && Kind(d, h) == History && RestoreOf(d, hist, h) != []
    ensures var x := RestoreOf(d, hist, h)[0];
            Restorable(d, h, x) && FirstClimb(d, hist, h, E)
              == AddAncestors(d, hist, x, Parent(d, h), AddDescendants(d, hist, x, E))
  {
    assert RestoreOf(d, hist, h)[0] in RestoreOf(d, hist, h);
  }

  /** What is known of the nodes that h restores. */
  lemma RestoreKnown(d: Definition, hist: Hist, h: Node)
    requires WellFormed(d) && EntryReady(d, hist) && InTree(d, h) && Kind(d, h) == History && Parent(d, h).Some?
    requires HistoryOkIn(d, hist, Parent(d, h).value)
    ensures var rec := RestoreOf(d, hist, h);
            rec != [] && (forall x | x in rec :: Restorable(d, h, x)) && Settles(d, hist, h)
    ensures |RestoreOf(d, hist, h)| > 1 ==> forall x | x in RestoreOf(d, hist, h) :: IsLeaf(d, x)
  {
    Shape(d, h);
    if h in hist { assert HistoryOkAt(d, hist, h); }
  }

  /** When the first climb fills the parent and holds all recorded leaves, restoring is that climb. */
  lemma RestoreIsFirstClimb(d: Definition, hist: Hist, h: Node, E: set<Node>)
    requires WellFormed(d) && EntryReady(d, hist) && InTree(d, h) && Kind(d, h) == History && Parent(d, h).Some?
    requires RestoreOf(d, hist, h) != [] && (|RestoreOf(d, hist, h)| == 1 || Closes(d, hist, h, E))
    requires |RestoreOf(d, hist, h)| > 1 ==> forall x | x in RestoreOf(d, hist, h) :: IsLeaf(d, x)
    requires Filled(d, FirstClimb(d, hist, h, E), Parent(d, h).value)
    ensures AddDescendants(d, hist, h, E) == FirstClimb(d, hist, h, E)
  {
    var rec := RestoreOf(d, hist, h);
    FirstClimbIs(d, hist, h, E);
    assert rec[0] in rec && forall x | x in rec[1..] :: x in rec;
    assert AddDescendants(d, hist, h, E) == AddRestored(d, hist, h, rec[1..], FirstClimb(d, hist, h, E));
    RestNoop(d, hist, h, rec[1..], FirstClimb(d, hist, h, E));
  }

  /** Restoring leaves that are there already changes nothing under a filled parent. */
  lemma {:induction false} RestNoop(d: Definition, hist: Hist, h: Node, rest: seq<Node>, E: set<Node>)
    requires WellFormed(d) && EntryReady(d, hist) && InTree(d, h) && Kind(d, h) == History && Parent(d, h).Some?
    requires forall x | x in rest :: Restorable(d, h, x) && IsLeaf(d, x) && x in E
    requires Filled(d, E, Parent(d, h).value)
    ensures AddRestored(d, hist, h, rest, E) == E
    decreases |rest|
  {
    if rest == [] {
    } else {
      var x := rest[0];
      assert Restorable(d, h, x) && IsLeaf(d, x);
      assert AddDescendants(d, hist, x, E) == E + {x} == E;
      ClimbNoop(d, hist, x, Parent(d, h).value, E);
      RestNoop(d, hist, h, rest[1..], E);
    }
  }

  /** Climbing inside a filled state adds nothing. */
  lemma {:induction false} ClimbNoop(d: Definition, hist: Hist, c: Node, a: Node, E: set<Node>)
    requires WellFormed(d) && EntryReady(d, hist) && InTree(d, a) && Filled(d, E, a) && c in E && IsDescendant(d, c, a)
    ensures AddAncestors(d, hist, c, Some(a), E) == E
    decreases c
  {
    var p := Parent(d, c).value;
    if p == a {
    } else {
      assert Belongs(d, E, a, c);
      assert IsDescendant(d, p, a) && Belongs(d, E, a, p);
      assert E + {p} == E;
      DescendantAfter(d, c, a);
      if Kind(d, p) == Parallel { RegionsNoop(d, hist, p, Children(d, p), E); }
      ClimbNoop(d, hist, p, a, E);
    }
  }

  lemma {:induction false} RegionsNoop(d: Definition, hist: Hist, p: Node, cs: seq<Node>, E: set<Node>)
    requires IsTree(d) && EntryReady(d, hist) && InTree(d, p) && forall c | c in cs :: c in Children(d, p) && c in E
    ensures AddRegions(d, hist, p, cs, E) == E
    decreases |cs|
  {
    if cs == [] {
    } else {
      assert cs[0] in Children(d, p) && HasDescendantInSet(d, cs[0], E);
      RegionsNoop(d, hist, p, cs[1..], E);
    }
  }

  /** Entering the regions of a parallel fills those that were untouched and leaves the
      others as they were. */
  lemma {:induction false} RegionsFill(d: Definition, hist: Hist, p: Node, cs: seq<Node>, E: set<Node>)
    requires WellFormed(d) && EntryReady(d, hist) && HistoryOkUnder(d, hist, p)
    requires InTree(d, p) && Kind(d, p) == Parallel
    requires forall c | c in cs :: c in Children(d, p)
    requires forall c | c in Children(d, p) :: RegionDone(d, E, c) || (c in cs && Clear(d, E, c))
    ensures GrowsBelow(d, E, AddRegions(d, hist, p, cs, E), p)
    ensures forall c | c in Children(d, p) :: Kind(d, c) != History && RegionDone(d, AddRegions(d, hist, p, cs, E), c)
    ensures forall c | c in Children(d, p) && c in E :: AgreeIn(d, E, AddRegions(d, hist, p, cs, E), c)
    decreases |d.nodes| - Depth(d, p) - 1, 4, |cs|
  {
    hide WellFormed, EntryReady, HistoryOkIn, HistoryOkUnder, Filled;
    Shape(d, p);
    if cs == [] {
    } else {
      var c0 := cs[0];
      assert c0 in Children(d, p) && IsDescendant(d, c0, p);
      HasDescendantMeaning(d, c0, E);
      OkUnderIsOkIn(d, hist, p, c0);
      var E1 := if HasDescendantInSet(d, c0, E) then E else AddDescendants(d, hist, c0, E);
      if !HasDescendantInSet(d, c0, E) { DescendantsFill(d, hist, c0, E); }
      assert RegionDone(d, E1, c0);
      forall n | n in E1 && n !in E ensures IsDescendant(d, n, p) && InSubtree(d, n, c0) {
        if n != c0 { DescendantTransitive(d, n, c0, p); }
      }
      forall c | c in Children(d, p) && c != c0
        ensures AgreeIn(d, E, E1, c)
        ensures RegionDone(d, E1, c) || (c in cs[1..] && Clear(d, E1, c))
      {
        forall n: Node | InSubtree(d, n, c) ensures n in E <==> n in E1 {
          if n in E1 && n !in E { ChildrenDisjoint(d, p, c0, c, n); }
        }
        if RegionDone(d, E, c) { FilledAfterGrowth(d, E, E1, c); }
      }
      RegionsFill(d, hist, p, cs[1..], E1);
    }
  }

  /** What one step of a climb adds: the parent and, if that is a parallel, its other regions. */
  function StepUp(d: Definition, hist: Hist, p: Node, E: set<Node>): set<Node>
    requires IsTree(d) && EntryReady(d, hist) && InTree(d, p)
  {
    if Kind(d, p) == Parallel then AddRegions(d, hist, p, Children(d, p), E + {p}) else E + {p}
  }

  /** One step up from a filled state leaves the parent filled and occupied alone. */
  lemma {:induction false} ClimbStep(d: Definition, hist: Hist, c: Node, p: Node, a: Node, E: set<Node>)
    requires WellFormed(d) && EntryReady(d, hist) && HistoryOkUnder(d, hist, a)
    requires InTree(d, c) && InTree(d, a) && Parent(d, c) == Some(p) && IsDescendant(d, p, a)
    requires Kind(d, c) != History && RegionDone(d, E, c)
    requires forall n | n in E && IsDescendant(d, n, a) :: InSubtree(d, n, c)
    ensures InTree(d, p) && Kind(d, p) != History && RegionDone(d, StepUp(d, hist, p, E), p)
    ensures forall n | n in StepUp(d, hist, p, E) && IsDescendant(d, n, a) :: InSubtree(d, n, p)
    ensures GrowsBelow(d, E, StepUp(d, hist, p, E), a)
    ensures AgreeIn(d, E, StepUp(d, hist, p, E), c)
    decreases |d.nodes| - Depth(d, p) - 1, 5, 0
  {
    hide WellFormed, EntryReady, HistoryOkIn, HistoryOkUnder, Filled;
    Shape(d, p);
    DescendantDeeper(d, p, a);
    OkUnderIsOkIn(d, hist, a, p);
    var E1, E2 := E + {p}, StepUp(d, hist, p, E);
    ClimbOne(d, hist, c, p, a, E);
    if Kind(d, p) == Parallel {
      RegionsFill(d, hist, p, Children(d, p), E1);
      FilledByAllChildren(d, E2, p);
    } else {
      FilledByOneChild(d, E1, p, c);
    }
    forall n | n in E2 && IsDescendant(d, n, a) ensures InSubtree(d, n, p) {
      if n in E { if n != c { DescendantTransitive(d, n, c, p); } }
    }
    forall n | n in E2 && n !in E ensures IsDescendant(d, n, a) {
      if n != p { DescendantTransitive(d, n, p, a); }
    }
    OutsideItself(d, c, p);
  }

  lemma OutsideItself(d: Definition, c: Node, p: Node)
    requires IsTree(d) && IsDescendant(d, c, p)
    ensures !InSubtree(d, p, c)
  {
    DescendantAfter(d, c, p);
    if IsDescendant(d, p, c) { DescendantAfter(d, p, c); }
  }

  /** Climbing from a filled state to a compound ancestor fills everything on the way,
      and changes nothing in the subtree it started from. */
  lemma {:induction false} ClimbFills(d: Definition, hist: Hist, c: Node, a: Node, E: set<Node>)
    requires WellFormed(d) && EntryReady(d, hist) && HistoryOkUnder(d, hist, a)
    requires InTree(d, c) && InTree(d, a) && IsDescendant(d, c, a) && Kind(d, a) == Compound
    requires Kind(d, c) != History && RegionDone(d, E, c)
    requires forall n | n in E && IsDescendant(d, n, a) :: InSubtree(d, n, c)
    ensures GrowsBelow(d, E, AddAncestors(d, hist, c, Some(a), E), a)
    ensures Filled(d, AddAncestors(d, hist, c, Some(a), E), a)
    ensures AgreeIn(d, E, AddAncestors(d, hist, c, Some(a), E), c)
    decreases |d.nodes| - Depth(d, a) - 1, 0, c
  {
    hide WellFormed, EntryReady, HistoryOkUnder, Filled;
    Shape(d, Parent(d, c).value);
    var p := Parent(d, c).value;
    if p == a {
      FilledByOneChild(d, E, a, c);
    } else {
      DescendantDeeper(d, p, a);
      ClimbStep(d, hist, c, p, a, E);
      var E2 := StepUp(d, hist, p, E);
      ClimbFills(d, hist, p, a, E2);
      var E3 := AddAncestors(d, hist, p, Some(a), E2);
      forall n: Node | InSubtree(d, n, c) ensures n in E <==> n in E3 {
        if n != c { DescendantTransitive(d, n, c, p); }
        assert InSubtree(d, n, p);
        assert AgreeIn(d, E2, E3, p);
      }
    }
  }

  /** One step of the climb: under p only the subtree of c is occupied. */
  lemma ClimbOne(d: Definition, hist: Hist, c: Node, p: Node, a: Node, E: set<Node>)
    requires WellFormed(d) && InTree(d, c) && Parent(d, c) == Some(p) && IsDescendant(d, p, a)
    requires RegionDone(d, E, c)
    requires forall n | n in E && IsDescendant(d, n, a) :: InSubtree(d, n, c)
    ensures RegionDone(d, E + {p}, c)
    ensures forall n | n in E + {p} && IsDescendant(d, n, p) :: InSubtree(d, n, c)
    ensures forall o | o in Children(d, p) && o != c :: Clear(d, E + {p}, o)
  {
    var E1 := E + {p};
    assert IsDescendant(d, c, p);
    forall n | n in E1 && IsDescendant(d, n, p) ensures InSubtree(d, n, c) {
      DescendantAfter(d, n, p);
      DescendantTransitive(d, n, p, a);
    }
    forall n: Node | InSubtree(d, n, c) ensures n in E <==> n in E1 {
      if n == p { if n == c { DescendantAfter(d, c, p); } else { DescendantAfter(d, n, c); DescendantAfter(d, c, p); } }
    }
    FilledAfterGrowth(d, E, E1, c);
    forall o, n | o in Children(d, p) && o != c && n in E1 && InSubtree(d, n, o) ensures false {
      assert IsDescendant(d, o, p);
      if n != o { DescendantTransitive(d, n, o, p); }
      ChildrenDisjoint(d, p, o, c, n);
    }
  }

  /** Entering one target inside an untouched compound domain fills the domain. */
  lemma TargetFills(d: Definition, hist: Hist, g: Node, a: Node, E: set<Node>)
    requires WellFormed(d) && EntryReady(d, hist) && HistoryOkIn(d, hist, a)
    requires InTree(d, g) && InTree(d, a) && IsDescendant(d, g, a) && Kind(d, a) == Compound
    requires forall n | n in E :: !IsDescendant(d, n, a)
    ensures GrowsBelow(d, E, AddAncestors(d, hist, g, Some(a), AddDescendants(d, hist, g, E)), a)
    ensures Filled(d, AddAncestors(d, hist, g, Some(a), AddDescendants(d, hist, g, E)), a)
    ensures Kind(d, g) != History ==>
              var E1 := AddDescendants(d, hist, g, E);
              AgreeIn(d, E1, AddAncestors(d, hist, g, Some(a), E1), g)
    ensures Kind(d, g) == History ==>
              var E1 := AddDescendants(d, hist, g, E);
              forall n: Node | Parent(d, g).Some? && IsDescendant(d, n, Parent(d, g).value) ::
                n in E1 <==> n in AddAncestors(d, hist, g, Some(a), E1)
  {
    hide WellFormed, EntryReady, HistoryOkIn, HistoryOkUnder, Filled;
    Shape(d, g);
    OkInIsOkUnder(d, hist, a);
    var E1 := AddDescendants(d, hist, g, E);
    var E2 := AddAncestors(d, hist, g, Some(a), E1);
    if Kind(d, g) == History {
      var p := Parent(d, g).value;
      forall n | n in E ensures !IsDescendant(d, n, p) {
        if p != a && IsDescendant(d, n, p) { DescendantTransitive(d, n, p, a); }
      }
      if p != a { OkUnderIsOkIn(d, hist, a, p); }
      RestoreFills(d, hist, g, E);
      if p != a {
        var E1p := E1 + {p};
        forall n: Node | IsDescendant(d, n, p) ensures n in E1 <==> n in E1p { DescendantAfter(d, n, p); }
        FilledLocal(d, E1, E1p, p);
        ClimbFills(d, hist, p, a, E1p);
        forall n | n in E2 && n !in E ensures IsDescendant(d, n, a) {
          if n in E1 { DescendantTransitive(d, n, p, a); }
        }
      }
    } else {
      forall n | n in E ensures !InSubtree(d, n, g) {
        if n != g && IsDescendant(d, n, g) { DescendantTransitive(d, n, g, a); }
      }
      OkUnderIsOkIn(d, hist, a, g);
      DescendantsFill(d, hist, g, E);
      ClimbFills(d, hist, g, a, E1);
      forall n | n in E2 && n !in E ensures IsDescendant(d, n, a) {
        if n in E1 && n != g { DescendantTransitive(d, n, g, a); }
      }
    }
  }

  // ------------------------------------------------------------------ the code that fills the sets in place

  /** transition.go: hasDescendantInSet. */
  method SearchDescendantInSet(d: Definition, n: Node, E: NodeSet) returns (found: bool)
    requires IsTree(d) && InTree(d, n)
    ensures found == HasDescendantInSet(d, n, E.members)
    decreases |d.nodes| - n
  {
    if n in E.members { return true; }
    var cs := Children(d, n);
    for i := 0 to |cs|
      invariant forall j | 0 <= j < i :: cs[j] in Children(d, n) && !HasDescendantInSet(d, cs[j], E.members)
    {
      assert cs[i] in cs;
      var below := SearchDescendantInSet(d, cs[i], E);
      if below { return true; }
    }
    return false;
  }

  /** transition.go: addDescendantStatesToEnter. */
  method EnterDescendants(d: Definition, hist: Hist, s: Node, toEnter: NodeSet)
    requires IsTree(d) && EntryReady(d, hist) && InTree(d, s)
    modifies toEnter
    ensures toEnter.members == AddDescendants(d, hist, s, old(toEnter.members))
    decreases |d.nodes| - Depth(d, s), if Kind(d, s) == History then 3 else 1, 0
  {
    if Kind(d, s) == History {
      var restore := RestoreOf(d, hist, s);
      for i := 0 to |restore|
        invariant AddDescendants(d, hist, s, old(toEnter.members))
                  == AddRestored(d, hist, s, restore[i..], toEnter.members)
      {
        assert restore[i] in restore && restore[i..][1..] == restore[i + 1..];
        assert Restorable(d, s, restore[i]);
        DescendantDeeper(d, restore[i], Parent(d, s).value);
        EnterDescendants(d, hist, restore[i], toEnter);
        EnterAncestors(d, hist, restore[i], Parent(d, s), toEnter);
      }
      return;
    }
    toEnter.Add(s);
    if Kind(d, s) == Compound {
      if d.nodes[s].initial.Some? {
        var i := d.nodes[s].initial.value;
        assert i in Children(d, s);
        EnterDescendants(d, hist, i, toEnter);
        EnterAncestors(d, hist, i, Some(s), toEnter);
      }
    } else if Kind(d, s) == Parallel {
      EnterRegions(d, hist, s, toEnter);
    }
  }

  /** The loop over a parallel's children, shared by both entry functions. */
  method EnterRegions(d: Definition, hist: Hist, p: Node, toEnter: NodeSet)
    requires IsTree(d) && EntryReady(d, hist) && InTree(d, p)
    modifies toEnter
    ensures toEnter.members == AddRegions(d, hist, p, Children(d, p), old(toEnter.members))
    decreases |d.nodes| - Depth(d, p) - 1, 4, |Children(d, p)| + 1
  {
    var cs := Children(d, p);
    for i := 0 to |cs|
      invariant AddRegions(d, hist, p, cs, old(toEnter.members)) == AddRegions(d, hist, p, cs[i..], toEnter.members)
    {
      assert cs[i] in cs && cs[i..][1..] == cs[i + 1..];
      var occupied := SearchDescendantInSet(d, cs[i], toEnter);
      if !occupied { EnterDescendants(d, hist, cs[i], toEnter); }
    }
  }

  /** transition.go: addAncestorStatesToEnter. */
  method EnterAncestors(d: Definition, hist: Hist, s: Node, anc: Option<Node>, toEnter: NodeSet)
    requires IsTree(d) && EntryReady(d, hist) && InTree(d, s)
    requires anc.Some? ==> InTree(d, anc.value) && IsDescendant(d, s, anc.value)
    modifies toEnter
    ensures toEnter.members == AddAncestors(d, hist, s, anc, old(toEnter.members))
    decreases |d.nodes| - DepthBelow(d, anc), 0, s
  {
    var cur := s;
    while Parent(d, cur).Some? && Parent(d, cur) != anc
      invariant InTree(d, cur)
      invariant anc.Some? ==> IsDescendant(d, cur, anc.value)
      invariant AddAncestors(d, hist, s, anc, old(toEnter.members)) == AddAncestors(d, hist, cur, anc, toEnter.members)
      decreases cur
    {
      var p := Parent(d, cur).value;
      toEnter.Add(p);
      BelowDeeper(d, p, anc);
      if Kind(d, p) == Parallel { EnterRegions(d, hist, p, toEnter); }
      cur := p;
    }
  }
}
