/** Entry never enters too little, whatever is stored in the history (transition.go): every
    node it adds has at least the active children that it demands, given the part K of the
    configuration that is kept. */
module Coverage {
  import opened Definitions
  import opened Configurations
  import opened Entry
  import opened Growth

  predicate HasParentIn(d: Definition, E: set<Node>, n: Node)
  {
    InTree(d, n) && Parent(d, n).Some? && Parent(d, n).value in E
  }

  /** n is none of those below the top, or it hangs from the top or from a member of E or K. */
  predicate HangsIn(d: Definition, E: set<Node>, K: set<Node>, top: Option<Node>, n: Node)
    requires IsTree(d)
  {
    (top.Some? ==> IsDescendant(d, n, top.value)) ==>
      InTree(d, n) && (Parent(d, n) == top || HasParentIn(d, E + K, n))
  }

  /** What lies below the top in E hangs from it. */
  ghost predicate Hung(d: Definition, E: set<Node>, K: set<Node>, top: Option<Node>)
    requires IsTree(d)
  {
    forall n | n in E :: HangsIn(d, E, K, top, n)
  }

  /** The same, save for the node s. */
  ghost predicate HungBut(d: Definition, E: set<Node>, K: set<Node>, top: Option<Node>, s: Node)
    requires IsTree(d)
  {
    forall n | n in E && n != s :: HangsIn(d, E, K, top, n)
  }

  predicate Under(d: Definition, c: Node, top: Option<Node>)
    requires IsTree(d)
  {
    InTree(d, c) && (top.Some? ==> InTree(d, top.value) && IsDescendant(d, c, top.value))
  }

  lemma HungDown(d: Definition, E: set<Node>, K: set<Node>, top: Option<Node>, c: Node)
    requires IsTree(d) && Hung(d, E, K, top) && Under(d, c, top)
    ensures Hung(d, E, K, Some(c))
  {
    forall n | n in E ensures HangsIn(d, E, K, Some(c), n) {
      if IsDescendant(d, n, c) {
        assert HangsIn(d, E, K, top, n);
        if top.Some? {
          DescendantTransitive(d, n, c, top.value);
          if Parent(d, n) == top { OutsideItself(d, c, top.value); }
        }
      }
    }
  }

  /** Between a node of E or K and the top it hangs from, all ancestors are in E or K. */
  lemma {:induction false} HungUpward(d: Definition, E: set<Node>, K: set<Node>, a: Node, l: Node, n: Node)
    requires IsTree(d) && Hung(d, E, K, Some(a)) && Rooted(d, K)
    requires l in E + K && IsDescendant(d, l, a) && IsDescendant(d, n, a) && InSubtree(d, l, n)
    ensures n in E + K
    decreases l
  {
    if l == n {
    } else {
      assert l in E ==> HangsIn(d, E, K, Some(a), l);
      var q := Parent(d, l).value;
      if q == a { OutsideItself(d, n, a); }
      if q != n { HungUpward(d, E, K, a, q, n); }
    }
  }

  /** The new members of R have what they demand. */
  ghost predicate NewCovered(d: Definition, E: set<Node>, R: set<Node>, K: set<Node>)
  {
    forall n | n in R && n !in E :: InTree(d, n) && NodeCovered(d, R + K, n)
  }

  lemma CoveredMore(d: Definition, E: set<Node>, R: set<Node>, n: Node)
    requires InTree(d, n) && NodeCovered(d, E, n) && E <= R
    ensures NodeCovered(d, R, n)
  {
  }

  lemma CoveredTwice(d: Definition, E: set<Node>, F: set<Node>, R: set<Node>, K: set<Node>)
    requires NewCovered(d, E, F, K) && NewCovered(d, F, R, K) && F <= R
    ensures NewCovered(d, E, R, K)
  {
    hide NodeCovered;
    forall n | n in R && n !in E ensures InTree(d, n) && NodeCovered(d, R + K, n) {
      if n in F { CoveredMore(d, F + K, R + K, n); }
    }
  }

  lemma NothingNew(d: Definition, E: set<Node>, K: set<Node>)
    ensures NewCovered(d, E, E, K)
  {
  }

  lemma OneCovered(d: Definition, E: set<Node>, R: set<Node>, K: set<Node>, s: Node)
    requires NewCovered(d, E + {s}, R, K) && InTree(d, s) && NodeCovered(d, R + K, s)
    ensures NewCovered(d, E, R, K)
  {
  }

  /** Adding the top itself keeps what lies below it hung. */
  lemma HungWith(d: Definition, E: set<Node>, K: set<Node>, s: Node)
    requires IsTree(d) && InTree(d, s) && Hung(d, E, K, Some(s))
    ensures Hung(d, E + {s}, K, Some(s))
  {
    forall n | n in E + {s} ensures HangsIn(d, E + {s}, K, Some(s), n) {
      if n in E { assert HangsIn(d, E, K, Some(s), n); } else if IsDescendant(d, s, s) { DescendantAfter(d, s, s); }
    }
  }

  lemma GrownMore(d: Definition, E: set<Node>, R: set<Node>, a: Option<Node>)
    requires IsTree(d) && Grown(d, E, R, a)
    ensures E <= R
  {
  }

  /** What grows in the subtree of s hangs from s, or from the parent of s if it is s. */
  lemma GrownHung(d: Definition, E: set<Node>, R: set<Node>, K: set<Node>, s: Node)
    requires IsTree(d) && InTree(d, s) && Hung(d, E, K, Some(s)) && Grown(d, E, R, Parent(d, s)) && E <= R
    requires forall n | n in R && n !in E :: InSubtree(d, n, s)
    ensures Hung(d, R, K, Some(s))
    ensures forall n | n in R && n !in E && n != s :: IsDescendant(d, n, s) && HasParentIn(d, R, n)
  {
    hide Grown, IsTree;
    forall n | n in R && n !in E && n != s ensures IsDescendant(d, n, s) && HasParentIn(d, R, n) {
      NewHangs(d, E, R, s, n);
    }
    forall n | n in R ensures HangsIn(d, R, K, Some(s), n) {
      if n in E {
        assert HangsIn(d, E, K, Some(s), n);
      } else if n == s {
        if IsDescendant(d, s, s) { DescendantAfter(d, s, s); }
      }
    }
  }

  lemma NewHangs(d: Definition, E: set<Node>, R: set<Node>, s: Node, n: Node)
    requires IsTree(d) && InTree(d, s) && Grown(d, E, R, Parent(d, s)) && n in R && n !in E && IsDescendant(d, n, s)
    ensures HasParentIn(d, R, n)
  {
    assert Hangs(d, R, Parent(d, s), n);
    var q := Parent(d, n).value;
    assert InSubtree(d, q, s);
    if Parent(d, s) == Some(q) { OutsideItself(d, s, q); }
  }

  /** What grows from a member of E, of K or of the top hangs as well. */
  lemma GrownHangs(d: Definition, E: set<Node>, R: set<Node>, K: set<Node>, p: Node, top: Option<Node>)
    requires IsTree(d) && Hung(d, E, K, top) && Grown(d, E, R, Some(p)) && (p in R + K || top == Some(p))
    ensures Hung(d, R, K, top)
  {
    forall n | n in R ensures HangsIn(d, R, K, top, n) {
      if n in E { assert HangsIn(d, E, K, top, n); } else { assert Hangs(d, R, Some(p), n); }
    }
  }

  /** Entering a state covers what it adds and the state itself, and leaves it all hung from it. */
  lemma {:induction false} DescendantsCover(d: Definition, hist: Hist, s: Node, E: set<Node>, K: set<Node>)
    requires WellFormed(d) && EntryReady(d, hist) && InTree(d, s) && Kind(d, s) != History
    requires Hung(d, E, K, Some(s)) && Rooted(d, K)
    ensures var R := AddDescendants(d, hist, s, E);
            E <= R && s in R && NewCovered(d, E, R, K) && NodeCovered(d, R + K, s) && Hung(d, R, K, Some(s))
    decreases |d.nodes| - Depth(d, s), 1, 0
  {
    hide WellFormed, EntryReady, Grown, Hung, NewCovered, Rooted;
    Shape(d, s);
    var R, E1 := AddDescendants(d, hist, s, E), E + {s};
    DescendantsGrow(d, hist, s, E);
    GrownMore(d, E, R, Parent(d, s));
    GrownHung(d, E, R, K, s);
    HungWith(d, E, K, s);
    if Kind(d, s) == Compound {
      var i := d.nodes[s].initial.value;
      assert i in Children(d, s) && IsDescendant(d, i, s) && Parent(d, i) == Some(s);
      InitialOnly(d, hist, s, i, E);
      if Kind(d, i) == History {
        EntersRestored(d, hist, i, E1);
        Shape(d, i);
        RestoredCover(d, hist, i, RestoreOf(d, hist, i), E1, K);
      } else {
        HungDown(d, E1, K, Some(s), i);
        DescendantsCover(d, hist, i, E1, K);
      }
    } else if Kind(d, s) == Parallel {
      RegionsCover(d, hist, s, Children(d, s), E1, K);
    } else {
      NothingNew(d, E1, K);
    }
    OneCovered(d, E, R, K, s);
  }

  /** Some child of p is in the set. */
  predicate Occupied(d: Definition, E: set<Node>, p: Node)
    requires InTree(d, p)
  {
    exists c :: c in Children(d, p) && c in E
  }

  /** Restoring nodes covers what it adds, and occupies the parent if there is anything to restore. */
  lemma {:induction false} RestoredCover(d: Definition, hist: Hist, h: Node, restore: seq<Node>, E: set<Node>,
                                         K: set<Node>)
    requires WellFormed(d) && EntryReady(d, hist) && InTree(d, h) && Kind(d, h) == History && Parent(d, h).Some?
    requires (forall x | x in restore :: Restorable(d, h, x)) && Hung(d, E, K, Parent(d, h)) && Rooted(d, K)
    ensures var p, R := Parent(d, h).value, AddRestored(d, hist, h, restore, E);
            && E <= R && NewCovered(d, E, R, K) && Hung(d, R, K, Some(p)) && InTree(d, p)
            && (restore != [] ==> Occupied(d, R + K, p))
    decreases |d.nodes| - Depth(d, h), 2, |restore|
  {
    hide EntryReady, NewCovered, Hung, Rooted;
    if restore == [] {
      NothingNew(d, E, K);
    } else {
      var x, p := restore[0], Parent(d, h).value;
      assert Restorable(d, h, x);
      DescendantDeeper(d, x, p);
      var F := AddAncestors(d, hist, x, Some(p), AddDescendants(d, hist, x, E));
      ClimbCover(d, hist, x, p, E, K);
      RestoredCover(d, hist, h, restore[1..], F, K);
      CoveredTwice(d, E, F, AddRestored(d, hist, h, restore, E), K);
      OccupiedBy(d, F, K, p, x);
    }
  }

  lemma OccupiedBy(d: Definition, F: set<Node>, K: set<Node>, p: Node, x: Node)
    requires IsTree(d) && InTree(d, p) && Hung(d, F, K, Some(p)) && Rooted(d, K) && x in F + K && IsDescendant(d, x, p)
    ensures Occupied(d, F + K, p)
  {
    hide Hung, Rooted;
    var c := ChildTowards(d, x, p);
    HungUpward(d, F, K, p, x, c);
    assert c in Children(d, p);
  }

  /** Entering x and climbing to p covers what is added and leaves it hung from p. */
  lemma {:induction false} ClimbCover(d: Definition, hist: Hist, x: Node, p: Node, E: set<Node>, K: set<Node>)
    requires WellFormed(d) && EntryReady(d, hist) && InTree(d, x) && IsDescendant(d, x, p) && InTree(d, p)
    requires Kind(d, x) != History && Hung(d, E, K, Some(p)) && Rooted(d, K)
    ensures var R := AddAncestors(d, hist, x, Some(p), AddDescendants(d, hist, x, E));
            E <= R && x in R && NewCovered(d, E, R, K) && Hung(d, R, K, Some(p))
    decreases |d.nodes| - Depth(d, p) - 1, 2, 0
  {
    hide WellFormed, EntryReady, NewCovered, Grown, Rooted;
    TreeInOrder(d);
    DescendantDeeper(d, x, p);
    var F := AddDescendants(d, hist, x, E);
    HungDown(d, E, K, Some(p), x);
    DescendantsCover(d, hist, x, E, K);
    DescendantsGrow(d, hist, x, E);
    GrownHung(d, E, F, K, x);
    NewHungBut(d, E, F, K, Some(p), x);
    AncestorsCover(d, hist, x, Some(p), F, K);
    CoveredTwice(d, E, F, AddAncestors(d, hist, x, Some(p), F), K);
  }

  /** New nodes with parents among them hang, save for the one they were entered from. */
  lemma NewHungBut(d: Definition, E: set<Node>, F: set<Node>, K: set<Node>, top: Option<Node>, s: Node)
    requires IsTree(d) && Hung(d, E, K, top) && E <= F
    requires forall n | n in F && n !in E && n != s :: HasParentIn(d, F, n)
    ensures HungBut(d, F, K, top, s)
  {
    forall n | n in F && n != s ensures HangsIn(d, F, K, top, n) {
      if n in E { assert HangsIn(d, E, K, top, n); }
    }
  }

  lemma {:induction false} AncestorsCover(d: Definition, hist: Hist, s: Node, anc: Option<Node>, E: set<Node>,
                                          K: set<Node>)
    requires WellFormed(d) && EntryReady(d, hist) && Under(d, s, anc)
    requires s in E && HungBut(d, E, K, anc, s) && Rooted(d, K)
    ensures var R := AddAncestors(d, hist, s, anc, E);
            E <= R && NewCovered(d, E, R, K) && Hung(d, R, K, anc)
    decreases |d.nodes| - DepthBelow(d, anc), 0, s
  {
    hide WellFormed, EntryReady, NewCovered, StepUp, Rooted;
    TreeInOrder(d);
    ClimbStops(d, hist, s, anc, E);
    if Parent(d, s) == anc || Parent(d, s) == None {
      NothingNew(d, E, K);
      LastHangs(d, E, K, anc, s);
    } else {
      var p := Parent(d, s).value;
      BelowDeeper(d, p, anc);
      var F := StepUp(d, hist, p, E);
      StepCovers(d, hist, s, p, anc, E, K);
      AncestorsCover(d, hist, p, anc, F, K);
      CoveredTwice(d, E, F, AddAncestors(d, hist, p, anc, F), K);
    }
  }

  lemma LastHangs(d: Definition, E: set<Node>, K: set<Node>, anc: Option<Node>, s: Node)
    requires IsTree(d) && InTree(d, s) && HungBut(d, E, K, anc, s) && Parent(d, s) == anc
    ensures Hung(d, E, K, anc)
  {
    forall n | n in E ensures HangsIn(d, E, K, anc, n) { assert n == s || HangsIn(d, E, K, anc, n); }
  }

  /** One step of the climb covers the parent and, if that is a parallel, its other regions. */
  lemma {:induction false} StepCovers(d: Definition, hist: Hist, s: Node, p: Node, anc: Option<Node>, E: set<Node>,
                                      K: set<Node>)
    requires WellFormed(d) && EntryReady(d, hist) && InTree(d, s) && Parent(d, s) == Some(p) && Under(d, p, anc)
    requires s in E && HungBut(d, E, K, anc, s) && Rooted(d, K)
    ensures var F := StepUp(d, hist, p, E);
            E <= F && p in F && NewCovered(d, E, F, K) && HungBut(d, F, K, anc, p)
    decreases |d.nodes| - Depth(d, p) - 1, 5, 0
  {
    hide WellFormed, EntryReady, Rooted, Hung;
    Shape(d, p);
    assert s in Children(d, p) && IsDescendant(d, s, p);
    var E1, F := E + {p}, StepUp(d, hist, p, E);
    HungInside(d, E, K, s, p, anc);
    if Kind(d, p) == Parallel {
      RegionsCover(d, hist, p, Children(d, p), E1, K);
      RegionsGrow(d, hist, p, Children(d, p), E1);
      RegionsHungBut(d, E1, F, K, p, anc);
    } else {
      NothingNew(d, E1, K);
      assert s in E1 + K;
    }
    OneCovered(d, E, F, K, p);
  }

  lemma HungInside(d: Definition, E: set<Node>, K: set<Node>, s: Node, p: Node, anc: Option<Node>)
    requires IsTree(d) && InTree(d, s) && Parent(d, s) == Some(p) && Under(d, p, anc) && HungBut(d, E, K, anc, s)
    ensures Hung(d, E + {p}, K, Some(p)) && HungBut(d, E + {p}, K, anc, p)
  {
    var E1 := E + {p};
    forall n | n in E1 ensures HangsIn(d, E1, K, Some(p), n) && (n != p ==> HangsIn(d, E1, K, anc, n)) {
      assert n == s || n == p || HangsIn(d, E, K, anc, n);
      if IsDescendant(d, n, p) {
        DescendantAfter(d, n, p);
        if anc.Some? {
          DescendantTransitive(d, n, p, anc.value);
          if Parent(d, n) == anc { OutsideItself(d, p, anc.value); }
        }
      }
    }
  }

  lemma RegionsHungBut(d: Definition, E: set<Node>, F: set<Node>, K: set<Node>, p: Node, anc: Option<Node>)
    requires IsTree(d) && HungBut(d, E, K, anc, p) && Grown(d, E, F, Some(p)) && p in E
    ensures HungBut(d, F, K, anc, p)
  {
    forall n | n in F && n != p ensures HangsIn(d, F, K, anc, n) {
      if n in E { assert HangsIn(d, E, K, anc, n); } else { assert Hangs(d, F, Some(p), n); }
    }
  }

  /** Entering the regions of a parallel makes all of them active and covers what is added. */
  lemma {:induction false} RegionsCover(d: Definition, hist: Hist, p: Node, cs: seq<Node>, E: set<Node>, K: set<Node>)
    requires WellFormed(d) && EntryReady(d, hist) && InTree(d, p) && Kind(d, p) == Parallel && p in E
    requires Hung(d, E, K, Some(p)) && Rooted(d, K) && forall c | c in cs :: c in Children(d, p)
    ensures var R := AddRegions(d, hist, p, cs, E);
            E <= R && NewCovered(d, E, R, K) && Hung(d, R, K, Some(p)) && forall c | c in cs :: c in R + K
    decreases |d.nodes| - Depth(d, p) - 1, 4, |cs|
  {
    hide WellFormed, EntryReady, NewCovered, Grown, Hung, Rooted;
    if cs == [] {
      NothingNew(d, E, K);
    } else {
      Shape(d, p);
      var c0 := cs[0];
      assert c0 in Children(d, p) && IsDescendant(d, c0, p);
      HasDescendantMeaning(d, c0, E);
      if HasDescendantInSet(d, c0, E) {
        var m :| m in E && InSubtree(d, m, c0);
        if m != c0 { DescendantTransitive(d, m, c0, p); }
        HungUpward(d, E, K, p, m, c0);
        RegionsCover(d, hist, p, cs[1..], E, K);
      } else {
        var F := AddDescendants(d, hist, c0, E);
        HungDown(d, E, K, Some(p), c0);
        DescendantsCover(d, hist, c0, E, K);
        DescendantsGrow(d, hist, c0, E);
        GrownHangs(d, E, F, K, p, Some(p));
        RegionsCover(d, hist, p, cs[1..], F, K);
        CoveredTwice(d, E, F, AddRegions(d, hist, p, cs[1..], F), K);
      }
    }
  }

  // ------------------------------------------------------------------ the first climb of a restoration

  lemma NothingKept(d: Definition, E: set<Node>, p: Node)
    requires IsTree(d) && Vacant(d, E, p)
    ensures Rooted(d, {}) && Hung(d, E, {}, Some(p))
  {
  }

  /** Restoring the first node of a record covers the untouched parent, whatever is stored. */
  lemma FirstClimbCovers(d: Definition, hist: Hist, h: Node, E: set<Node>)
    requires WellFormed(d) && EntryReady(d, hist) && InTree(d, h) && Kind(d, h) == History && Parent(d, h).Some?
    requires RestoreOf(d, hist, h) != [] && Vacant(d, E, Parent(d, h).value)
    ensures InTree(d, Parent(d, h).value) && Covered(d, FirstClimb(d, hist, h, E), Parent(d, h).value)
    ensures RestoreOf(d, hist, h)[0] in FirstClimb(d, hist, h, E)
  {
    hide EntryReady, FirstClimb, Covered, Hung, Rooted;
    Shape(d, h);
    FirstClimbIs(d, hist, h, E);
    var p, x, F := Parent(d, h).value, RestoreOf(d, hist, h)[0], FirstClimb(d, hist, h, E);
    NothingKept(d, E, p);
    ClimbCover(d, hist, x, p, E, {});
    OccupiedBy(d, F, {}, p, x);
    assert F + {} == F;
    VacantCovered(d, E, F, p);
  }

  lemma VacantCovered(d: Definition, E: set<Node>, F: set<Node>, p: Node)
    requires IsTree(d) && InTree(d, p) && Vacant(d, E, p) && NewCovered(d, E, F, {}) && Occupied(d, F, p)
    requires Kind(d, p) == Compound
    ensures Covered(d, F, p)
  {
    assert F + {} == F;
    forall n | n in F && IsDescendant(d, n, p) ensures NodeCovered(d, F, n) { assert n !in E; }
  }

  /** Below every node of a covered part there is a leaf of it. */
  lemma {:induction false} CoveredLeaf(d: Definition, F: set<Node>, p: Node, n: Node) returns (leaf: Node)
    requires WellFormed(d) && InTree(d, p) && Covered(d, F, p) && n in F && IsDescendant(d, n, p)
    requires forall m | m in F && IsDescendant(d, m, p) :: Kind(d, m) != History
    ensures leaf in F && IsLeaf(d, leaf) && InSubtree(d, leaf, n)
    decreases |d.nodes| - n, 0
  {
    hide WellFormed;
    Shape(d, n);
    assert NodeCovered(d, F, n);
    match Kind(d, n)
    case Atomic => leaf := n;
    case Final => leaf := n;
    case Compound =>
      var c :| c in Children(d, n) && c in F;
      leaf := CoveredChildLeaf(d, F, p, n, c);
    case Parallel =>
      var c := Children(d, n)[0];
      assert c in Children(d, n);
      leaf := CoveredChildLeaf(d, F, p, n, c);
    case History => leaf := n;
  }

  lemma {:induction false} CoveredChildLeaf(d: Definition, F: set<Node>, p: Node, n: Node, c: Node) returns (leaf: Node)
    requires WellFormed(d) && InTree(d, p) && Covered(d, F, p) && InTree(d, n) && IsDescendant(d, n, p)
    requires c in Children(d, n) && c in F
    requires forall m | m in F && IsDescendant(d, m, p) :: Kind(d, m) != History
    ensures leaf in F && IsLeaf(d, leaf) && InSubtree(d, leaf, n)
    decreases |d.nodes| - c, 1
  {
    hide WellFormed, Covered;
    TreeInOrder(d);
    assert IsDescendant(d, c, n);
    DescendantTransitive(d, c, n, p);
    leaf := CoveredLeaf(d, F, p, c);
    if leaf != c { DescendantTransitive(d, leaf, c, n); }
  }
}
