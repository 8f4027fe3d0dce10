/** What the entry functions do whatever is stored in the history (transition.go): they add
    only nodes below their start, with their ancestors, leave touched regions alone, and do not
    depend on anything outside. */
module Growth {
  import opened Definitions
  import opened Configurations
  import opened Entry

  /** n hangs in R from the open top a: its parent is a or in R, and n lies below a. */
  ghost predicate Hangs(d: Definition, R: set<Node>, a: Option<Node>, n: Node)
    requires IsTree(d)
  {
    && InTree(d, n)
    && Kind(d, n) != History
    && (Parent(d, n) == a || (Parent(d, n).Some? && Parent(d, n).value in R))
    && (a.Some? ==> IsDescendant(d, n, a.value))
  }

  /** R is E with new members that hang from a. */
  ghost predicate Grown(d: Definition, E: set<Node>, R: set<Node>, a: Option<Node>)
    requires IsTree(d)
  {
    E <= R && forall n | n in R && n !in E :: Hangs(d, R, a, n)
  }

  lemma GrownTwice(d: Definition, E: set<Node>, F: set<Node>, R: set<Node>, a: Option<Node>)
    requires IsTree(d) && Grown(d, E, F, a) && Grown(d, F, R, a)
    ensures Grown(d, E, R, a)
  {
    forall n | n in R && n !in E ensures Hangs(d, R, a, n) {
      if n in F { assert Hangs(d, F, a, n); }
    }
  }

  /** What grows from a node p of R grows from the top that p hangs from. */
  lemma GrownHigher(d: Definition, E: set<Node>, R: set<Node>, p: Node, a: Option<Node>)
    requires IsTree(d) && Grown(d, E, R, Some(p)) && p in R && (a.Some? ==> IsDescendant(d, p, a.value))
    ensures Grown(d, E, R, a)
  {
    forall n | n in R && n !in E ensures Hangs(d, R, a, n) {
      if a.Some? { DescendantTransitive(d, n, p, a.value); }
    }
  }

  lemma AddOne(d: Definition, E: set<Node>, n: Node, a: Option<Node>)
    requires IsTree(d) && InTree(d, n) && Kind(d, n) != History && Parent(d, n) == a
    ensures Grown(d, E, E + {n}, a)
  {
  }

  /** Entering a node adds it (unless it is a history node) and things that hang from its parent. */
  lemma {:induction false} DescendantsGrow(d: Definition, hist: Hist, s: Node, E: set<Node>)
    requires WellFormed(d) && EntryReady(d, hist) && InTree(d, s)
    ensures Grown(d, E, AddDescendants(d, hist, s, E), Parent(d, s))
    ensures Kind(d, s) != History ==> s in AddDescendants(d, hist, s, E)
    ensures Kind(d, s) != History ==> forall n | n in AddDescendants(d, hist, s, E) && n !in E :: InSubtree(d, n, s)
    decreases |d.nodes| - Depth(d, s), if Kind(d, s) == History then 3 else 1, 0
  {
    hide WellFormed, EntryReady, Grown;
    Shape(d, s);
    if Kind(d, s) == History {
      EntersRestored(d, hist, s, E);
      RestoredGrow(d, hist, s, RestoreOf(d, hist, s), E);
    } else {
      AddOne(d, E, s, Parent(d, s));
      InsideGrows(d, hist, s, E);
      GrownTwice(d, E, E + {s}, AddDescendants(d, hist, s, E), Parent(d, s));
    }
  }

  lemma EntersRestored(d: Definition, hist: Hist, h: Node, E: set<Node>)
    requires IsTree(d) && EntryReady(d, hist) && InTree(d, h) && Kind(d, h) == History
    ensures forall x | x in RestoreOf(d, hist, h) :: Restorable(d, h, x)
    ensures AddDescendants(d, hist, h, E) == AddRestored(d, hist, h, RestoreOf(d, hist, h), E)
  {
  }

  /** The part of entry strictly inside s. */
  lemma {:induction false} InsideGrows(d: Definition, hist: Hist, s: Node, E: set<Node>)
    requires WellFormed(d) && EntryReady(d, hist) && InTree(d, s) && Kind(d, s) != History
    ensures var R := AddDescendants(d, hist, s, E);
            Grown(d, E + {s}, R, Parent(d, s)) && s in R && forall n | n in R && n !in E :: InSubtree(d, n, s)
    decreases |d.nodes| - Depth(d, s), 1, -1
  {
    Shape(d, s);
    var R := AddDescendants(d, hist, s, E);
    if Kind(d, s) == Compound {
      var i := d.nodes[s].initial.value;
      assert i in Children(d, s) && IsDescendant(d, i, s) && Parent(d, i) == Some(s);
      DescendantsGrow(d, hist, i, E + {s});
      var F := AddDescendants(d, hist, i, E + {s});
      assert AddAncestors(d, hist, i, Some(s), F) == F;
      GrownHigher(d, E + {s}, R, s, Parent(d, s));
    } else if Kind(d, s) == Parallel {
      RegionsGrow(d, hist, s, Children(d, s), E + {s});
      GrownHigher(d, E + {s}, R, s, Parent(d, s));
    }
  }

  lemma {:induction false} RestoredGrow(d: Definition, hist: Hist, h: Node, restore: seq<Node>, E: set<Node>)
    requires WellFormed(d) && EntryReady(d, hist) && InTree(d, h) && Kind(d, h) == History
    requires forall x | x in restore :: Restorable(d, h, x)
    ensures Grown(d, E, AddRestored(d, hist, h, restore, E), Parent(d, h))
    decreases |d.nodes| - Depth(d, h), 2, |restore|
  {
    if restore == [] {
    } else {
      var x := restore[0];
      assert Restorable(d, h, x);
      var p := Parent(d, h).value;
      DescendantDeeper(d, x, p);
      ClimbGrows(d, hist, x, p, E);
      var F := AddAncestors(d, hist, x, Some(p), AddDescendants(d, hist, x, E));
      RestoredGrow(d, hist, h, restore[1..], F);
      GrownTwice(d, E, F, AddRestored(d, hist, h, restore, E), Some(p));
    }
  }

  /** Entering x and climbing from it to p adds things that hang from p. */
  lemma {:induction false} ClimbGrows(d: Definition, hist: Hist, x: Node, p: Node, E: set<Node>)
    requires WellFormed(d) && EntryReady(d, hist) && InTree(d, x) && IsDescendant(d, x, p) && InTree(d, p)
    requires Kind(d, x) != History
    ensures Grown(d, E, AddAncestors(d, hist, x, Some(p), AddDescendants(d, hist, x, E)), Some(p))
    decreases |d.nodes| - Depth(d, p) - 1, 2, 0
  {
    DescendantDeeper(d, x, p);
    var F := AddDescendants(d, hist, x, E);
    DescendantsGrow(d, hist, x, E);
    AncestorsGrow(d, hist, x, Some(p), F);
    var R := AddAncestors(d, hist, x, Some(p), F);
    forall n | n in R && n !in E ensures Hangs(d, R, Some(p), n) {
      if n in F {
        if n != x { DescendantTransitive(d, n, x, p); }
        assert Hangs(d, F, Parent(d, x), n);
      }
    }
  }

  /** Climbing adds things that hang from the top, the first of them the parent of the start. */
  lemma {:induction false} AncestorsGrow(d: Definition, hist: Hist, s: Node, anc: Option<Node>, E: set<Node>)
    requires WellFormed(d) && EntryReady(d, hist) && InTree(d, s)
    requires anc.Some? ==> InTree(d, anc.value) && IsDescendant(d, s, anc.value)
    ensures var R := AddAncestors(d, hist, s, anc, E);
            Grown(d, E, R, anc) && (Parent(d, s) == anc || (Parent(d, s).Some? && Parent(d, s).value in R))
    ensures !Clear(d, E, s) ==> AgreeIn(d, E, AddAncestors(d, hist, s, anc, E), s)
    decreases |d.nodes| - DepthBelow(d, anc), 0, s
  {
    hide WellFormed, EntryReady, Grown, AgreeIn, Clear;
    ClimbStops(d, hist, s, anc, E);
    if Parent(d, s) == anc || Parent(d, s) == None {
      GrownNot(d, E, anc, s);
    } else {
      var p := Parent(d, s).value;
      BelowDeeper(d, p, anc);
      var F := StepUp(d, hist, p, E);
      StepGrows(d, hist, s, p, anc, E);
      AncestorsGrow(d, hist, p, anc, F);
      var R := AddAncestors(d, hist, p, anc, F);
      JoinUp(d, E, F, R, s, p, anc);
    }
  }

  lemma GrownNot(d: Definition, E: set<Node>, a: Option<Node>, s: Node)
    requires IsTree(d)
    ensures Grown(d, E, E, a) && AgreeIn(d, E, E, s)
  {
  }

  lemma ClimbStops(d: Definition, hist: Hist, s: Node, anc: Option<Node>, E: set<Node>)
    requires WellFormed(d) && EntryReady(d, hist) && InTree(d, s)
    requires anc.Some? ==> InTree(d, anc.value) && IsDescendant(d, s, anc.value)
    ensures Parent(d, s) == None ==> anc == None
    ensures Parent(d, s) == anc || Parent(d, s) == None ==> AddAncestors(d, hist, s, anc, E) == E
    ensures Parent(d, s).Some? && Parent(d, s) != anc ==>
              var p := Parent(d, s).value;
              && InTree(d, p) && (anc.Some? ==> IsDescendant(d, p, anc.value))
              && (forall c | c in Children(d, p) :: InTree(d, c))
              && AddAncestors(d, hist, s, anc, E) == AddAncestors(d, hist, p, anc, StepUp(d, hist, p, E))
    ensures IsTree(d)
  {
  }

  /** One step of the climb: the parent is added, and with it the untouched regions of a parallel. */
  lemma {:induction false} StepGrows(d: Definition, hist: Hist, s: Node, p: Node, anc: Option<Node>, E: set<Node>)
    requires WellFormed(d) && EntryReady(d, hist) && InTree(d, s) && Parent(d, s) == Some(p) && Some(p) != anc
    requires anc.Some? ==> InTree(d, anc.value) && IsDescendant(d, p, anc.value)
    ensures InTree(d, p)
    ensures var F := StepUp(d, hist, p, E);
            && Grown(d, E + {p}, F, Some(p)) && p in F
            && (!Clear(d, E, s) ==> AgreeIn(d, E, F, s))
    ensures Kind(d, p) != History && !Clear(d, E + {p}, p)
    decreases |d.nodes| - Depth(d, p) - 1, 5, 0
  {
    Shape(d, p);
    assert s in Children(d, p) && IsDescendant(d, s, p);
    var E1 := E + {p};
    OutsideItself(d, s, p);
    if Kind(d, p) == Parallel { RegionsGrow(d, hist, p, Children(d, p), E1); }
    if !Clear(d, E, s) {
      assert !Clear(d, E1, s);
      assert AgreeIn(d, E, E1, s);
    }
  }

  lemma JoinUp(d: Definition, E: set<Node>, F: set<Node>, R: set<Node>, s: Node, p: Node, anc: Option<Node>)
    requires IsTree(d) && InTree(d, s) && Parent(d, s) == Some(p) && InTree(d, p) && Kind(d, p) != History
             && Some(p) != anc
    requires anc.Some? ==> IsDescendant(d, p, anc.value)
    requires Grown(d, E + {p}, F, Some(p)) && p in F && Grown(d, F, R, anc)
    requires Parent(d, p) == anc || (Parent(d, p).Some? && Parent(d, p).value in R)
    requires !Clear(d, E, s) ==> AgreeIn(d, E, F, s)
    requires !Clear(d, F, p) ==> AgreeIn(d, F, R, p)
    ensures Grown(d, E, R, anc) && p in R
    ensures !Clear(d, E, s) ==> AgreeIn(d, E, R, s)
  {
    forall n | n in R && n !in E ensures Hangs(d, R, anc, n) {
      if n in F && n != p {
        assert Hangs(d, F, Some(p), n);
        if anc.Some? { DescendantTransitive(d, n, p, anc.value); }
      }
    }
    assert InSubtree(d, p, p) && !Clear(d, F, p);
    if !Clear(d, E, s) {
      forall n: Node | InSubtree(d, n, s) ensures n in E <==> n in R {
        if n != s { DescendantTransitive(d, n, s, p); }
        assert InSubtree(d, n, p);
      }
    }
  }

  /** Entering regions adds things that hang from the parallel, and none in touched regions. */
  lemma {:induction false} RegionsGrow(d: Definition, hist: Hist, p: Node, cs: seq<Node>, E: set<Node>)
    requires WellFormed(d) && EntryReady(d, hist) && InTree(d, p) && Kind(d, p) == Parallel && p in E
    requires forall c | c in cs :: c in Children(d, p)
    ensures Grown(d, E, AddRegions(d, hist, p, cs, E), Some(p))
    ensures forall c | c in Children(d, p) && !Clear(d, E, c) :: AgreeIn(d, E, AddRegions(d, hist, p, cs, E), c)
    decreases |d.nodes| - Depth(d, p) - 1, 4, |cs|
  {
    if cs == [] {
    } else {
      Shape(d, p);
      var c0 := cs[0];
      assert c0 in Children(d, p);
      HasDescendantMeaning(d, c0, E);
      var F := if HasDescendantInSet(d, c0, E) then E else AddDescendants(d, hist, c0, E);
      if !HasDescendantInSet(d, c0, E) { DescendantsGrow(d, hist, c0, E); }
      assert Grown(d, E, F, Some(p));
      RegionsGrow(d, hist, p, cs[1..], F);
      var R := AddRegions(d, hist, p, cs[1..], F);
      GrownTwice(d, E, F, R, Some(p));
      forall c | c in Children(d, p) && !Clear(d, E, c) ensures AgreeIn(d, E, R, c) {
        OneRegionGrew(d, p, c0, c, E, F);
      }
    }
  }

  lemma OneRegionGrew(d: Definition, p: Node, c0: Node, c: Node, E: set<Node>, F: set<Node>)
    requires IsTree(d) && InTree(d, p) && c0 in Children(d, p) && c in Children(d, p) && E <= F
    requires F == E || (Clear(d, E, c0) && forall n | n in F && n !in E :: InSubtree(d, n, c0))
    requires !Clear(d, E, c)
    ensures !Clear(d, F, c) && AgreeIn(d, E, F, c)
  {
    forall n: Node | InSubtree(d, n, c) ensures n in E <==> n in F {
      if n in F && n !in E { ChildrenDisjoint(d, p, c0, c, n); }
    }
  }

  // ------------------------------------------------------------------ entry is local

  ghost predicate AgreeBelow(d: Definition, E: set<Node>, G: set<Node>, a: Node)
    requires IsTree(d)
  {
    forall n: Node | IsDescendant(d, n, a) :: n in E <==> n in G
  }

  /** What agrees below a agrees in and below every state there. */
  lemma AgreeDown(d: Definition, E: set<Node>, G: set<Node>, a: Node, c: Node)
    requires IsTree(d) && AgreeBelow(d, E, G, a) && IsDescendant(d, c, a)
    ensures AgreeIn(d, E, G, c) && AgreeBelow(d, E, G, c)
  {
    forall n: Node | InSubtree(d, n, c) ensures n in E <==> n in G {
      if n != c { DescendantTransitive(d, n, c, a); }
    }
  }

  /** Sets that agree below a, grown inside the subtree of c so that they agree there. */
  lemma AgreeJoin(d: Definition, E: set<Node>, G: set<Node>, R: set<Node>, S: set<Node>, a: Node, c: Node)
    requires IsTree(d) && AgreeBelow(d, E, G, a) && E <= R && G <= S && AgreeIn(d, R, S, c)
    requires forall n | n in R && n !in E :: InSubtree(d, n, c)
    requires forall n | n in S && n !in G :: InSubtree(d, n, c)
    ensures AgreeBelow(d, R, S, a)
  {
    forall n: Node | IsDescendant(d, n, a) ensures n in R <==> n in S {
      if !InSubtree(d, n, c) { assert n in R <==> n in E; }
    }
  }

  lemma InitialOnly(d: Definition, hist: Hist, s: Node, i: Node, E: set<Node>)
    requires IsTree(d) && EntryReady(d, hist) && InTree(d, s) && Kind(d, s) == Compound
    requires d.nodes[s].initial == Some(i) && InTree(d, i) && Parent(d, i) == Some(s)
    ensures AddDescendants(d, hist, s, E) == AddDescendants(d, hist, i, E + {s})
  {
    var F := AddDescendants(d, hist, i, E + {s});
    assert AddAncestors(d, hist, i, Some(s), F) == F;
  }

  lemma ClimbUnfold(d: Definition, hist: Hist, c: Node, a: Node, E: set<Node>)
    requires IsTree(d) && EntryReady(d, hist) && InTree(d, c) && InTree(d, a) && IsDescendant(d, c, a)
    ensures var p := Parent(d, c).value;
            if p == a then AddAncestors(d, hist, c, Some(a), E) == E
            else InTree(d, p) && IsDescendant(d, p, a)
                 && AddAncestors(d, hist, c, Some(a), E) == AddAncestors(d, hist, p, Some(a), StepUp(d, hist, p, E))
  {
  }

  /** Whatever is stored: what entering a state puts into its subtree depends only on what is
      there already, and what entering a history node puts below its parent likewise. */
  lemma {:induction false} DescendantsAgree(d: Definition, hist: Hist, s: Node, E: set<Node>, G: set<Node>)
    requires WellFormed(d) && EntryReady(d, hist) && InTree(d, s) && (Kind(d, s) == History ==> Parent(d, s).Some?)
    requires if Kind(d, s) == History then AgreeBelow(d, E, G, Parent(d, s).value) else AgreeIn(d, E, G, s)
    ensures var R, S := AddDescendants(d, hist, s, E), AddDescendants(d, hist, s, G);
            if Kind(d, s) == History then AgreeBelow(d, R, S, Parent(d, s).value) else AgreeIn(d, R, S, s)
    decreases |d.nodes| - Depth(d, s), if Kind(d, s) == History then 3 else 1, 0
  {
    hide WellFormed, EntryReady, Grown, AddRestored;
    Shape(d, s);
    var E1, G1 := E + {s}, G + {s};
    if Kind(d, s) == History {
      EntersRestored(d, hist, s, E);
      EntersRestored(d, hist, s, G);
      RestoredAgree(d, hist, s, RestoreOf(d, hist, s), E, G);
    } else if Kind(d, s) == Compound {
      var i := d.nodes[s].initial.value;
      assert i in Children(d, s) && IsDescendant(d, i, s) && Parent(d, i) == Some(s);
      InitialOnly(d, hist, s, i, E);
      InitialOnly(d, hist, s, i, G);
      InsideGrows(d, hist, s, E);
      InsideGrows(d, hist, s, G);
      assert AgreeBelow(d, E1, G1, s);
      InitialAgrees(d, hist, s, i, E1, G1);
    } else if Kind(d, s) == Parallel {
      InsideGrows(d, hist, s, E);
      InsideGrows(d, hist, s, G);
      assert AgreeBelow(d, E1, G1, s);
      RegionsAgree(d, hist, s, Children(d, s), E1, G1);
    }
  }

  lemma {:induction false} InitialAgrees(d: Definition, hist: Hist, s: Node, i: Node, E: set<Node>, G: set<Node>)
    requires WellFormed(d) && EntryReady(d, hist) && InTree(d, s) && InTree(d, i) && Parent(d, i) == Some(s)
    requires AgreeBelow(d, E, G, s)
    ensures AgreeBelow(d, AddDescendants(d, hist, i, E), AddDescendants(d, hist, i, G), s)
    decreases |d.nodes| - Depth(d, i), 4, 0
  {
    hide WellFormed, EntryReady;
    TreeInOrder(d);
    assert IsDescendant(d, i, s);
    AgreeDown(d, E, G, s, i);
    DescendantsAgree(d, hist, i, E, G);
    if Kind(d, i) != History {
      DescendantsGrow(d, hist, i, E);
      DescendantsGrow(d, hist, i, G);
      AgreeJoin(d, E, G, AddDescendants(d, hist, i, E), AddDescendants(d, hist, i, G), s, i);
    }
  }

  lemma {:induction false} RestoredAgree(d: Definition, hist: Hist, h: Node, restore: seq<Node>, E: set<Node>,
                                         G: set<Node>)
    requires WellFormed(d) && EntryReady(d, hist) && InTree(d, h) && Kind(d, h) == History && Parent(d, h).Some?
    requires (forall x | x in restore :: Restorable(d, h, x)) && AgreeBelow(d, E, G, Parent(d, h).value)
    ensures AgreeBelow(d, AddRestored(d, hist, h, restore, E), AddRestored(d, hist, h, restore, G), Parent(d, h).value)
    decreases |d.nodes| - Depth(d, h), 2, |restore|
  {
    if restore == [] {
    } else {
      var x, p := restore[0], Parent(d, h).value;
      assert Restorable(d, h, x);
      DescendantDeeper(d, x, p);
      ClimbAgrees(d, hist, x, p, E, G);
      RestoredAgree(d, hist, h, restore[1..], AddAncestors(d, hist, x, Some(p), AddDescendants(d, hist, x, E)),
                    AddAncestors(d, hist, x, Some(p), AddDescendants(d, hist, x, G)));
    }
  }

  /** Entering x and climbing from it to p depends only on what is below p. */
  lemma {:induction false} ClimbAgrees(d: Definition, hist: Hist, x: Node, p: Node, E: set<Node>, G: set<Node>)
    requires WellFormed(d) && EntryReady(d, hist) && InTree(d, x) && IsDescendant(d, x, p) && InTree(d, p)
    requires Kind(d, x) != History && AgreeBelow(d, E, G, p)
    ensures AgreeBelow(d, AddAncestors(d, hist, x, Some(p), AddDescendants(d, hist, x, E)),
                       AddAncestors(d, hist, x, Some(p), AddDescendants(d, hist, x, G)), p)
    decreases |d.nodes| - Depth(d, p) - 1, 2, 0
  {
    hide WellFormed, EntryReady;
    TreeInOrder(d);
    DescendantDeeper(d, x, p);
    AgreeDown(d, E, G, p, x);
    DescendantsAgree(d, hist, x, E, G);
    DescendantsGrow(d, hist, x, E);
    DescendantsGrow(d, hist, x, G);
    AgreeJoin(d, E, G, AddDescendants(d, hist, x, E), AddDescendants(d, hist, x, G), p, x);
    AncestorsAgree(d, hist, x, p, AddDescendants(d, hist, x, E), AddDescendants(d, hist, x, G));
  }

  lemma {:induction false} AncestorsAgree(d: Definition, hist: Hist, s: Node, a: Node, E: set<Node>, G: set<Node>)
    requires WellFormed(d) && EntryReady(d, hist) && InTree(d, s) && InTree(d, a) && IsDescendant(d, s, a)
    requires AgreeBelow(d, E, G, a)
    ensures AgreeBelow(d, AddAncestors(d, hist, s, Some(a), E), AddAncestors(d, hist, s, Some(a), G), a)
    decreases |d.nodes| - Depth(d, a) - 1, 0, s
  {
    hide WellFormed, EntryReady, StepUp;
    TreeInOrder(d);
    ClimbUnfold(d, hist, s, a, E);
    ClimbUnfold(d, hist, s, a, G);
    var p := Parent(d, s).value;
    if p == a {
    } else {
      DescendantDeeper(d, p, a);
      StepAgrees(d, hist, p, a, E, G);
      AncestorsAgree(d, hist, p, a, StepUp(d, hist, p, E), StepUp(d, hist, p, G));
    }
  }

  lemma {:induction false} StepAgrees(d: Definition, hist: Hist, p: Node, a: Node, E: set<Node>, G: set<Node>)
    requires WellFormed(d) && EntryReady(d, hist) && InTree(d, p) && IsDescendant(d, p, a) && AgreeBelow(d, E, G, a)
    ensures AgreeBelow(d, StepUp(d, hist, p, E), StepUp(d, hist, p, G), a)
    decreases |d.nodes| - Depth(d, p) - 1, 5, 0
  {
    hide WellFormed, EntryReady;
    Shape(d, p);
    var E1, G1 := E + {p}, G + {p};
    assert AgreeBelow(d, E1, G1, a);
    if Kind(d, p) == Parallel {
      AgreeDown(d, E1, G1, a, p);
      RegionsAgree(d, hist, p, Children(d, p), E1, G1);
      RegionsGrow(d, hist, p, Children(d, p), E1);
      RegionsGrow(d, hist, p, Children(d, p), G1);
      AgreeJoin(d, E1, G1, StepUp(d, hist, p, E), StepUp(d, hist, p, G), a, p);
    }
  }

  lemma {:induction false} RegionsAgree(d: Definition, hist: Hist, p: Node, cs: seq<Node>, E: set<Node>, G: set<Node>)
    requires WellFormed(d) && EntryReady(d, hist) && InTree(d, p) && Kind(d, p) == Parallel
    requires (forall c | c in cs :: c in Children(d, p)) && AgreeBelow(d, E, G, p)
    ensures AgreeBelow(d, AddRegions(d, hist, p, cs, E), AddRegions(d, hist, p, cs, G), p)
    decreases |d.nodes| - Depth(d, p) - 1, 4, |cs|
  {
    hide WellFormed, EntryReady;
    if cs == [] {
    } else {
      Shape(d, p);
      var c0 := cs[0];
      assert c0 in Children(d, p) && IsDescendant(d, c0, p);
      AgreeDown(d, E, G, p, c0);
      HasDescendantMeaning(d, c0, E);
      HasDescendantMeaning(d, c0, G);
      if HasDescendantInSet(d, c0, E) {
        RegionsAgree(d, hist, p, cs[1..], E, G);
      } else {
        DescendantsAgree(d, hist, c0, E, G);
        DescendantsGrow(d, hist, c0, E);
        DescendantsGrow(d, hist, c0, G);
        AgreeJoin(d, E, G, AddDescendants(d, hist, c0, E), AddDescendants(d, hist, c0, G), p, c0);
        RegionsAgree(d, hist, p, cs[1..], AddDescendants(d, hist, c0, E), AddDescendants(d, hist, c0, G));
      }
    }
  }

  /** So what restoring the first node of a record enters does not depend on the rest of the set. */
  lemma FirstClimbAgrees(d: Definition, hist: Hist, h: Node, E: set<Node>, G: set<Node>)
    requires WellFormed(d) && EntryReady(d, hist) && InTree(d, h) && Kind(d, h) == History && Parent(d, h).Some?
    requires RestoreOf(d, hist, h) != [] && AgreeBelow(d, E, G, Parent(d, h).value)
    ensures AgreeBelow(d, FirstClimb(d, hist, h, E), FirstClimb(d, hist, h, G), Parent(d, h).value)
  {
    hide WellFormed, EntryReady, FirstClimb;
    Shape(d, h);
    FirstClimbIs(d, hist, h, E);
    FirstClimbIs(d, hist, h, G);
    ClimbAgrees(d, hist, RestoreOf(d, hist, h)[0], Parent(d, h).value, E, G);
  }

  /** Whether a record restores properly does not depend on the set it is restored into. */
  lemma ClosesAnywhere(d: Definition, hist: Hist, h: Node, E: set<Node>, G: set<Node>)
    requires WellFormed(d) && EntryReady(d, hist) && InTree(d, h) && Kind(d, h) == History && Parent(d, h).Some?
    requires RestoreOf(d, hist, h) != [] && AgreeBelow(d, E, G, Parent(d, h).value)
    ensures Closes(d, hist, h, E) <==> Closes(d, hist, h, G)
  {
    FirstClimbAgrees(d, hist, h, E, G);
    forall x | x in RestoreOf(d, hist, h)[1..]
      ensures x in FirstClimb(d, hist, h, E) <==> x in FirstClimb(d, hist, h, G)
    {
      assert x in RestoreOf(d, hist, h);
      assert Restorable(d, h, x);
    }
  }
}
