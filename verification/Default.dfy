/** What a microstep enters, exactly, told without the entry functions (transition.go): the
    targets, what lies on the way to them, and everything else by default. */
module Defaults {
  import opened Definitions
  import opened Configurations
  import opened Entry
  import opened Growth
  import opened Coverage
  import opened Selection
  import opened Microsteps
  import opened Histories
  import opened Staging
  import opened Engines
  import opened HistoryRuns

  // ------------------------------------------------------------------ default entry

  /** Nothing is recorded at h. */
  predicate Unrecorded(hist: Hist, h: Node) { h !in hist || hist[h] == [] }

  /** A history node at which nothing is recorded stands for its declared default. */
  lemma UnrecordedRestores(d: Definition, hist: Hist, h: Node, E: set<Node>)
    requires WellFormed(d) && EntryReady(d, hist) && InTree(d, h) && Kind(d, h) == History && Unrecorded(hist, h)
    ensures var targets := d.nodes[h].historyTo;
            && |targets| == 1 && InTree(d, targets[0]) && Kind(d, targets[0]) != History
            && Parent(d, targets[0]) == Parent(d, h)
            && AddDescendants(d, hist, h, E) == AddDescendants(d, hist, targets[0], E)
            && targets[0] in AddDescendants(d, hist, h, E)
  {
    Shape(d, h);
    var g, p := d.nodes[h].historyTo[0], Parent(d, h).value;
    assert g in Children(d, p);
    var F := AddDescendants(d, hist, g, E);
    assert d.nodes[h].historyTo == [g] && [g][1..] == [];
    assert AddAncestors(d, hist, g, Some(p), F) == F;
    assert AddRestored(d, hist, h, [g], E) == AddRestored(d, hist, h, [], F) == F;
    DescendantsGrow(d, hist, g, E);
  }

  /** The child that default entry of the compound q enters: its initial child or, if that is a
      history node, the default of that. */
  function EntryChild(d: Definition, q: Node): Option<Node>
    requires InTree(d, q)
  {
    match d.nodes[q].initial
    case None => None
    case Some(i) =>
      if InTree(d, i) && Kind(d, i) == History && d.nodes[i].historyTo != [] then Some(d.nodes[i].historyTo[0])
      else Some(i)
  }

  /** Default entry goes from q to its child n. */
  predicate EntersChild(d: Definition, q: Node, n: Node)
    requires InTree(d, q)
  {
    match Kind(d, q)
    case Parallel => true
    case Compound => EntryChild(d, q) == Some(n)
    case _ => false
  }

  /** n is active by default once s is entered. */
  predicate ByDefault(d: Definition, s: Node, n: Node)
    requires IsTree(d)
    decreases n
  {
    || n == s
    || (IsDescendant(d, n, s) && ByDefault(d, s, Parent(d, n).value) && EntersChild(d, Parent(d, n).value, n))
  }

  lemma {:induction false} DefaultThrough(d: Definition, s: Node, m: Node, n: Node)
    requires IsTree(d) && InTree(d, m) && InSubtree(d, m, s) && InSubtree(d, n, m)
    ensures ByDefault(d, s, n) <==> ByDefault(d, s, m) && ByDefault(d, m, n)
    decreases n
  {
    if n == m {
    } else {
      DefaultThrough(d, s, m, Parent(d, n).value);
      if m != s { DescendantTransitive(d, n, m, s); }
      if n == s { DescendantAfter(d, n, m); if m != s { DescendantAfter(d, m, s); } }
    }
  }

  /** Among the children of s default entry picks one of a compound and all of a parallel. */
  lemma DefaultChild(d: Definition, s: Node, c: Node, n: Node)
    requires IsTree(d) && InTree(d, s) && c in Children(d, s) && InSubtree(d, n, c)
    ensures InTree(d, c) && IsDescendant(d, c, s)
    ensures ByDefault(d, s, n) <==> EntersChild(d, s, c) && ByDefault(d, c, n)
  {
    assert IsDescendant(d, c, s);
    DefaultThrough(d, s, c, n);
    DescendantAfter(d, c, s);
  }

  /** No initial history node has anything recorded, so default entry is the declared one. */
  ghost predicate InitialsUnrecorded(d: Definition, hist: Hist)
  {
    forall q: Node | q < |d.nodes| && Kind(d, q) == Compound && d.nodes[q].initial.Some?
      && InTree(d, d.nodes[q].initial.value) && Kind(d, d.nodes[q].initial.value) == History ::
      Unrecorded(hist, d.nodes[q].initial.value)
  }

  /** Entering a compound is entering that child. */
  lemma EntersEntryChild(d: Definition, hist: Hist, s: Node, E: set<Node>)
    requires WellFormed(d) && EntryReady(d, hist) && InitialsUnrecorded(d, hist)
    requires InTree(d, s) && Kind(d, s) == Compound
    ensures EntryChild(d, s).Some?
    ensures var c := EntryChild(d, s).value;
            && InTree(d, c) && c in Children(d, s) && Kind(d, c) != History
            && AddDescendants(d, hist, s, E) == AddDescendants(d, hist, c, E + {s})
  {
    Shape(d, s);
    var i := d.nodes[s].initial.value;
    assert i in Children(d, s) && Parent(d, i) == Some(s);
    InitialOnly(d, hist, s, i, E);
    if Kind(d, i) == History { UnrecordedRestores(d, hist, i, E + {s}); }
  }

  /** The subtree of s in R is what default entry of s makes active. */
  ghost predicate DefaultIn(d: Definition, R: set<Node>, s: Node)
    requires IsTree(d)
  {
    forall n: Node | InSubtree(d, n, s) :: n in R <==> ByDefault(d, s, n)
  }

  /** Entering a state whose subtree is untouched enters exactly what is active by default. */
  lemma {:induction false} DescendantsExactly(d: Definition, hist: Hist, s: Node, E: set<Node>)
    requires WellFormed(d) && EntryReady(d, hist) && InitialsUnrecorded(d, hist)
    requires InTree(d, s) && Kind(d, s) != History && Clear(d, E, s)
    ensures DefaultIn(d, AddDescendants(d, hist, s, E), s)
    decreases |d.nodes| - Depth(d, s), 1
  {
    hide WellFormed, EntryReady, InitialsUnrecorded, Grown, EntersChild, ByDefault;
    Shape(d, s);
    var R, E1 := AddDescendants(d, hist, s, E), E + {s};
    ClearInside(d, E, s);
    DescendantsGrow(d, hist, s, E);
    if Kind(d, s) == Compound {
      EntersEntryChild(d, hist, s, E);
      var c := EntryChild(d, s).value;
      ChildDescends(d, s, c);
      DescendantsExactly(d, hist, c, E1);
      DescendantsGrow(d, hist, c, E1);
      forall n: Node | InSubtree(d, n, s) ensures n in R <==> ByDefault(d, s, n) {
        if n == s { DefaultItself(d, s); } else { OneChildEntered(d, E1, R, s, c, n); }
      }
    } else if Kind(d, s) == Parallel {
      RegionsExactly(d, hist, s, Children(d, s), E1);
      RegionsGrow(d, hist, s, Children(d, s), E1);
      forall n: Node | InSubtree(d, n, s) ensures n in R <==> ByDefault(d, s, n) {
        if n == s { DefaultItself(d, s); } else { AllChildrenEntered(d, R, s, n); }
      }
    } else {
      LeafHasNothingBelow(d, s);
      DefaultItself(d, s);
    }
  }

  lemma DefaultItself(d: Definition, s: Node)
    requires IsTree(d)
    ensures ByDefault(d, s, s)
  {
  }

  /** What is clear of s stays clear of everything below s when s is added. */
  lemma ClearInside(d: Definition, E: set<Node>, s: Node)
    requires IsTree(d) && InTree(d, s) && Clear(d, E, s)
    ensures Vacant(d, E + {s}, s) && forall c | c in Children(d, s) :: Clear(d, E + {s}, c)
  {
    forall n | n in E + {s} ensures !IsDescendant(d, n, s) { if IsDescendant(d, n, s) { DescendantAfter(d, n, s); } }
    forall c, n | c in Children(d, s) && n in E + {s} ensures !InSubtree(d, n, c) {
      assert IsDescendant(d, c, s);
      if InSubtree(d, n, c) && n != c { DescendantTransitive(d, n, c, s); }
    }
  }

  lemma OneChildEntered(d: Definition, E: set<Node>, R: set<Node>, s: Node, c: Node, n: Node)
    requires IsTree(d) && InTree(d, s) && Kind(d, s) == Compound && EntryChild(d, s) == Some(c) && c in Children(d, s)
    requires Vacant(d, E, s) && DefaultIn(d, R, c) && IsDescendant(d, n, s)
    requires forall m | m in R && m !in E :: InSubtree(d, m, c)
    ensures n in R <==> ByDefault(d, s, n)
  {
    var o := ChildTowards(d, n, s);
    DefaultChild(d, s, o, n);
    if o != c && n in R { ChildrenDisjoint(d, s, c, o, n); }
  }

  lemma AllChildrenEntered(d: Definition, R: set<Node>, s: Node, n: Node)
    requires IsTree(d) && InTree(d, s) && Kind(d, s) == Parallel && IsDescendant(d, n, s)
    requires forall c | c in Children(d, s) :: DefaultIn(d, R, c)
    ensures n in R <==> ByDefault(d, s, n)
  {
    var o := ChildTowards(d, n, s);
    DefaultChild(d, s, o, n);
  }

  /** Entering regions enters the untouched ones by default. */
  lemma {:induction false} RegionsExactly(d: Definition, hist: Hist, p: Node, cs: seq<Node>, E: set<Node>)
    requires WellFormed(d) && EntryReady(d, hist) && InitialsUnrecorded(d, hist)
    requires InTree(d, p) && Kind(d, p) == Parallel && p in E && forall c | c in cs :: c in Children(d, p)
    ensures forall c | c in cs && Clear(d, E, c) :: DefaultIn(d, AddRegions(d, hist, p, cs, E), c)
    decreases |d.nodes| - Depth(d, p) - 1, 4, |cs|
  {
    hide WellFormed, EntryReady, InitialsUnrecorded, Grown, ByDefault, DefaultIn, Clear;
    if cs == [] {
    } else {
      Shape(d, p);
      var c0 := cs[0];
      assert c0 in Children(d, p) && IsDescendant(d, c0, p);
      HasDescendantMeaning(d, c0, E);
      if HasDescendantInSet(d, c0, E) {
        RegionsExactly(d, hist, p, cs[1..], E);
      } else {
        var F := AddDescendants(d, hist, c0, E);
        DescendantsExactly(d, hist, c0, E);
        DescendantsGrow(d, hist, c0, E);
        GrownMore(d, E, F, Parent(d, c0));
        RegionsExactly(d, hist, p, cs[1..], F);
        RegionsGrow(d, hist, p, cs[1..], F);
        var R := AddRegions(d, hist, p, cs[1..], F);
        NowTouched(d, F, c0);
        SameDefault(d, F, R, c0);
        forall c | c in cs && c != c0 && Clear(d, E, c) ensures DefaultIn(d, R, c) {
          StillClear(d, p, c0, c, E, F);
        }
      }
    }
  }

  lemma NowTouched(d: Definition, F: set<Node>, c: Node)
    requires IsTree(d) && c in F
    ensures !Clear(d, F, c)
  {
    assert InSubtree(d, c, c);
  }

  lemma SameDefault(d: Definition, F: set<Node>, R: set<Node>, c: Node)
    requires IsTree(d) && DefaultIn(d, F, c) && AgreeIn(d, F, R, c)
    ensures DefaultIn(d, R, c)
  {
  }

  lemma StillClear(d: Definition, p: Node, c0: Node, c: Node, E: set<Node>, F: set<Node>)
    requires IsTree(d) && InTree(d, p) && c0 in Children(d, p) && c in Children(d, p) && c != c0 && Clear(d, E, c)
    requires forall n | n in F && n !in E :: InSubtree(d, n, c0)
    ensures Clear(d, F, c)
  {
    forall n | n in F ensures !InSubtree(d, n, c) {
      if InSubtree(d, n, c) && n !in E { ChildrenDisjoint(d, p, c0, c, n); }
    }
  }

  // ------------------------------------------------------------------ one target

  /** c is a region of a parallel above g, and g is not in it. */
  predicate Beside(d: Definition, g: Node, c: Node)
    requires IsTree(d)
  {
    && InTree(d, c) && Parent(d, c).Some? && InTree(d, Parent(d, c).value) && Kind(d, Parent(d, c).value) == Parallel
    && IsDescendant(d, g, Parent(d, c).value) && !InSubtree(d, g, c)
  }

  /** n becomes active for the sake of g: it is g or above it, or active by default below g or
      below a region beside g. */
  ghost predicate EnteredFor(d: Definition, g: Node, n: Node)
    requires IsTree(d)
  {
    InSubtree(d, g, n) || ByDefault(d, g, n) || exists c: Node :: Beside(d, g, c) && ByDefault(d, c, n)
  }

  lemma {:induction false} DefaultBelow(d: Definition, s: Node, n: Node)
    requires IsTree(d) && ByDefault(d, s, n)
    ensures InSubtree(d, n, s)
  {
  }

  /** Below g itself only default entry counts. */
  lemma EnteredInside(d: Definition, g: Node, n: Node)
    requires IsTree(d) && InTree(d, g) && InSubtree(d, n, g)
    ensures EnteredFor(d, g, n) <==> ByDefault(d, g, n)
  {
    if InSubtree(d, g, n) && n != g { OutsideItself(d, n, g); }
    if c: Node :| Beside(d, g, c) && ByDefault(d, c, n) {
      DefaultBelow(d, c, n);
      var q := Parent(d, c).value;
      assert IsDescendant(d, c, q);
      if n != g && n != c { AncestorsLinear(d, n, g, c); }
      if IsDescendant(d, c, g) {
        assert InSubtree(d, q, g);
        OutsideItself(d, g, q);
        assert false;
      }
    }
  }

  /** In another child of a node above g it is default entry of that child, if the node is a parallel. */
  lemma EnteredBeside(d: Definition, g: Node, p: Node, c: Node, n: Node)
    requires IsTree(d) && InTree(d, p) && c in Children(d, p) && IsDescendant(d, g, p) && !InSubtree(d, g, c)
    requires InSubtree(d, n, c)
    ensures EnteredFor(d, g, n) <==> Kind(d, p) == Parallel && ByDefault(d, c, n)
  {
    assert IsDescendant(d, c, p);
    if Kind(d, p) == Parallel { assert Beside(d, g, c); }
    if InSubtree(d, g, n) { if g != n && n != c { DescendantTransitive(d, g, n, c); } }
    if ByDefault(d, g, n) {
      DefaultBelow(d, g, n);
      NotInBoth(d, g, p, c, n);
    }
    if b: Node :| Beside(d, g, b) && ByDefault(d, b, n) {
      DefaultBelow(d, b, n);
      OnlyBeside(d, g, p, c, b, n);
    }
  }

  lemma NotInBoth(d: Definition, g: Node, p: Node, c: Node, n: Node)
    requires IsTree(d) && InTree(d, p) && c in Children(d, p) && IsDescendant(d, g, p) && !InSubtree(d, g, c)
    requires InSubtree(d, n, c)
    ensures !InSubtree(d, n, g)
  {
    if InSubtree(d, n, g) {
      var o := ChildTowards(d, g, p);
      if n != g && g != o { DescendantTransitive(d, n, g, o); }
      if n != g { ChildrenDisjoint(d, p, c, o, n); }
    }
  }

  lemma OnlyBeside(d: Definition, g: Node, p: Node, c: Node, b: Node, n: Node)
    requires IsTree(d) && InTree(d, p) && c in Children(d, p) && IsDescendant(d, g, p) && !InSubtree(d, g, c)
    requires InSubtree(d, n, c) && InSubtree(d, n, b) && Beside(d, g, b)
    ensures b == c
  {
    var q := Parent(d, b).value;
    assert IsDescendant(d, c, p) && IsDescendant(d, b, q);
    if b != c {
      if n != b && n != c { AncestorsLinear(d, n, b, c); }
      if IsDescendant(d, b, c) {
        assert InSubtree(d, q, c);
        if q != c { DescendantTransitive(d, g, q, c); }
      } else {
        assert InSubtree(d, p, b);
        if p != b { DescendantTransitive(d, g, p, b); }
      }
    }
  }

  /** The subtree of s in R is what becomes active there for the sake of g. */
  ghost predicate ExactIn(d: Definition, R: set<Node>, s: Node, g: Node)
    requires IsTree(d)
  {
    forall n: Node | InSubtree(d, n, s) :: n in R <==> EnteredFor(d, g, n)
  }

  ghost predicate ExactBelow(d: Definition, R: set<Node>, a: Node, g: Node)
    requires IsTree(d)
  {
    forall n: Node | IsDescendant(d, n, a) :: n in R <==> EnteredFor(d, g, n)
  }

  /** Below a only the subtree of s is touched. */
  ghost predicate OnlyIn(d: Definition, E: set<Node>, a: Node, s: Node)
    requires IsTree(d)
  {
    forall n | n in E && IsDescendant(d, n, a) :: InSubtree(d, n, s)
  }

  /** One step of the climb. */
  lemma {:induction false} StepExactly(d: Definition, hist: Hist, g: Node, s: Node, p: Node, a: Node, E: set<Node>)
    requires WellFormed(d) && EntryReady(d, hist) && InitialsUnrecorded(d, hist)
    requires InTree(d, s) && InTree(d, a) && Parent(d, s) == Some(p) && IsDescendant(d, p, a)
    requires InTree(d, g) && InSubtree(d, g, s) && s in E && ExactIn(d, E, s, g) && OnlyIn(d, E, a, s)
    ensures InTree(d, p) && p in StepUp(d, hist, p, E)
    ensures ExactIn(d, StepUp(d, hist, p, E), p, g) && OnlyIn(d, StepUp(d, hist, p, E), a, p)
  {
    hide WellFormed, EntryReady, InitialsUnrecorded, Grown, ByDefault, EnteredFor, StepUp, ExactIn, OnlyIn;
    Shape(d, p);
    assert s in Children(d, p) && IsDescendant(d, s, p);
    if g != s { DescendantTransitive(d, g, s, p); }
    var E1, F := E + {p}, StepUp(d, hist, p, E);
    NowTouched(d, E, s);
    DescendantAfter(d, p, a);
    StepGrows(d, hist, s, p, Some(a), E);
    OthersClear(d, E, a, p, s);
    if Kind(d, p) == Parallel { StepRegions(d, hist, p, E); } else { StepAlone(d, hist, p, E); }
    ExactOnPath(d, E, F, g, s, p);
    OnlyBelow(d, E, F, a, s, p);
  }

  lemma StepRegions(d: Definition, hist: Hist, p: Node, E: set<Node>)
    requires WellFormed(d) && EntryReady(d, hist) && InitialsUnrecorded(d, hist) && InTree(d, p)
    requires Kind(d, p) == Parallel
    ensures forall c | c in Children(d, p) && Clear(d, E + {p}, c) :: DefaultIn(d, StepUp(d, hist, p, E), c)
  {
    hide WellFormed, EntryReady, InitialsUnrecorded, DefaultIn, Clear;
    Shape(d, p);
    RegionsExactly(d, hist, p, Children(d, p), E + {p});
  }

  lemma StepAlone(d: Definition, hist: Hist, p: Node, E: set<Node>)
    requires IsTree(d) && EntryReady(d, hist) && InTree(d, p) && Kind(d, p) != Parallel
    ensures StepUp(d, hist, p, E) == E + {p}
  {
  }

  lemma OthersClear(d: Definition, E: set<Node>, a: Node, p: Node, s: Node)
    requires IsTree(d) && InTree(d, p) && s in Children(d, p) && IsDescendant(d, p, a) && OnlyIn(d, E, a, s)
    ensures forall c | c in Children(d, p) && c != s :: Clear(d, E + {p}, c)
  {
    forall c, n | c in Children(d, p) && c != s && n in E + {p} ensures !InSubtree(d, n, c) {
      assert IsDescendant(d, c, p);
      if InSubtree(d, n, c) {
        if n != c { DescendantTransitive(d, n, c, p); }
        DescendantAfter(d, n, p);
        DescendantTransitive(d, n, p, a);
        ChildrenDisjoint(d, p, c, s, n);
      }
    }
  }

  lemma ExactOnPath(d: Definition, E: set<Node>, F: set<Node>, g: Node, s: Node, p: Node)
    requires IsTree(d) && InTree(d, p) && s in Children(d, p) && IsDescendant(d, g, p) && InTree(d, g)
    requires InSubtree(d, g, s) && ExactIn(d, E, s, g) && AgreeIn(d, E, F, s) && p in F
    requires forall c | c in Children(d, p) && c != s :: Clear(d, E + {p}, c)
    requires if Kind(d, p) == Parallel then forall c | c in Children(d, p) && Clear(d, E + {p}, c) :: DefaultIn(d, F, c)
             else F == E + {p}
    ensures ExactIn(d, F, p, g)
  {
    hide ByDefault, EnteredFor;
    forall n: Node | InSubtree(d, n, p) ensures n in F <==> EnteredFor(d, g, n) {
      if n == p {
        OnPath(d, g, p);
      } else {
        var c := ChildTowards(d, n, p);
        if c != s {
          if InSubtree(d, g, c) { ChildrenDisjoint(d, p, c, s, g); }
          EnteredBeside(d, g, p, c, n);
        }
      }
    }
  }

  lemma OnPath(d: Definition, g: Node, p: Node)
    requires IsTree(d) && InSubtree(d, g, p)
    ensures EnteredFor(d, g, p)
  {
  }

  lemma OnlyBelow(d: Definition, E: set<Node>, F: set<Node>, a: Node, s: Node, p: Node)
    requires IsTree(d) && IsDescendant(d, s, p) && OnlyIn(d, E, a, s) && Grown(d, E + {p}, F, Some(p))
    ensures OnlyIn(d, F, a, p)
  {
    forall n | n in F && IsDescendant(d, n, a) ensures InSubtree(d, n, p) {
      if n in E {
        if n != s { DescendantTransitive(d, n, s, p); }
      } else if n != p {
        assert Hangs(d, F, Some(p), n);
      }
    }
  }

  /** A climb to a compound leaves below it exactly what becomes active for the sake of g. */
  lemma {:induction false} ClimbExactly(d: Definition, hist: Hist, g: Node, s: Node, a: Node, E: set<Node>)
    requires WellFormed(d) && EntryReady(d, hist) && InitialsUnrecorded(d, hist)
    requires InTree(d, s) && InTree(d, a) && IsDescendant(d, s, a) && Kind(d, a) == Compound
    requires InTree(d, g) && InSubtree(d, g, s) && s in E && ExactIn(d, E, s, g) && OnlyIn(d, E, a, s)
    ensures ExactBelow(d, AddAncestors(d, hist, s, Some(a), E), a, g)
    decreases s
  {
    hide WellFormed, EntryReady, InitialsUnrecorded, EnteredFor, StepUp, ExactIn, OnlyIn;
    TreeInOrder(d);
    ClimbUnfold(d, hist, s, a, E);
    var p := Parent(d, s).value;
    if p == a {
      ClimbEnds(d, E, g, s, a);
    } else {
      StepExactly(d, hist, g, s, p, a, E);
      assert IsDescendant(d, s, p);
      if g != s { DescendantTransitive(d, g, s, p); }
      DescendantAfter(d, s, p);
      ClimbExactly(d, hist, g, p, a, StepUp(d, hist, p, E));
    }
  }

  lemma ClimbEnds(d: Definition, E: set<Node>, g: Node, s: Node, a: Node)
    requires IsTree(d) && InTree(d, s) && InTree(d, a) && Parent(d, s) == Some(a) && Kind(d, a) == Compound
    requires InTree(d, g) && InSubtree(d, g, s) && ExactIn(d, E, s, g) && OnlyIn(d, E, a, s)
    ensures ExactBelow(d, E, a, g)
  {
    hide EnteredFor;
    assert s in Children(d, a) && IsDescendant(d, s, a);
    if g != s { DescendantTransitive(d, g, s, a); }
    forall n: Node | IsDescendant(d, n, a) ensures n in E <==> EnteredFor(d, g, n) {
      var c := ChildTowards(d, n, a);
      if c != s {
        if InSubtree(d, g, c) { ChildrenDisjoint(d, a, c, s, g); }
        if n in E { ChildrenDisjoint(d, a, c, s, n); }
        EnteredBeside(d, g, a, c, n);
      }
    }
  }

  /** Entering a target in an untouched compound. */
  lemma TargetExactly(d: Definition, hist: Hist, g: Node, a: Node, E: set<Node>)
    requires WellFormed(d) && EntryReady(d, hist) && InitialsUnrecorded(d, hist)
    requires InTree(d, g) && Kind(d, g) != History && InTree(d, a) && IsDescendant(d, g, a) && Kind(d, a) == Compound
    requires Vacant(d, E, a)
    ensures ExactBelow(d, AddAncestors(d, hist, g, Some(a), AddDescendants(d, hist, g, E)), a, g)
  {
    hide WellFormed, EntryReady, InitialsUnrecorded, EnteredFor, ByDefault, Grown;
    TreeInOrder(d);
    var F := AddDescendants(d, hist, g, E);
    ClearUnder(d, E, g, a);
    DescendantsExactly(d, hist, g, E);
    DescendantsGrow(d, hist, g, E);
    forall n: Node | InSubtree(d, n, g) ensures n in F <==> EnteredFor(d, g, n) { EnteredInside(d, g, n); }
    ClimbExactly(d, hist, g, g, a, F);
  }

  /** The node that a target stands for: of a history node the one node that it restores. */
  function Goal(d: Definition, hist: Hist, g: Node): Node
    requires InTree(d, g)
  {
    if Kind(d, g) == History && RestoreOf(d, hist, g) != [] then RestoreOf(d, hist, g)[0] else g
  }

  /** Entering a history node that restores one node is entering that node. */
  lemma HistoryExactly(d: Definition, hist: Hist, h: Node, a: Node, E: set<Node>)
    requires WellFormed(d) && EntryReady(d, hist) && InitialsUnrecorded(d, hist)
    requires InTree(d, h) && Kind(d, h) == History && |RestoreOf(d, hist, h)| == 1
    requires InTree(d, a) && IsDescendant(d, h, a) && Kind(d, a) == Compound && Vacant(d, E, a)
    ensures ExactBelow(d, AddAncestors(d, hist, h, Some(a), AddDescendants(d, hist, h, E)), a, Goal(d, hist, h))
  {
    hide WellFormed, EntryReady, InitialsUnrecorded, EnteredFor, Grown;
    Shape(d, h);
    var x, p := Goal(d, hist, h), Parent(d, h).value;
    OneRestored(d, hist, h, E);
    var F := AddDescendants(d, hist, h, E);
    if p != a { ClearOfAncestor(d, E, p, a); }
    TargetExactly(d, hist, x, p, E);
    ClimbUnfold(d, hist, h, a, F);
    if p != a {
      StepAlone(d, hist, p, F);
      EntersRestored(d, hist, h, E);
      RestoredGrow(d, hist, h, RestoreOf(d, hist, h), E);
      ParentExact(d, E, F, x, p, a);
      ClimbExactly(d, hist, x, p, a, F + {p});
    }
  }

  lemma OneRestored(d: Definition, hist: Hist, h: Node, E: set<Node>)
    requires IsTree(d) && EntryReady(d, hist) && InTree(d, h) && Kind(d, h) == History && |RestoreOf(d, hist, h)| == 1
    ensures var x := Goal(d, hist, h);
            && Restorable(d, h, x)
            && AddDescendants(d, hist, h, E)
               == AddAncestors(d, hist, x, Parent(d, h), AddDescendants(d, hist, x, E))
  {
    var x := RestoreOf(d, hist, h)[0];
    assert RestoreOf(d, hist, h) == [x] && x in RestoreOf(d, hist, h) && [x][1..] == [];
    FirstClimbIs(d, hist, h, E);
    var F := FirstClimb(d, hist, h, E);
    assert AddRestored(d, hist, h, [x], E) == AddRestored(d, hist, h, [], F) == F;
  }

  lemma ParentExact(d: Definition, E: set<Node>, F: set<Node>, x: Node, p: Node, a: Node)
    requires IsTree(d) && InTree(d, x) && IsDescendant(d, x, p) && IsDescendant(d, p, a)
    requires Vacant(d, E, a) && Grown(d, E, F, Some(p)) && ExactBelow(d, F, p, x)
    ensures ExactIn(d, F + {p}, p, x) && OnlyIn(d, F + {p}, a, p)
  {
    hide EnteredFor;
    OnPath(d, x, p);
    forall n: Node | InSubtree(d, n, p) ensures n in F + {p} <==> EnteredFor(d, x, n) {
      if n != p { DescendantAfter(d, n, p); }
    }
    forall n | n in F + {p} && IsDescendant(d, n, a) ensures InSubtree(d, n, p) {
      if n in F { assert Hangs(d, F, Some(p), n); }
    }
  }

  // ------------------------------------------------------------------ one microstep

  /** The target, if there is one, stands for one node. */
  predicate OneGoal(d: Definition, hist: Hist, t: Transition)
  {
    forall g | g in t.targets && InTree(d, g) && Kind(d, g) == History :: |RestoreOf(d, hist, g)| == 1
  }

  /** n lies below the domain of t and becomes active for the sake of its target. */
  ghost predicate EnteredBy(d: Definition, hist: Hist, t: Transition, n: Node)
    requires IsTree(d)
  {
    && t.targets != [] && InTree(d, t.targets[0]) && Domain(d, t).Some? && IsDescendant(d, n, Domain(d, t).value)
    && EnteredFor(d, Goal(d, hist, t.targets[0]), n)
  }

  lemma TransitionExactly(d: Definition, hist: Hist, t: Transition, E: set<Node>)
    requires WellFormed(d) && EntryReady(d, hist) && InitialsUnrecorded(d, hist) && OneGoal(d, hist, t)
    requires InTree(d, t.source) && EdgeOk(d, t.source, t) && EndsInTree(d, t) && !RootEdge(t) && t.targets != []
    requires Domain(d, t).Some? && Vacant(d, E, Domain(d, t).value)
    ensures forall n: Node | IsDescendant(d, n, Domain(d, t).value) ::
              n in AddTransition(d, hist, t, E) <==> EnteredBy(d, hist, t, n)
  {
    hide WellFormed, EntryReady, InitialsUnrecorded, EnteredFor, Domain;
    TreeInOrder(d);
    DomainOfTargeted(d, t);
    var g, a := t.targets[0], Domain(d, t).value;
    assert t.targets == [g] && g in t.targets;
    SingleTarget(d, hist, t, g, a, E);
    if Kind(d, g) == History { HistoryExactly(d, hist, g, a, E); } else { TargetExactly(d, hist, g, a, E); }
  }

  /** The configuration after a microstep, exactly: below the domains what becomes active for
      the sake of the targets, elsewhere what was active before. */
  lemma StagedExactly(d: Definition, hist: Hist, cfg: set<Node>, ts: seq<Transition>)
    requires WellFormed(d) && EntryReady(d, hist) && Rooted(d, cfg) && Selected(d, cfg, ts) && NoRootEdges(ts)
    requires InitialsUnrecorded(d, hist) && forall t | t in ts :: OneGoal(d, hist, t)
    ensures forall t | t in ts :: EndsInTree(d, t)
    ensures forall n: Node :: n in StagedConfiguration(d, hist, cfg, ts) <==>
              if BelowDomain(d, ts, n) then exists t :: t in ts && EnteredBy(d, hist, t, n) else n in cfg
  {
    hide WellFormed, EntryReady, Selected, InitialsUnrecorded, EnteredBy, Domain, Rooted;
    TreeInOrder(d);
    SelectedReady(d, cfg, ts);
    MicrostepLocal(d, hist, cfg, ts);
    forall n: Node | BelowDomain(d, ts, n)
      ensures n in EntrySetOf(d, hist, ts) <==> exists t :: t in ts && EnteredBy(d, hist, t, n)
    {
      var t :| t in ts && Domain(d, t).Some? && IsDescendant(d, n, Domain(d, t).value);
      EnteredByItself(d, hist, cfg, ts, t, n);
      forall u | u in ts && EnteredBy(d, hist, u, n) ensures EnteredBy(d, hist, t, n) {
        SameDomain(d, hist, ts, t, u, n);
      }
    }
  }

  lemma EnteredByItself(d: Definition, hist: Hist, cfg: set<Node>, ts: seq<Transition>, t: Transition, n: Node)
    requires WellFormed(d) && EntryReady(d, hist) && Selected(d, cfg, ts) && NoRootEdges(ts)
    requires InitialsUnrecorded(d, hist) && (forall u | u in ts :: OneGoal(d, hist, u) && EndsInTree(d, u))
    requires t in ts && Domain(d, t).Some? && IsDescendant(d, n, Domain(d, t).value)
    ensures n in EntrySetOf(d, hist, ts) <==> EnteredBy(d, hist, t, n)
  {
    hide WellFormed, EntryReady, Selected, InitialsUnrecorded, EnteredBy;
    SelectedReady(d, cfg, ts);
    var Et := EntryWithin(d, hist, ts, {}, t);
    TransitionExactly(d, hist, t, Et);
  }

  lemma SameDomain(d: Definition, hist: Hist, ts: seq<Transition>, t: Transition, u: Transition, n: Node)
    requires IsTree(d) && DomainsApart(d, ts) && t in ts && u in ts && EnteredBy(d, hist, u, n)
    requires Domain(d, t).Some? && IsDescendant(d, n, Domain(d, t).value)
    ensures t == u
  {
    hide EnteredFor, Domain;
    var i, j :| 0 <= i < |ts| && 0 <= j < |ts| && ts[i] == t && ts[j] == u;
    if i < j { ApartDisjoint(d, Domain(d, t).value, Domain(d, u).value, n); }
    if j < i { ApartDisjoint(d, Domain(d, u).value, Domain(d, t).value, n); }
  }

  // ------------------------------------------------------------------ start, steps and runs

  /** After start exactly those states are active that are so by default. */
  lemma StartedExactly(c: Chart, ctx: Ctx)
    requires WellFormed(c.d)
    ensures forall n: Node :: n in Started(c, ctx).cfg <==> InTree(c.d, n) && ByDefault(c.d, ROOT, n)
  {
    hide WellFormed, ByDefault, Legal;
    TreeInOrder(c.d);
    StartEnters(c);
    LegalNode(c.d, AddDescendants(c.d, map[], ROOT, {}), ROOT);
    DescendantsExactly(c.d, map[], ROOT, {});
    var E := AddDescendants(c.d, map[], ROOT, {});
    LegalRooted(c.d, E);
    assert {} - Members([]) + E == E;
    forall n: Node ensures n in E <==> InTree(c.d, n) && ByDefault(c.d, ROOT, n) {
      if InTree(c.d, n) && n != ROOT { AllUnderRoot(c.d, n); }
    }
  }

  /** The configuration that a step stages, exactly. */
  lemma StepStagesExactly(c: Chart, s: State)
    requires Runnable(c, s) && Step(c, s).1.Next? && NoRootEdges(Step(c, s).1.ms.transitions)
    requires InitialsUnrecorded(c.d, s.hist) && forall t | t in Step(c, s).1.ms.transitions :: OneGoal(c.d, s.hist, t)
    ensures IsTree(c.d)
    ensures var ms := Step(c, s).1.ms;
            forall n: Node :: n in ms.cfg <==>
              if BelowDomain(c.d, ms.transitions, n)
              then exists t :: t in ms.transitions && EnteredBy(c.d, s.hist, t, n)
              else n in s.cfg
  {
    hide Step, InitialsUnrecorded, EnteredBy, BelowDomain;
    RunnableTree(c, s);
    StepStages(c, s);
    StagedExactly(c.d, s.hist, s.cfg, Step(c, s).1.ms.transitions);
  }

  /** No microstep committed in the run exits p. */
  ghost predicate NeverExits(c: Chart, s: State, moves: seq<Move>, p: Node)
    requires Runnable(c, s)
    decreases |moves|
  {
    moves == [] ||
    (MoveRunnable(c, s, moves[0]);
     && (moves[0].Take? && Step(c, s).1.Next? ==> p !in Step(c, s).1.ms.exited)
     && NeverExits(c, Do(c, s, moves[0]), moves[1..], p))
  }

  lemma MoveRecordsNothing(c: Chart, s: State, m: Move, h: Node)
    requires Runnable(c, s) && InTree(c.d, h) && Kind(c.d, h) == History && Parent(c.d, h).Some? && h !in s.hist
    requires m.Take? && Step(c, s).1.Next? ==> Parent(c.d, h).value !in Step(c, s).1.ms.exited
    ensures h !in Do(c, s, m).hist
  {
    hide Step;
    StepStages(c, s);
    if m.Take? && Step(c, s).1.Next? { RecordAllMeaning(c.d, s.cfg, Step(c, s).1.ms.exited, s.hist); }
  }

  /** While its parent is never exited nothing is recorded at a history node. */
  lemma {:induction false} NothingRecorded(c: Chart, s: State, moves: seq<Move>, h: Node)
    requires Runnable(c, s) && InTree(c.d, h) && Kind(c.d, h) == History && Parent(c.d, h).Some? && h !in s.hist
    requires NeverExits(c, s, moves, Parent(c.d, h).value)
    ensures h !in Exec(c, s, moves).hist
    decreases |moves|
  {
    hide Runnable, Step, Do;
    if moves == [] {
    } else {
      MoveRunnable(c, s, moves[0]);
      MoveRecordsNothing(c, s, moves[0], h);
      NothingRecorded(c, Do(c, s, moves[0]), moves[1..], h);
    }
  }

  /** A history node targeted before its parent was ever exited: the step enters the parent and,
      of its children, the declared default and no other, with what entering that enters. */
  lemma FirstVisit(c: Chart, ctx: Ctx, moves: seq<Move>, h: Node) returns (g: Node)
    requires WellFormed(c.d) && InTree(c.d, h) && Kind(c.d, h) == History && Parent(c.d, h).Some?
    requires Runnable(c, Started(c, ctx)) && NeverExits(c, Started(c, ctx), moves, Parent(c.d, h).value)
    requires Targets(c, After(c, ctx, moves), h)
    ensures c.d.nodes[h].historyTo == [g] && InTree(c.d, g)
    ensures var s, p := After(c, ctx, moves), Parent(c.d, h).value;
            var cfg := Do(c, s, Take).cfg;
            && p in cfg && g in cfg && (forall o | o in Children(c.d, p) && o in cfg :: o == g)
            && AgreeIn(c.d, cfg, AddDescendants(c.d, s.hist, g, {}), g)
            && (InitialsUnrecorded(c.d, s.hist) ==> DefaultIn(c.d, cfg, g))
  {
    hide Step, InitialsUnrecorded, NeverExits, ByDefault, Targets, Started;
    StartedRunnable(c, ctx);
    var s, p := After(c, ctx, moves), Parent(c.d, h).value;
    NothingRecorded(c, Started(c, ctx), moves, h);
    Shape(c.d, h);
    g := c.d.nodes[h].historyTo[0];
    ChildDescends(c.d, p, g);
    var Et := DefaultRestored(c, s, h, g);
    MoveRunnable(c, s, Take);
    RootedUpward(c.d, Do(c, s, Take).cfg, g, p);
    OnlyChildBelow(c.d, Et, AddDescendants(c.d, s.hist, g, Et), p, g);
    assert forall o | o in Children(c.d, p) :: IsDescendant(c.d, o, p);
    ClearUnder(c.d, Et, g, p);
    AgreeDown(c.d, Do(c, s, Take).cfg, AddDescendants(c.d, s.hist, g, Et), p, g);
    DescendantsAgree(c.d, s.hist, g, Et, {});
    if InitialsUnrecorded(c.d, s.hist) { DescendantsExactly(c.d, s.hist, g, {}); }
  }

  lemma DefaultRestored(c: Chart, s: State, h: Node, g: Node) returns (Et: set<Node>)
    requires Runnable(c, s) && Targets(c, s, h) && InTree(c.d, h) && Kind(c.d, h) == History && Parent(c.d, h).Some?
    requires Unrecorded(s.hist, h) && c.d.nodes[h].historyTo == [g]
    ensures InTree(c.d, g) && Kind(c.d, g) != History && Vacant(c.d, Et, Parent(c.d, h).value)
    ensures AgreeBelow(c.d, Do(c, s, Take).cfg, AddDescendants(c.d, s.hist, g, Et), Parent(c.d, h).value)
    ensures forall n | n in AddDescendants(c.d, s.hist, g, Et) && n !in Et :: InSubtree(c.d, n, g)
    ensures g in AddDescendants(c.d, s.hist, g, Et)
  {
    hide Step;
    StepStages(c, s);
    var ms := Step(c, s).1.ms;
    var t :| t in ms.transitions && t.targets == [h];
    Et := HistoryTargetEnters(c.d, s.hist, s.cfg, ms.transitions, t, h);
    UnrecordedRestores(c.d, s.hist, h, Et);
    DescendantsGrow(c.d, s.hist, g, Et);
  }

  lemma OnlyChildBelow(d: Definition, E: set<Node>, R: set<Node>, p: Node, g: Node)
    requires IsTree(d) && InTree(d, p) && g in Children(d, p) && Vacant(d, E, p)
    requires forall n | n in R && n !in E :: InSubtree(d, n, g)
    ensures forall o | o in Children(d, p) && o in R :: o == g
  {
    forall o | o in Children(d, p) && o in R ensures o == g {
      assert IsDescendant(d, o, p);
      if o != g { ChildrenDisjoint(d, p, g, o, o); }
    }
  }
}
