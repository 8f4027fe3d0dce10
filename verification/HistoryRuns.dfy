/** History over whole runs: what a compound was doing when it was exited is what its
    history node brings back, however long it stayed inactive in between. */
module HistoryRuns {
  import opened Definitions
  import opened Configurations
  import opened Entry
  import opened Growth
  import opened Selection
  import opened Microsteps
  import opened Histories
  import opened Staging
  import opened Engines

  lemma ClearUnder(d: Definition, E: set<Node>, x: Node, p: Node)
    requires IsTree(d) && IsDescendant(d, x, p) && forall n | n in E :: !IsDescendant(d, n, p)
    ensures Clear(d, E, x)
  {
    forall n | n in E ensures !InSubtree(d, n, x) {
      if n != x && IsDescendant(d, n, x) { DescendantTransitive(d, n, x, p); }
    }
  }

  /** Whether a record settles can be told by restoring it into the empty set. */
  lemma SettlesExactly(d: Definition, hist: Hist, h: Node)
    requires WellFormed(d) && EntryReady(d, hist) && InTree(d, h) && Kind(d, h) == History && Parent(d, h).Some?
    requires RestoreOf(d, hist, h) != []
    ensures Settles(d, hist, h) <==> |RestoreOf(d, hist, h)| == 1 || Closes(d, hist, h, {})
  {
    var p := Parent(d, h).value;
    assert Vacant(d, {}, p);
    forall E | Vacant(d, E, p) ensures Closes(d, hist, h, E) <==> Closes(d, hist, h, {}) {
      ClosesAnywhere(d, hist, h, E, {});
    }
  }

  // ------------------------------------------------------------------ history targets inside a microstep

  /** Inside its domain the entry set is what one transition adds to a set that was clear there. */
  lemma {:induction false} EntryWithin(d: Definition, hist: Hist, ts: seq<Transition>, E: set<Node>, t: Transition)
    returns (Et: set<Node>)
    requires WellFormed(d) && EntryReady(d, hist) && NoRootEdges(ts)
    requires EdgesActive(d, ts) && (forall u | u in ts :: EndsInTree(d, u)) && DomainsApart(d, ts)
    requires forall n | n in E :: !BelowDomain(d, ts, n)
    requires t in ts && Domain(d, t).Some?
    ensures Vacant(d, Et, Domain(d, t).value)
    ensures forall n: Node | IsDescendant(d, n, Domain(d, t).value) ::
              n in EntrySetFrom(d, hist, ts, E) <==> n in AddTransition(d, hist, t, Et)
    decreases |ts|
  {
    var t0, rest := ts[0], ts[1..];
    assert t0 in ts;
    forall u | u in rest ensures u in ts { }
    assert DomainsApart(d, rest);
    var E1 := AddTransition(d, hist, t0, E);
    HeadStaysClear(d, hist, ts, E);
    if t in rest {
      Et := EntryWithin(d, hist, rest, E1, t);
    } else {
      Et := E;
      EntryGrowsFrom(d, hist, rest, E1);
      var a, R := Domain(d, t).value, EntrySetFrom(d, hist, rest, E1);
      assert NoRootEdges(rest);
      forall n | n in R && n !in E1 ensures BelowDomain(d, rest, n) { assert HangsFrom(d, rest, R, n); }
      forall n: Node | IsDescendant(d, n, a) ensures n in R <==> n in E1 {
        if BelowDomain(d, rest, n) {
          var u :| u in rest && Domain(d, u).Some? && IsDescendant(d, n, Domain(d, u).value);
          HeadApart(d, ts, u);
          ApartDisjoint(d, a, Domain(d, u).value, n);
        }
      }
    }
  }

  lemma HeadStaysClear(d: Definition, hist: Hist, ts: seq<Transition>, E: set<Node>)
    requires WellFormed(d) && EntryReady(d, hist) && ts != [] && NoRootEdges(ts)
    requires EdgesActive(d, ts) && (forall u | u in ts :: EndsInTree(d, u)) && DomainsApart(d, ts)
    requires forall n | n in E :: !BelowDomain(d, ts, n)
    ensures EndsInTree(d, ts[0])
    ensures forall n | n in AddTransition(d, hist, ts[0], E) :: !BelowDomain(d, ts[1..], n)
  {
    var t0, rest := ts[0], ts[1..];
    assert t0 in ts;
    forall u | u in rest ensures u in ts { }
    TransitionGrows(d, hist, t0, E);
    if t0.targets != [] { DomainOfTargeted(d, t0); }
    forall n | n in AddTransition(d, hist, t0, E) ensures !BelowDomain(d, rest, n) {
      if BelowDomain(d, rest, n) {
        var t :| t in rest && Domain(d, t).Some? && IsDescendant(d, n, Domain(d, t).value);
        HeadApart(d, ts, t);
        if n !in E { ApartDisjoint(d, Domain(d, t0).value, Domain(d, t).value, n); }
      }
    }
  }

  /** Climbing from a history node to a domain changes nothing below the parent of the node. */
  lemma ClimbFromHistory(d: Definition, hist: Hist, h: Node, p: Node, a: Node, E: set<Node>)
    requires WellFormed(d) && EntryReady(d, hist) && InTree(d, h) && Kind(d, h) == History && InTree(d, a)
    requires Parent(d, h) == Some(p) && IsDescendant(d, h, a)
    ensures AgreeBelow(d, E, AddAncestors(d, hist, h, Some(a), E), p)
  {
    Shape(d, h);
    ClimbUnfold(d, hist, h, a, E);
    if p != a {
      var F := E + {p};
      AncestorsGrow(d, hist, p, Some(a), F);
      assert InSubtree(d, p, p) && !Clear(d, F, p);
      forall n: Node | IsDescendant(d, n, p) ensures n in E <==> n in F { DescendantAfter(d, n, p); }
    }
  }

  /** A transition to a history child h of p puts below p exactly what entering h puts there. */
  lemma HistoryTargetEnters(d: Definition, hist: Hist, cfg: set<Node>, ts: seq<Transition>, t: Transition, h: Node)
    returns (Et: set<Node>)
    requires WellFormed(d) && EntryReady(d, hist) && Rooted(d, cfg) && Selected(d, cfg, ts) && NoRootEdges(ts)
    requires forall u | u in ts :: EndsInTree(d, u)
    requires t in ts && t.targets == [h] && Kind(d, h) == History
    requires Parent(d, h).Some?
    ensures Vacant(d, Et, Parent(d, h).value)
    ensures AgreeBelow(d, StagedConfiguration(d, hist, cfg, ts), AddDescendants(d, hist, h, Et), Parent(d, h).value)
  {
    var p := Parent(d, h).value;
    SelectedReady(d, cfg, ts);
    DomainOfTargeted(d, t);
    var a := Domain(d, t).value;
    Et := EntryWithin(d, hist, ts, {}, t);
    if a != p { ClearOfAncestor(d, Et, p, a); }
    ClimbFromHistory(d, hist, h, p, a, AddDescendants(d, hist, h, Et));
    SingleTarget(d, hist, t, h, a, Et);
    MicrostepLocal(d, hist, cfg, ts);
    forall n: Node | IsDescendant(d, n, p)
      ensures n in StagedConfiguration(d, hist, cfg, ts) <==> n in AddDescendants(d, hist, h, Et)
    {
      if a != p { DescendantTransitive(d, n, p, a); }
      assert BelowDomain(d, ts, n);
    }
  }

  lemma ClearOfAncestor(d: Definition, E: set<Node>, p: Node, a: Node)
    requires IsTree(d) && IsDescendant(d, p, a) && forall n | n in E :: !IsDescendant(d, n, a)
    ensures forall n | n in E :: !IsDescendant(d, n, p)
  {
    forall n | n in E ensures !IsDescendant(d, n, p) { if IsDescendant(d, n, p) { DescendantTransitive(d, n, p, a); } }
  }

  lemma SingleTarget(d: Definition, hist: Hist, t: Transition, g: Node, a: Node, E: set<Node>)
    requires IsTree(d) && EntryReady(d, hist) && EndsInTree(d, t) && t.targets == [g] && Domain(d, t) == Some(a)
    ensures InTree(d, a) && InTree(d, g) && IsDescendant(d, g, a)
    ensures AddTransition(d, hist, t, E) == AddAncestors(d, hist, g, Some(a), AddDescendants(d, hist, g, E))
  {
    DomainCovers(d, t);
    var E1 := AddDescendants(d, hist, g, E);
    var E2 := AddAncestors(d, hist, g, Some(a), E1);
    assert t.targets[1..] == [] && g in t.targets;
    assert AddTargets(d, hist, t.targets, E) == AddTargets(d, hist, [], E1) == E1;
    assert AddTargetAncestors(d, hist, t.targets, Some(a), E1) == AddTargetAncestors(d, hist, [], Some(a), E2) == E2;
  }

  // ------------------------------------------------------------------ runs

  /** p is inactive now and after each of the moves. */
  ghost predicate StaysInactive(c: Chart, s: State, moves: seq<Move>, p: Node)
    requires Runnable(c, s)
    decreases |moves|
  {
    && p !in s.cfg
    && (moves == [] || (MoveRunnable(c, s, moves[0]); StaysInactive(c, Do(c, s, moves[0]), moves[1..], p)))
  }

  lemma MoveRecords(c: Chart, s: State, m: Move)
    requires Runnable(c, s)
    ensures var hist := Do(c, s, m).hist;
            hist == s.hist || (Step(c, s).1.Next? && StagesMicrostep(c, s, Step(c, s).1.ms)
              && hist == Step(c, s).1.ms.hist)
  {
    hide Runnable, Step, StagesMicrostep;
    StepStages(c, s);
  }

  lemma MicrostepKeepsHistory(c: Chart, s: State, ms: Staged, h: Node)
    requires Runnable(c, s) && StagesMicrostep(c, s, ms) && h in s.hist && InTree(c.d, h)
    requires Parent(c.d, h).Some? && Parent(c.d, h).value !in s.cfg
    ensures h in ms.hist && ms.hist[h] == s.hist[h]
  {
    RecordAllMeaning(c.d, s.cfg, ms.exited, s.hist);
  }

  lemma MoveKeepsHistory(c: Chart, s: State, m: Move, h: Node)
    requires Runnable(c, s) && h in s.hist && InTree(c.d, h) && Parent(c.d, h).Some? && Parent(c.d, h).value !in s.cfg
    ensures h in Do(c, s, m).hist && Do(c, s, m).hist[h] == s.hist[h]
  {
    hide Runnable, Step, StagesMicrostep, Do;
    MoveRecords(c, s, m);
    if Step(c, s).1.Next? && StagesMicrostep(c, s, Step(c, s).1.ms) { MicrostepKeepsHistory(c, s, Step(c, s).1.ms, h); }
  }

  /** Stored history of an inactive state never changes. */
  lemma {:induction false} RunKeepsHistory(c: Chart, s: State, moves: seq<Move>, h: Node)
    requires Runnable(c, s) && h in s.hist && InTree(c.d, h) && Parent(c.d, h).Some?
    requires StaysInactive(c, s, moves, Parent(c.d, h).value)
    ensures h in Exec(c, s, moves).hist && Exec(c, s, moves).hist[h] == s.hist[h]
    ensures Parent(c.d, h).value !in Exec(c, s, moves).cfg
    decreases |moves|
  {
    hide Runnable, Do;
    if moves == [] {
    } else {
      MoveRunnable(c, s, moves[0]);
      MoveKeepsHistory(c, s, moves[0], h);
      RunKeepsHistory(c, Do(c, s, moves[0]), moves[1..], h);
    }
  }

  /** From s a microstep is committed that exits p, the parent of h. */
  ghost predicate ExitsParentOf(c: Chart, s: State, h: Node)
    requires Runnable(c, s)
  {
    && InTree(c.d, h) && Kind(c.d, h) == History && Parent(c.d, h).Some?
    && Step(c, s).1.Next? && Parent(c.d, h).value in Step(c, s).1.ms.exited
  }

  /** From s a microstep is committed that takes a transition to h, and none of the root. */
  ghost predicate Targets(c: Chart, s: State, h: Node)
    requires Runnable(c, s)
  {
    && Step(c, s).1.Next? && NoRootEdges(Step(c, s).1.ms.transitions)
    && exists t | t in Step(c, s).1.ms.transitions :: t.targets == [h]
  }

  /** The state in which the transition to the history node is taken. */
  ghost function Away(c: Chart, s0: State, moves: seq<Move>): (s2: State)
    requires Runnable(c, s0)
    ensures Runnable(c, s2)
  {
    MoveRunnable(c, s0, Take);
    Exec(c, Do(c, s0, Take), moves)
  }

  /** The whole story: p is exited from a legal configuration, stays inactive for any number
      of moves, and is then re-entered through its history node h. */
  ghost predicate LeavesAndReturns(c: Chart, s0: State, moves: seq<Move>, h: Node)
    requires Runnable(c, s0)
  {
    && Legal(c.d, s0.cfg) && ExitsParentOf(c, s0, h)
    && (MoveRunnable(c, s0, Take); StaysInactive(c, Do(c, s0, Take), moves, Parent(c.d, h).value))
    && Targets(c, Away(c, s0, moves), h)
  }

  lemma ExitRecords(c: Chart, s0: State, h: Node)
    requires Runnable(c, s0) && ExitsParentOf(c, s0, h)
    ensures Parent(c.d, h).value in s0.cfg
    ensures h in Do(c, s0, Take).hist
    ensures Do(c, s0, Take).hist[h] == Recorded(c.d, s0.cfg, Parent(c.d, h).value, h)
  {
    StepStages(c, s0);
    var ms := Step(c, s0).1.ms;
    RecordAllMeaning(c.d, s0.cfg, ms.exited, s0.hist);
    assert HistoryOfExited(c.d, ms.exited, h);
  }

  lemma ReturnEnters(c: Chart, s0: State, moves: seq<Move>, h: Node) returns (Et: set<Node>)
    requires Runnable(c, s0) && LeavesAndReturns(c, s0, moves, h)
    ensures Parent(c.d, h).value in s0.cfg
    ensures h in Away(c, s0, moves).hist
    ensures Away(c, s0, moves).hist[h] == Recorded(c.d, s0.cfg, Parent(c.d, h).value, h)
    ensures Vacant(c.d, Et, Parent(c.d, h).value)
    ensures var s2 := Away(c, s0, moves);
            AgreeBelow(c.d, Do(c, s2, Take).cfg, AddDescendants(c.d, s2.hist, h, Et), Parent(c.d, h).value)
  {
    MoveRunnable(c, s0, Take);
    ExitRecords(c, s0, h);
    var s1, s2 := Do(c, s0, Take), Away(c, s0, moves);
    RunKeepsHistory(c, s1, moves, h);
    StepStages(c, s2);
    var ms := Step(c, s2).1.ms;
    var t :| t in ms.transitions && t.targets == [h];
    Et := HistoryTargetEnters(c.d, s2.hist, s2.cfg, ms.transitions, t, h);
  }

  /** Deep history over runs, exactly: returning restores the sub-configuration that was
      active when the parent was exited if and only if restoring the first recorded leaf enters
      no leaves but the recorded ones.  With one recorded leaf it always does.  If the history
      nodes inside restore properly, that is to say that it already enters all the others. */
  lemma DeepHistoryRoundTrip(c: Chart, s0: State, moves: seq<Move>, h: Node)
    requires Runnable(c, s0) && LeavesAndReturns(c, s0, moves, h) && c.d.nodes[h].historyKind == Deep
    ensures var p, s2 := Parent(c.d, h).value, Away(c, s0, moves);
            var s3 := Do(c, s2, Take);
            && p in s3.cfg && h in s2.hist
            && RestoreOf(c.d, s2.hist, h) == s2.hist[h] == Recorded(c.d, s0.cfg, p, h) != []
            && (AgreeBelow(c.d, s3.cfg, s0.cfg, p) <==> EntersRecorded(c.d, s2.hist, h, {}))
            && (|s2.hist[h]| == 1 ==> AgreeBelow(c.d, s3.cfg, s0.cfg, p))
            && (HistoryOkUnder(c.d, s2.hist, p) ==>
                  (AgreeBelow(c.d, s3.cfg, s0.cfg, p) <==> Closes(c.d, s2.hist, h, {})))
  {
    hide EntersRecorded, Closes, HistoryOkUnder, Filled, Step, Legal;
    var s2, p := Away(c, s0, moves), Parent(c.d, h).value;
    var s3 := Do(c, s2, Take);
    var Et := ReturnEnters(c, s0, moves, h);
    DeepRestores(c.d, s2.hist, h, s0.cfg, Et);
    DeepRestoresAtLeast(c.d, s2.hist, h, s0.cfg, Et);
    assert AgreeBelow(c.d, Et, {}, p);
    ClosesAnywhere(c.d, s2.hist, h, Et, {});
    RecordedAnywhere(c.d, s2.hist, h, Et, {});
    var leaf := s2.hist[h][0];
    assert Restorable(c.d, h, leaf) && leaf in s2.hist[h];
    MoveRunnable(c, s2, Take);
    RootedUpward(c.d, s3.cfg, leaf, p);
  }

  lemma RecordedAnywhere(d: Definition, hist: Hist, h: Node, E: set<Node>, G: set<Node>)
    requires WellFormed(d) && EntryReady(d, hist) && InTree(d, h) && Kind(d, h) == History && Parent(d, h).Some?
    requires RestoreOf(d, hist, h) != [] && AgreeBelow(d, E, G, Parent(d, h).value)
    ensures EntersRecorded(d, hist, h, E) <==> EntersRecorded(d, hist, h, G)
  {
    hide WellFormed, EntryReady, FirstClimb;
    FirstClimbAgrees(d, hist, h, E, G);
  }

  /** On a tame chart the round trip always succeeds. */
  lemma TameDeepRoundTrip(c: Chart, s0: State, moves: seq<Move>, h: Node)
    requires Sound(c, s0) && LeavesAndReturns(c, s0, moves, h) && c.d.nodes[h].historyKind == Deep
    ensures AgreeBelow(c.d, Do(c, Away(c, s0, moves), Take).cfg, s0.cfg, Parent(c.d, h).value)
  {
    MoveSound(c, s0, Take);
    TameBenign(c, Do(c, s0, Take), moves);
    DeepHistoryRoundTrip(c, s0, moves, h);
  }

  /** Shallow history over runs: returning restores the child that was active when the
      parent was exited, and below that child exactly its default entry. */
  lemma ShallowHistoryRoundTrip(c: Chart, s0: State, moves: seq<Move>, h: Node) returns (x: Node)
    requires Runnable(c, s0) && LeavesAndReturns(c, s0, moves, h) && c.d.nodes[h].historyKind == Shallow
    ensures var p, s2 := Parent(c.d, h).value, Away(c, s0, moves);
            var s3 := Do(c, s2, Take);
            && InTree(c.d, x) && p in s3.cfg && x in Children(c.d, p) && x in s0.cfg && x in s3.cfg
            && forall n: Node | InSubtree(c.d, n, x) :: n in s3.cfg <==> n in AddDescendants(c.d, s2.hist, x, {})
  {
    var s2, p := Away(c, s0, moves), Parent(c.d, h).value;
    var s3 := Do(c, s2, Take);
    var Et := ReturnEnters(c, s0, moves, h);
    ShallowRestores(c.d, s2.hist, h, s0.cfg, Et);
    x := s2.hist[h][0];
    ChildDescends(c.d, p, x);
    ClearUnder(c.d, Et, x, p);
    DescendantsGrow(c.d, s2.hist, x, Et);
    DescendantsAgree(c.d, s2.hist, x, Et, {});
    forall n: Node | InSubtree(c.d, n, x) ensures n in s3.cfg <==> n in AddDescendants(c.d, s2.hist, x, {}) {
      if n != x { DescendantTransitive(c.d, n, x, p); }
    }
    MoveRunnable(c, s2, Take);
    RootedUpward(c.d, s3.cfg, x, p);
  }
}
