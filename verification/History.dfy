/** History: what a microstep records about the states it exits (microstep.go), and
    what a later transition to the history node restores. */
module Histories {
  import opened Definitions
  import opened Configurations
  import opened Entry
  import opened Growth
  import opened Coverage

  // ------------------------------------------------------------------ recording

  function LeavesBelow(d: Definition, q: seq<Node>, s: Node): seq<Node>
    requires IsTree(d)
  {
    if q == [] then []
    else (if IsLeaf(d, q[0]) && IsDescendant(d, q[0], s) then [q[0]] else []) + LeavesBelow(d, q[1..], s)
  }

  function ActiveOf(q: seq<Node>, cfg: set<Node>): seq<Node>
  {
    if q == [] then [] else (if q[0] in cfg then [q[0]] else []) + ActiveOf(q[1..], cfg)
  }

  /** What history node h of s records: the active leaves below s, or its active children. */
  function Recorded(d: Definition, cfg: set<Node>, s: Node, h: Node): seq<Node>
    requires IsTree(d) && InTree(d, s) && InTree(d, h)
  {
    if d.nodes[h].historyKind == Deep then LeavesBelow(d, AllActive(d, cfg), s) else ActiveOf(Children(d, s), cfg)
  }

  function RecordInto(d: Definition, cfg: set<Node>, s: Node, hs: seq<Node>, hist: Hist): Hist
    requires IsTree(d) && InTree(d, s) && forall h | h in hs :: InTree(d, h)
  {
    if hs == [] then hist
    else
      assert hs[0] in hs;
      RecordInto(d, cfg, s, hs[1..], if Kind(d, hs[0]) == History then hist[hs[0] := Recorded(d, cfg, s, hs[0])]
        else hist)
  }

  function RecordAll(d: Definition, cfg: set<Node>, exits: seq<Node>, hist: Hist): Hist
    requires IsTree(d) && forall s | s in exits :: InTree(d, s)
  {
    if exits == [] then hist
    else
      assert exits[0] in exits;
      RecordAll(d, cfg, exits[1..], RecordInto(d, cfg, exits[0], Children(d, exits[0]), hist))
  }

  /** h is a history node of a state that is being exited. */
  predicate HistoryOfExited(d: Definition, exits: seq<Node>, h: Node)
  {
    InTree(d, h) && Kind(d, h) == History && Parent(d, h).Some? && Parent(d, h).value in exits
  }

  lemma {:induction false} RecordIntoMeaning(d: Definition, cfg: set<Node>, s: Node, hs: seq<Node>, hist: Hist)
    requires IsTree(d) && InTree(d, s) && forall h | h in hs :: InTree(d, h)
    ensures forall h: Node :: h in RecordInto(d, cfg, s, hs, hist) <==> h in hist || (h in hs && Kind(d, h) == History)
    ensures forall h | h in RecordInto(d, cfg, s, hs, hist) :: RecordInto(d, cfg, s, hs, hist)[h] ==
              if h in hs && Kind(d, h) == History then Recorded(d, cfg, s, h) else hist[h]
  {
    if hs == [] {
    } else {
      var h0 := hs[0];
      var hist' := if Kind(d, h0) == History then hist[h0 := Recorded(d, cfg, s, h0)] else hist;
      assert forall h :: h in hs <==> h == h0 || h in hs[1..];
      RecordIntoMeaning(d, cfg, s, hs[1..], hist');
    }
  }

  /** Exactly the histories of exited states are rewritten, all from the configuration
      before the microstep; every other entry stays. */
  lemma {:induction false} RecordAllMeaning(d: Definition, cfg: set<Node>, exits: seq<Node>, hist: Hist)
    requires IsTree(d) && forall s | s in exits :: InTree(d, s)
    ensures forall h: Node :: h in RecordAll(d, cfg, exits, hist) <==> h in hist || HistoryOfExited(d, exits, h)
    ensures forall h | h in RecordAll(d, cfg, exits, hist) :: RecordAll(d, cfg, exits, hist)[h] ==
              if HistoryOfExited(d, exits, h) then Recorded(d, cfg, Parent(d, h).value, h) else hist[h]
  {
    if exits == [] {
    } else {
      var s := exits[0];
      assert forall x :: x in exits <==> x == s || x in exits[1..];
      var hist' := RecordInto(d, cfg, s, Children(d, s), hist);
      RecordIntoMeaning(d, cfg, s, Children(d, s), hist);
      RecordAllMeaning(d, cfg, exits[1..], hist');
      forall h: Node ensures HistoryOfExited(d, exits, h) <==>
        HistoryOfExited(d, exits[1..], h) || (h in Children(d, s) && Kind(d, h) == History) { }
    }
  }

  lemma {:induction false} LeavesBelowMeaning(d: Definition, q: seq<Node>, s: Node)
    requires IsTree(d) && StrictlyAscending(q)
    ensures forall n: Node :: n in LeavesBelow(d, q, s) <==> n in q && IsLeaf(d, n) && IsDescendant(d, n, s)
    ensures StrictlyAscending(LeavesBelow(d, q, s))
  {
    if q == [] {
    } else {
      LeavesBelowMeaning(d, q[1..], s);
      var rest := LeavesBelow(d, q[1..], s);
      assert forall n :: n in q <==> n == q[0] || n in q[1..];
      forall i | 0 <= i < |rest| ensures q[0] < rest[i] { assert rest[i] in q[1..]; }
    }
  }

  lemma {:induction false} ActiveOfMeaning(q: seq<Node>, cfg: set<Node>)
    requires StrictlyAscending(q)
    ensures forall n: Node :: n in ActiveOf(q, cfg) <==> n in q && n in cfg
    ensures StrictlyAscending(ActiveOf(q, cfg))
  {
    if q == [] {
    } else {
      ActiveOfMeaning(q[1..], cfg);
      var rest := ActiveOf(q[1..], cfg);
      assert forall n :: n in q <==> n == q[0] || n in q[1..];
      forall i | 0 <= i < |rest| ensures q[0] < rest[i] { assert rest[i] in q[1..]; }
    }
  }

  lemma OneMember(q: seq<Node>, x: Node)
    requires StrictlyAscending(q) && forall n: Node :: n in q <==> n == x
    ensures q == [x]
  {
    SortedUnique(q, [x]);
  }

  /** From a legal configuration a shallow history records the active child, a deep one the
      active leaves below, at least one. */
  lemma RecordedOk(d: Definition, cfg: set<Node>, s: Node, h: Node)
    requires WellFormed(d) && Legal(d, cfg) && s in cfg
    requires InTree(d, h) && Kind(d, h) == History && Parent(d, h) == Some(s)
    ensures StoredOk(d, h, Recorded(d, cfg, s, h))
    ensures d.nodes[h].historyKind == Deep ==>
              forall l: Node :: l in Recorded(d, cfg, s, h) <==> l in cfg && IsLeaf(d, l) && IsDescendant(d, l, s)
    ensures d.nodes[h].historyKind == Shallow ==> Recorded(d, cfg, s, h)[0] in cfg
  {
    hide WellFormed, Legal, ActiveOf, LeavesBelow, AllActive, IsDescendant;
    Shape(d, h);
    LegalNode(d, cfg, s);
    Shape(d, s);
    if d.nodes[h].historyKind == Deep {
      var leaf := ActiveLeafBelow(d, cfg, s);
      RecordsLeaves(d, cfg, s);
      var rec := Recorded(d, cfg, s, h);
      assert leaf != s && leaf in rec;
      assert rec[0] in rec;
      assert forall x | x in rec :: InTree(d, x) && Kind(d, x) != History && IsDescendant(d, x, s);
    } else {
      var c :| c in Children(d, s) && c in cfg && OnlyActiveChild(d, cfg, s, c);
      ChildDescends(d, s, c);
      ActiveOfMeaning(Children(d, s), cfg);
      OneMember(ActiveOf(Children(d, s), cfg), c);
      LegalNode(d, cfg, c);
    }
  }

  /** Where no parallel lies below, a deep history records one leaf. */
  lemma RecordsOne(d: Definition, cfg: set<Node>, s: Node, h: Node)
    requires WellFormed(d) && Legal(d, cfg) && s in cfg
    requires InTree(d, h) && Kind(d, h) == History && Parent(d, h) == Some(s) && !HasParallelBelow(d, s)
    ensures |Recorded(d, cfg, s, h)| == 1
  {
    RecordedOk(d, cfg, s, h);
    Shape(d, h);
    if d.nodes[h].historyKind == Deep {
      var leaf := SinglePath(d, cfg, s);
      RecordsLeaves(d, cfg, s);
      OneMember(LeavesBelow(d, AllActive(d, cfg), s), leaf);
    }
  }

  lemma ChildDescends(d: Definition, p: Node, c: Node)
    requires IsTree(d) && InTree(d, p) && c in Children(d, p)
    ensures IsDescendant(d, c, p)
  {
  }

  lemma RecordsLeaves(d: Definition, cfg: set<Node>, s: Node)
    requires IsTree(d)
    ensures StrictlyAscending(LeavesBelow(d, AllActive(d, cfg), s))
    ensures forall l: Node ::
            l in LeavesBelow(d, AllActive(d, cfg), s) <==> l in cfg && IsLeaf(d, l) && IsDescendant(d, l, s)
  {
    AscendingSorted(cfg, |d.nodes|);
    LeavesBelowMeaning(d, AllActive(d, cfg), s);
  }

  /** Whatever the configuration, only restorable nodes are recorded. */
  lemma RecordedRestorable(d: Definition, cfg: set<Node>, s: Node, h: Node)
    requires WellFormed(d) && Rooted(d, cfg) && InTree(d, s)
    requires InTree(d, h) && Kind(d, h) == History && Parent(d, h) == Some(s)
    ensures forall x | x in Recorded(d, cfg, s, h) :: Restorable(d, h, x)
  {
    if d.nodes[h].historyKind == Deep {
      RecordsLeaves(d, cfg, s);
    } else {
      Shape(d, s);
      ActiveOfMeaning(Children(d, s), cfg);
    }
  }

  /** Recording keeps every stored node restorable, on any chart. */
  lemma RecordAllReady(d: Definition, cfg: set<Node>, exits: seq<Node>, hist: Hist)
    requires WellFormed(d) && Rooted(d, cfg) && EntryReady(d, hist)
    requires forall s | s in exits :: s in cfg && InTree(d, s)
    ensures EntryReady(d, RecordAll(d, cfg, exits, hist))
  {
    hide WellFormed, Rooted, Restorable, Recorded;
    Shapes(d);
    RecordAllMeaning(d, cfg, exits, hist);
    var hist' := RecordAll(d, cfg, exits, hist);
    forall h: Node, x | h < |d.nodes| && Kind(d, h) == History && x in RestoreOf(d, hist', h)
      ensures Restorable(d, h, x)
    {
      if HistoryOfExited(d, exits, h) {
        RecordedRestorable(d, cfg, Parent(d, h).value, h);
        if hist'[h] == [] { DefaultRestorable(d, h); }
      } else {
        assert h in hist' <==> h in hist;
        assert x in RestoreOf(d, hist, h);
      }
    }
  }

  lemma DefaultRestorable(d: Definition, h: Node)
    requires WellFormed(d) && InTree(d, h) && Kind(d, h) == History
    ensures forall x | x in d.nodes[h].historyTo :: Restorable(d, h, x)
  {
    Shape(d, h);
  }

  /** On charts where deep history has no parallel below, every record stays a single node. */
  lemma RecordAllSingles(d: Definition, cfg: set<Node>, exits: seq<Node>, hist: Hist)
    requires WellFormed(d) && DeepSimple(d) && Legal(d, cfg) && Singles(d, hist)
    requires forall s | s in exits :: s in cfg && InTree(d, s)
    ensures Singles(d, RecordAll(d, cfg, exits, hist))
  {
    RecordAllMeaning(d, cfg, exits, hist);
    var hist' := RecordAll(d, cfg, exits, hist);
    forall h | h in hist' ensures StoredOk(d, h, hist'[h]) && |hist'[h]| == 1 {
      if HistoryOfExited(d, exits, h) {
        var s := Parent(d, h).value;
        RecordedOk(d, cfg, s, h);
        if d.nodes[h].historyKind == Deep { RecordsOne(d, cfg, s, h); }
      }
    }
  }

  /** microstep.go: recordHistoryInto. */
  method RecordHistory(d: Definition, s: Node, hist: Hist, cfg: set<Node>) returns (out: Hist)
    requires IsTree(d) && InTree(d, s)
    ensures out == RecordInto(d, cfg, s, Children(d, s), hist)
  {
    out := hist;
    var hs := Children(d, s);
    for i := 0 to |hs|
      invariant forall h | h in hs[i..] :: h in hs
      invariant RecordInto(d, cfg, s, hs, hist) == RecordInto(d, cfg, s, hs[i..], out)
    {
      var h := hs[i];
      assert h in hs && hs[i..][1..] == hs[i + 1..];
      if Kind(d, h) != History { continue; }
      var rec := RecordOne(d, s, h, cfg);
      out := out[h := rec];
    }
  }

  method RecordOne(d: Definition, s: Node, h: Node, cfg: set<Node>) returns (rec: seq<Node>)
    requires IsTree(d) && InTree(d, s) && InTree(d, h)
    ensures rec == Recorded(d, cfg, s, h)
  {
    if d.nodes[h].historyKind == Deep {
      rec := RecordDeep(d, s, cfg);
    } else {
      rec := RecordShallow(Children(d, s), cfg);
    }
  }

  method RecordDeep(d: Definition, s: Node, cfg: set<Node>) returns (rec: seq<Node>)
    requires IsTree(d) && InTree(d, s)
    ensures rec == LeavesBelow(d, AllActive(d, cfg), s)
  {
    hide LeavesBelow, IsDescendant;
    rec := [];
    var all := AllActive(d, cfg);
    AscendingSorted(cfg, |d.nodes|);
    NoLeavesBelow(d, s);
    hide AllActive, IsTree;
    for i := 0 to |all|
      invariant LeavesBelow(d, all, s) == rec + LeavesBelow(d, all[i..], s)
    {
      assert all[i] in all;
      LeavesBelowStep(d, all, i, s);
      ghost var tail := LeavesBelow(d, all[i + 1..], s);
      var below := CheckDescendant(d, all[i], Some(s));
      if IsLeaf(d, all[i]) && below {
        assert rec + ([all[i]] + tail) == (rec + [all[i]]) + tail;
        rec := rec + [all[i]];
      } else {
        assert [] + tail == tail;
      }
    }
    assert all[|all|..] == [];
  }

  lemma NoLeavesBelow(d: Definition, s: Node)
    requires IsTree(d)
    ensures LeavesBelow(d, [], s) == []
  {
  }

  lemma LeavesBelowStep(d: Definition, q: seq<Node>, i: nat, s: Node)
    requires IsTree(d) && i < |q| && InTree(d, q[i])
    ensures LeavesBelow(d, q[i..], s)
            == (if IsLeaf(d, q[i]) && IsDescendant(d, q[i], s) then [q[i]] else []) + LeavesBelow(d, q[i + 1..], s)
  {
    assert q[i..][1..] == q[i + 1..];
  }

  method RecordShallow(cs: seq<Node>, cfg: set<Node>) returns (rec: seq<Node>)
    ensures rec == ActiveOf(cs, cfg)
  {
    rec := [];
    for i := 0 to |cs|
      invariant ActiveOf(cs, cfg) == rec + ActiveOf(cs[i..], cfg)
    {
      assert cs[i..][1..] == cs[i + 1..];
      ghost var tail := ActiveOf(cs[i + 1..], cfg);
      if cs[i] in cfg {
        assert rec + ([cs[i]] + tail) == (rec + [cs[i]]) + tail;
        rec := rec + [cs[i]];
      }
    }
  }

  // ------------------------------------------------------------------ restoring

  /** Everything restored is entered. */
  lemma {:induction false} RestoredHolds(d: Definition, hist: Hist, h: Node, restore: seq<Node>, E: set<Node>)
    requires WellFormed(d) && EntryReady(d, hist) && InTree(d, h) && Kind(d, h) == History
    requires forall x | x in restore :: Restorable(d, h, x)
    ensures forall x | x in restore :: x in AddRestored(d, hist, h, restore, E)
    decreases |restore|
  {
    if restore == [] {
    } else {
      var x, p := restore[0], Parent(d, h).value;
      assert Restorable(d, h, x);
      DescendantDeeper(d, x, p);
      var F := AddDescendants(d, hist, x, E);
      var G := AddAncestors(d, hist, x, Some(p), F);
      DescendantsGrow(d, hist, x, E);
      AncestorsGrow(d, hist, x, Some(p), F);
      RestoredHolds(d, hist, h, restore[1..], G);
      RestoredGrow(d, hist, h, restore[1..], G);
      assert forall y | y in restore :: y == x || y in restore[1..];
    }
  }

  /** Everything entered below an untouched state hangs from it. */
  lemma VacantHung(d: Definition, E: set<Node>, R: set<Node>, p: Node)
    requires IsTree(d) && Grown(d, E, R, Some(p)) && Vacant(d, E, p)
    ensures Hung(d, R, {}, Some(p)) && forall n | n in R && IsDescendant(d, n, p) :: Kind(d, n) != History
  {
    forall n | n in R
      ensures HangsIn(d, R, {}, Some(p), n) && (IsDescendant(d, n, p) ==> Kind(d, n) != History)
    {
      if IsDescendant(d, n, p) { assert Hangs(d, R, Some(p), n); }
    }
  }

  /** What restoring a deep record always does: it enters at least what was recorded. */
  lemma DeepRestoresAtLeast(d: Definition, hist: Hist, h: Node, cfg0: set<Node>, E: set<Node>)
    requires WellFormed(d) && EntryReady(d, hist)
    requires InTree(d, h) && Kind(d, h) == History && d.nodes[h].historyKind == Deep && Parent(d, h).Some?
    requires Legal(d, cfg0) && Parent(d, h).value in cfg0
    requires h in hist && hist[h] == Recorded(d, cfg0, Parent(d, h).value, h)
    requires Vacant(d, E, Parent(d, h).value)
    ensures var R := AddDescendants(d, hist, h, E); var p := Parent(d, h).value;
            && StoredOk(d, h, hist[h]) && RestoreOf(d, hist, h) == hist[h]
            && FirstClimb(d, hist, h, E) <= R && (forall x | x in hist[h] :: x in R)
            && forall n: Node | n in cfg0 && IsDescendant(d, n, p) :: n in R
  {
    var p, R := Parent(d, h).value, AddDescendants(d, hist, h, E);
    RecordedOk(d, cfg0, p, h);
    EntersRestored(d, hist, h, E);
    RestoredHolds(d, hist, h, hist[h], E);
    RestoredGrow(d, hist, h, hist[h], E);
    FirstIsWithin(d, hist, h, E);
    VacantHung(d, E, R, p);
    forall n: Node | n in cfg0 && IsDescendant(d, n, p) ensures n in R {
      var l := ActiveLeafBelow(d, cfg0, n);
      if l != n { DescendantTransitive(d, l, n, p); }
      HungUpward(d, R, {}, p, l, n);
    }
  }

  lemma FirstIsWithin(d: Definition, hist: Hist, h: Node, E: set<Node>)
    requires WellFormed(d) && EntryReady(d, hist) && InTree(d, h) && Kind(d, h) == History
             && RestoreOf(d, hist, h) != []
    ensures FirstClimb(d, hist, h, E) <= AddDescendants(d, hist, h, E)
  {
    var rec := RestoreOf(d, hist, h);
    EntersRestored(d, hist, h, E);
    FirstClimbIs(d, hist, h, E);
    assert forall x | x in rec[1..] :: x in rec;
    assert AddRestored(d, hist, h, rec, E) == AddRestored(d, hist, h, rec[1..], FirstClimb(d, hist, h, E));
    RestoredGrow(d, hist, h, rec[1..], FirstClimb(d, hist, h, E));
  }

  /** Restoring the first node of the record enters no leaves but the recorded ones. */
  ghost predicate EntersRecorded(d: Definition, hist: Hist, h: Node, E: set<Node>)
    requires IsTree(d) && EntryReady(d, hist) && InTree(d, h) && Kind(d, h) == History && RestoreOf(d, hist, h) != []
    requires Parent(d, h).Some?
  {
    forall l | l in FirstClimb(d, hist, h, E) && IsLeaf(d, l) && IsDescendant(d, l, Parent(d, h).value) ::
      l in RestoreOf(d, hist, h)
  }

  /** Deep restoration, exactly.  Entering a deep history node over an untouched parent restores
      exactly what was recorded, and leaves the parent filled, if and only if restoring the first
      recorded leaf enters no other leaves than the recorded ones.  With one recorded leaf it
      always does.  If the history nodes inside the parent restore properly, the condition says
      that restoring the first leaf already enters all the others. */
  lemma DeepRestores(d: Definition, hist: Hist, h: Node, cfg0: set<Node>, E: set<Node>)
    requires WellFormed(d) && EntryReady(d, hist)
    requires InTree(d, h) && Kind(d, h) == History && d.nodes[h].historyKind == Deep && Parent(d, h).Some?
    requires Legal(d, cfg0) && Parent(d, h).value in cfg0
    requires h in hist && hist[h] == Recorded(d, cfg0, Parent(d, h).value, h)
    requires Vacant(d, E, Parent(d, h).value)
    ensures RestoreOf(d, hist, h) != []
    ensures var p, R := Parent(d, h).value, AddDescendants(d, hist, h, E);
            && (AgreeBelow(d, R, cfg0, p) <==> EntersRecorded(d, hist, h, E))
            && (AgreeBelow(d, R, cfg0, p) <==> Filled(d, R, p))
            && (|hist[h]| == 1 ==> AgreeBelow(d, R, cfg0, p))
            && (HistoryOkUnder(d, hist, p) ==> (AgreeBelow(d, R, cfg0, p) <==> Closes(d, hist, h, E)))
  {
    hide WellFormed, Legal, EntryReady, HistoryOkUnder, Recorded, Filled, AgreeBelow, EntersRecorded, Closes, Covered;
    Shapes(d);
    var p, R := Parent(d, h).value, AddDescendants(d, hist, h, E);
    DeepRestoresAtLeast(d, hist, h, cfg0, E);
    LegalFillsActive(d, cfg0, p);
    if AgreeBelow(d, R, cfg0, p) {
      RecordedOk(d, cfg0, p, h);
      FilledBelow(d, cfg0, R, p);
      OnlyRecordedEntered(d, hist, h, cfg0, E, R);
    }
    if EntersRecorded(d, hist, h, E) { RecordedComesBack(d, hist, h, cfg0, E); }
    if Filled(d, R, p) { FilledAgrees(d, cfg0, R, p); }
    if |hist[h]| == 1 {
      SingleFirstClimb(d, hist, h, cfg0, E);
      RecordedComesBack(d, hist, h, cfg0, E);
    }
    if HistoryOkUnder(d, hist, p) {
      FirstClimbFills(d, hist, h, E);
      if Closes(d, hist, h, E) { RestoreIsFirstClimb(d, hist, h, E); }
      if AgreeBelow(d, R, cfg0, p) { FirstCloses(d, hist, h, cfg0, E, R); }
    }
  }

  lemma FilledBelow(d: Definition, cfg: set<Node>, R: set<Node>, p: Node)
    requires IsTree(d) && InTree(d, p) && Filled(d, cfg, p) && AgreeBelow(d, R, cfg, p)
    ensures Filled(d, R, p)
  {
    FilledLocal(d, cfg, R, p);
  }

  lemma FilledAgrees(d: Definition, cfg: set<Node>, R: set<Node>, p: Node)
    requires IsTree(d) && Shaped(d) && InTree(d, p) && Filled(d, cfg, p) && Filled(d, R, p)
    requires forall n: Node | n in cfg && IsDescendant(d, n, p) :: n in R
    ensures AgreeBelow(d, R, cfg, p)
  {
    hide Filled;
    forall n: Node | IsDescendant(d, n, p) ensures n in R <==> n in cfg {
      if n in R { NestedFilled(d, cfg, R, p, n); }
    }
  }

  lemma OnlyRecordedEntered(d: Definition, hist: Hist, h: Node, cfg0: set<Node>, E: set<Node>, R: set<Node>)
    requires IsTree(d) && EntryReady(d, hist) && InTree(d, h) && Kind(d, h) == History && Parent(d, h).Some?
    requires RestoreOf(d, hist, h) != [] && FirstClimb(d, hist, h, E) <= R && AgreeBelow(d, R, cfg0, Parent(d, h).value)
    requires forall l: Node | l in cfg0 && IsLeaf(d, l) && IsDescendant(d, l, Parent(d, h).value) ::
               l in RestoreOf(d, hist, h)
    ensures EntersRecorded(d, hist, h, E)
  {
    hide EntryReady, FirstClimb;
  }

  /** If the first climb enters recorded leaves only, it is all of the restoration. */
  lemma RecordedComesBack(d: Definition, hist: Hist, h: Node, cfg0: set<Node>, E: set<Node>)
    requires WellFormed(d) && EntryReady(d, hist)
    requires InTree(d, h) && Kind(d, h) == History && d.nodes[h].historyKind == Deep && Parent(d, h).Some?
    requires Legal(d, cfg0) && Parent(d, h).value in cfg0
    requires h in hist && hist[h] == Recorded(d, cfg0, Parent(d, h).value, h) && RestoreOf(d, hist, h) == hist[h] != []
    requires Vacant(d, E, Parent(d, h).value) && EntersRecorded(d, hist, h, E)
    ensures AgreeBelow(d, AddDescendants(d, hist, h, E), cfg0, Parent(d, h).value)
  {
    hide WellFormed, Legal, EntryReady, Recorded, Filled, Covered, FirstClimb;
    Shapes(d);
    var p, F := Parent(d, h).value, FirstClimb(d, hist, h, E);
    RecordedOk(d, cfg0, p, h);
    FirstClimbCovers(d, hist, h, E);
    FirstClimbGrown(d, hist, h, E);
    forall n | n in F && IsDescendant(d, n, p) ensures n in cfg0 {
      var l := CoveredLeaf(d, F, p, n);
      if l != n { DescendantTransitive(d, l, n, p); }
      LegalRooted(d, cfg0);
      if l != n { RootedUpward(d, cfg0, l, n); }
    }
    LegalFillsActive(d, cfg0, p);
    forall n: Node | IsDescendant(d, n, p) ensures n in F <==> n in cfg0 {
      if n in cfg0 { CoveredInFilled(d, F, cfg0, p, n); }
    }
    FilledBelow(d, cfg0, F, p);
    AllRecordedEntered(d, hist, h, cfg0, E);
    RestoreIsFirstClimb(d, hist, h, E);
  }

  lemma FirstClimbGrown(d: Definition, hist: Hist, h: Node, E: set<Node>)
    requires WellFormed(d) && EntryReady(d, hist) && InTree(d, h) && Kind(d, h) == History && Parent(d, h).Some?
    requires RestoreOf(d, hist, h) != [] && Vacant(d, E, Parent(d, h).value)
    ensures forall n | n in FirstClimb(d, hist, h, E) && IsDescendant(d, n, Parent(d, h).value) :: Kind(d, n) != History
  {
    hide EntryReady, FirstClimb;
    FirstClimbIs(d, hist, h, E);
    ClimbGrows(d, hist, RestoreOf(d, hist, h)[0], Parent(d, h).value, E);
    VacantHung(d, E, FirstClimb(d, hist, h, E), Parent(d, h).value);
  }

  lemma AllRecordedEntered(d: Definition, hist: Hist, h: Node, cfg0: set<Node>, E: set<Node>)
    requires IsTree(d) && EntryReady(d, hist) && InTree(d, h) && Kind(d, h) == History && Parent(d, h).Some?
    requires RestoreOf(d, hist, h) != [] && forall x | x in RestoreOf(d, hist, h) :: x in cfg0 && Restorable(d, h, x)
    requires AgreeBelow(d, FirstClimb(d, hist, h, E), cfg0, Parent(d, h).value)
    ensures Closes(d, hist, h, E)
  {
    hide EntryReady, FirstClimb;
    forall x | x in RestoreOf(d, hist, h)[1..] ensures x in FirstClimb(d, hist, h, E) {
      assert x in RestoreOf(d, hist, h);
    }
  }

  /** If what comes back is what was recorded, a first climb that fills the parent is all of it. */
  lemma FirstCloses(d: Definition, hist: Hist, h: Node, cfg0: set<Node>, E: set<Node>, R: set<Node>)
    requires IsTree(d) && Shaped(d) && EntryReady(d, hist) && InTree(d, h) && Kind(d, h) == History
    requires Parent(d, h).Some? && InTree(d, Parent(d, h).value) && RestoreOf(d, hist, h) != []
    requires FirstClimb(d, hist, h, E) <= R && AgreeBelow(d, R, cfg0, Parent(d, h).value)
    requires Filled(d, FirstClimb(d, hist, h, E), Parent(d, h).value) && Filled(d, cfg0, Parent(d, h).value)
    requires forall x | x in RestoreOf(d, hist, h) :: x in R && Restorable(d, h, x)
    ensures Closes(d, hist, h, E)
  {
    hide EntryReady, FirstClimb, Filled;
    forall x | x in RestoreOf(d, hist, h)[1..] ensures x in FirstClimb(d, hist, h, E) {
      assert x in RestoreOf(d, hist, h);
      NestedFilled(d, FirstClimb(d, hist, h, E), cfg0, Parent(d, h).value, x);
    }
  }

  // ------------------------------------------------------------------ one recorded leaf

  /** l is the only active leaf below a. */
  ghost predicate OnlyLeaf(d: Definition, cfg: set<Node>, a: Node, l: Node)
    requires IsTree(d)
  {
    && l in cfg && IsLeaf(d, l) && IsDescendant(d, l, a)
    && forall m | m in cfg && IsLeaf(d, m) && IsDescendant(d, m, a) :: m == l
  }

  /** Where only one leaf is active a parallel on the way up has no other region. */
  lemma OneRegion(d: Definition, cfg: set<Node>, a: Node, l: Node, p: Node, s: Node)
    requires WellFormed(d) && Legal(d, cfg) && OnlyLeaf(d, cfg, a, l)
    requires p in cfg && InTree(d, p) && IsDescendant(d, p, a) && Kind(d, p) == Parallel
    requires s in Children(d, p) && InSubtree(d, l, s)
    ensures forall c | c in Children(d, p) :: c == s
  {
    hide WellFormed, Legal;
    LegalNode(d, cfg, p);
    Shape(d, p);
    forall c | c in Children(d, p) ensures c == s {
      var m := ActiveLeafBelow(d, cfg, c);
      assert IsDescendant(d, c, p);
      DescendantTransitive(d, c, p, a);
      if m != c { DescendantTransitive(d, m, c, a); }
      if c != s { ChildrenDisjoint(d, p, c, s, l); }
    }
  }

  /** Then climbing from it adds nothing that was not active. */
  lemma {:induction false} SingleClimb(d: Definition, hist: Hist, cfg: set<Node>, a: Node, l: Node, s: Node,
                                       E: set<Node>)
    requires WellFormed(d) && EntryReady(d, hist) && Legal(d, cfg) && OnlyLeaf(d, cfg, a, l)
    requires InTree(d, a) && InTree(d, s) && s in cfg && s in E && IsDescendant(d, s, a) && InSubtree(d, l, s)
    requires forall n | n in E && IsDescendant(d, n, a) :: n in cfg
    ensures forall n | n in AddAncestors(d, hist, s, Some(a), E) && IsDescendant(d, n, a) :: n in cfg
    decreases s
  {
    hide WellFormed, EntryReady, Legal, OnlyLeaf, IsTree;
    TreeInOrder(d);
    ClimbUnfold(d, hist, s, a, E);
    ParentActive(d, cfg, s, a);
    var p := Parent(d, s).value;
    if p == a {
    } else {
      assert IsDescendant(d, s, p);
      if l != s { DescendantTransitive(d, l, s, p); }
      if Kind(d, p) == Parallel {
        OneRegion(d, cfg, a, l, p, s);
        RegionsNoop(d, hist, p, Children(d, p), E + {p});
      }
      SingleClimb(d, hist, cfg, a, l, p, E + {p});
    }
  }

  lemma ParentActive(d: Definition, cfg: set<Node>, s: Node, a: Node)
    requires IsTree(d) && Legal(d, cfg) && s in cfg && IsDescendant(d, s, a)
    ensures var p := Parent(d, s).value; p in cfg && InTree(d, p) && p < s && s in Children(d, p)
  {
    DescendantAfter(d, s, a);
  }

  lemma SingleFirstClimb(d: Definition, hist: Hist, h: Node, cfg0: set<Node>, E: set<Node>)
    requires WellFormed(d) && EntryReady(d, hist)
    requires InTree(d, h) && Kind(d, h) == History && d.nodes[h].historyKind == Deep && Parent(d, h).Some?
    requires Legal(d, cfg0) && Parent(d, h).value in cfg0
    requires h in hist && hist[h] == Recorded(d, cfg0, Parent(d, h).value, h) && RestoreOf(d, hist, h) == hist[h]
    requires |hist[h]| == 1 && Vacant(d, E, Parent(d, h).value)
    ensures EntersRecorded(d, hist, h, E)
  {
    hide WellFormed, EntryReady, Legal, Recorded, FirstClimb, IsTree;
    Shapes(d);
    var p, x := Parent(d, h).value, hist[h][0];
    RecordedOk(d, cfg0, p, h);
    FirstClimbIs(d, hist, h, E);
    LeafEnters(d, hist, x, E);
    assert x in hist[h] && forall y | y in hist[h] :: y == x;
    LegalNode(d, cfg0, p);
    SingleClimb(d, hist, cfg0, p, x, x, E + {x});
  }

  lemma LeafEnters(d: Definition, hist: Hist, x: Node, E: set<Node>)
    requires IsTree(d) && EntryReady(d, hist) && IsLeaf(d, x)
    ensures AddDescendants(d, hist, x, E) == E + {x}
  {
  }

  lemma Shapes(d: Definition)
    requires WellFormed(d)
    ensures IsTree(d) && Shaped(d)
  {
  }

  /** Shallow restoration: the recorded child is re-entered, with default entry below it. */
  lemma ShallowRestores(d: Definition, hist: Hist, h: Node, cfg0: set<Node>, E: set<Node>)
    requires WellFormed(d) && EntryReady(d, hist)
    requires InTree(d, h) && Kind(d, h) == History && d.nodes[h].historyKind == Shallow && Parent(d, h).Some?
    requires Legal(d, cfg0) && Parent(d, h).value in cfg0
    requires h in hist && hist[h] == Recorded(d, cfg0, Parent(d, h).value, h)
    ensures hist[h] != [] && hist[h][0] in Children(d, Parent(d, h).value) && hist[h][0] in cfg0
    ensures InTree(d, hist[h][0]) && Kind(d, hist[h][0]) != History
    ensures AddDescendants(d, hist, h, E) == AddDescendants(d, hist, hist[h][0], E)
  {
    var p := Parent(d, h).value;
    RecordedOk(d, cfg0, p, h);
    var x := hist[h][0];
    assert Restorable(d, h, x) && hist[h] == [x] && hist[h][1..] == [];
    var E1 := AddDescendants(d, hist, x, E);
    assert AddAncestors(d, hist, x, Some(p), E1) == E1;
    assert AddRestored(d, hist, h, [x], E) == AddRestored(d, hist, h, [], E1) == E1;
  }
}
