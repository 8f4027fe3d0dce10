/** The callsite tables of the code generator (internal/codegen/emit.go: buildCallsites): a
    recursive walk of the tree that fills two arrays by callsite number. */
module Emit {
  import opened Definitions
  import opened Build
  import opened Callsites
  import opened Resolve

  /** An array being filled, with the history of its writes. */
  class Slots {
    const cells: array<Callsite>
    ghost var writes: seq<Callsite>

    ghost predicate Valid()
      reads this, cells
    {
      && |writes| <= cells.Length && cells[..|writes|] == writes
      && Counts(writes, 0, |writes|)
    }

    constructor (n: nat)
      ensures Valid() && fresh(cells) && cells.Length == n && writes == []
    {
      cells := new Callsite[n](_ => Callsite(0, "", "", false, 0));
      writes := [];
    }

    /** Every write goes to the slot of its id, and that is always the next one. */
    method Write(c: Callsite)
      requires Valid() && |writes| < cells.Length && c.id == |writes|
      modifies this`writes, cells
      ensures Valid() && writes == old(writes) + [c]
    {
      cells[c.id] := c;
      writes := writes + [c];
      assert cells[..|writes|] == old(cells[..|writes|]) + [c];
    }
  }

  class Gen {
    const nodes: seq<StateNode>
    const actions: Slots
    const guards: Slots

    ghost predicate Valid()
      reads this, actions, actions.cells, guards, guards.cells
    {
      actions.cells != guards.cells && actions != guards && actions.Valid() && guards.Valid()
    }

    constructor (d: Definition)
      ensures Valid() && fresh(actions) && fresh(guards) && fresh(actions.cells) && fresh(guards.cells)
      ensures nodes == d.nodes && actions.cells.Length == d.actionCount && guards.cells.Length == d.guardCount
      ensures actions.writes == [] && guards.writes == []
    {
      nodes := d.nodes;
      actions := new Slots(d.actionCount);
      guards := new Slots(d.guardCount);
    }

    /** cs is what comes next in slots. */
    ghost predicate Next(slots: Slots, cs: seq<Callsite>)
      reads slots
    {
      Fits(slots.cells.Length, |slots.writes|, cs)
    }

    ghost predicate Fits(length: nat, at: nat, cs: seq<Callsite>)
    {
      at + |cs| <= length && Counts(cs, at, at + |cs|)
    }

    lemma FitsParts(length: nat, at: nat, a: seq<Callsite>, b: seq<Callsite>)
      requires Fits(length, at, a + b)
      ensures Fits(length, at, a) && Fits(length, at + |a|, b)
    {
      CountsParts(a, b, at, at + |a + b|);
    }

    method WriteAll(acts: seq<ActionRef>, event: string, evented: bool, source: Node)
      requires Valid() && Next(actions, ActionCalls(acts, event, evented, source))
      modifies actions`writes, actions.cells
      ensures Valid() && actions.writes == old(actions.writes) + ActionCalls(acts, event, evented, source)
    {
      ghost var cs := ActionCalls(acts, event, evented, source);
      for i := 0 to |acts|
        invariant Valid() && actions.writes == old(actions.writes) + cs[..i]
      {
        var c := Callsite(acts[i].callsite, acts[i].typ, event, evented, source);
        assert c == cs[i] && cs[..i + 1] == cs[..i] + [c];
        actions.Write(c);
      }
      assert cs[..|acts|] == cs;
    }

    /** The closure record. */
    method Record(t: Transition)
      requires Valid() && Next(actions, EdgeCalls(t, Actions)) && Next(guards, EdgeCalls(t, Guards))
      modifies actions`writes, actions.cells, guards`writes, guards.cells
      ensures Valid()
      ensures actions.writes == old(actions.writes) + EdgeCalls(t, Actions)
      ensures guards.writes == old(guards.writes) + EdgeCalls(t, Guards)
    {
      var evented := t.event != "" && !t.isAfter && !IsGenerated(t.event);
      if HasPrefix(t.event, "done.invoke.") || HasPrefix(t.event, "error.invoke.") { evented := true; }
      if t.guard.Some? {
        assert EdgeCalls(t, Guards)[0].id == |guards.writes|;
        guards.Write(Callsite(t.guard.value.callsite, t.guard.value.typ, t.event, evented, t.source));
      }
      WriteAll(t.actions, t.event, evented, t.source);
    }

    method RecordEdges(ts: seq<Transition>)
      requires Valid() && Next(actions, EdgesCalls(ts, Actions)) && Next(guards, EdgesCalls(ts, Guards))
      modifies actions`writes, actions.cells, guards`writes, guards.cells
      ensures Valid()
      ensures actions.writes == old(actions.writes) + EdgesCalls(ts, Actions)
      ensures guards.writes == old(guards.writes) + EdgesCalls(ts, Guards)
    {
      hide EdgesCalls, EdgeCalls, Counts;
      NothingYet();
      ghost var a, g := actions.writes, guards.writes;
      for i := 0 to |ts|
        invariant Valid() && actions.writes == a + EdgesCalls(ts[..i], Actions)
                  && guards.writes == g + EdgesCalls(ts[..i], Guards)
      {
        EdgeNext(actions.cells.Length, a, ts, i, Actions);
        EdgeNext(guards.cells.Length, g, ts, i, Guards);
        Record(ts[i]);
      }
      assert ts[..|ts|] == ts;
    }

    lemma NothingYet()
      ensures forall g :: EdgesCalls([], g) == [] && InvokesCalls([], g) == []
    {
    }

    lemma EdgeNext(length: nat, was: seq<Callsite>, ts: seq<Transition>, i: nat, g: Table)
      requires i < |ts| && Fits(length, |was|, EdgesCalls(ts, g))
      ensures Fits(length, |was + EdgesCalls(ts[..i], g)|, EdgeCalls(ts[i], g))
      ensures was + EdgesCalls(ts[..i + 1], g) == (was + EdgesCalls(ts[..i], g)) + EdgeCalls(ts[i], g)
    {
      hide EdgesCalls, EdgeCalls, Counts;
      EdgeInPlace(ts, i, g, |was|, |was| + |EdgesCalls(ts, g)|);
      EdgesCallsOne(ts, i, g);
      EdgesCallsLonger(ts, i + 1, g);
    }

    lemma {:induction false} EdgesCallsLonger(ts: seq<Transition>, i: nat, g: Table)
      requires i <= |ts|
      ensures |EdgesCalls(ts[..i], g)| <= |EdgesCalls(ts, g)|
      decreases |ts|
    {
      if i < |ts| {
        assert ts[..|ts| - 1][..i] == ts[..i];
        EdgesCallsLonger(ts[..|ts| - 1], i, g);
      } else {
        assert ts[..i] == ts;
      }
    }

    method RecordInvokes(ivs: seq<Invoke>)
      requires Valid() && Next(actions, InvokesCalls(ivs, Actions)) && Next(guards, InvokesCalls(ivs, Guards))
      modifies actions`writes, actions.cells, guards`writes, guards.cells
      ensures Valid()
      ensures actions.writes == old(actions.writes) + InvokesCalls(ivs, Actions)
      ensures guards.writes == old(guards.writes) + InvokesCalls(ivs, Guards)
    {
      hide InvokesCalls, EdgesCalls, Counts;
      NothingYet();
      ghost var a, g := actions.writes, guards.writes;
      for i := 0 to |ivs|
        invariant Valid() && actions.writes == a + InvokesCalls(ivs[..i], Actions)
                  && guards.writes == g + InvokesCalls(ivs[..i], Guards)
      {
        InvokeNext(actions.cells.Length, a, ivs, i, Actions);
        InvokeNext(guards.cells.Length, g, ivs, i, Guards);
        RecordEdges(ivs[i].onDone);
        RecordEdges(ivs[i].onError);
      }
      assert ivs[..|ivs|] == ivs;
    }

    lemma InvokeNext(length: nat, was: seq<Callsite>, ivs: seq<Invoke>, i: nat, g: Table)
      requires i < |ivs| && Fits(length, |was|, InvokesCalls(ivs, g))
      ensures var now := was + InvokesCalls(ivs[..i], g);
              var done := EdgesCalls(ivs[i].onDone, g);
              var err := EdgesCalls(ivs[i].onError, g);
              && Fits(length, |now|, done) && Fits(length, |now + done|, err)
              && was + InvokesCalls(ivs[..i + 1], g) == (now + done) + err
    {
      hide InvokesCalls, EdgesCalls, Counts;
      InvokeInPlace(ivs, i, g, |was|, |was| + |InvokesCalls(ivs, g)|);
      InvokesCallsOne(ivs, i, g);
      InvokesCallsLonger(ivs, i + 1, g);
    }

    lemma {:induction false} InvokesCallsLonger(ivs: seq<Invoke>, i: nat, g: Table)
      requires i <= |ivs|
      ensures |InvokesCalls(ivs[..i], g)| <= |InvokesCalls(ivs, g)|
      decreases |ivs|
    {
      if i < |ivs| {
        assert ivs[..|ivs| - 1][..i] == ivs[..i];
        InvokesCallsLonger(ivs[..|ivs| - 1], i, g);
      } else {
        assert ivs[..i] == ivs;
      }
    }

    /** The part of visit that concerns the node itself. */
    method VisitNode(n: Node)
      requires n < |nodes| && Valid()
      requires Next(actions, NodeCalls(nodes[n], n, Actions)) && Next(guards, NodeCalls(nodes[n], n, Guards))
      modifies actions`writes, actions.cells, guards`writes, guards.cells
      ensures Valid()
      ensures actions.writes == old(actions.writes) + NodeCalls(nodes[n], n, Actions)
      ensures guards.writes == old(guards.writes) + NodeCalls(nodes[n], n, Guards)
    {
      hide ActionCalls, EdgesCalls, InvokesCalls, Counts, NodeCalls, BareCalls;
      var node := nodes[n];
      BareMeaning(node.entry, n);
      BareMeaning(node.exit, n);
      NodeNext(actions.cells.Length, actions.writes, node, n, Actions);
      NodeNext(guards.cells.Length, guards.writes, node, n, Guards);
      WriteAll(node.entry, "", false, n);
      RecordEdges(node.transitions);
      WriteAll(node.exit, "", false, n);
      RecordInvokes(node.invokes);
    }

    lemma BareMeaning(acts: seq<ActionRef>, n: Node)
      ensures BareCalls(acts, n, Actions) == ActionCalls(acts, "", false, n) && BareCalls(acts, n, Guards) == []
    {
    }

    lemma NodeNext(length: nat, was: seq<Callsite>, node: StateNode, n: Node, g: Table)
      requires Fits(length, |was|, NodeCalls(node, n, g))
      ensures var a := BareCalls(node.entry, n, g); var b := EdgesCalls(node.transitions, g);
              var c := BareCalls(node.exit, n, g); var e := InvokesCalls(node.invokes, g);
              && Fits(length, |was|, a) && Fits(length, |was + a|, b)
              && Fits(length, |(was + a) + b|, c) && Fits(length, |((was + a) + b) + c|, e)
              && was + NodeCalls(node, n, g) == (((was + a) + b) + c) + e
    {
      hide BareCalls, EdgesCalls, InvokesCalls, NodeCalls, Fits;
      var a, b := BareCalls(node.entry, n, g), EdgesCalls(node.transitions, g);
      var c, e := BareCalls(node.exit, n, g), InvokesCalls(node.invokes, g);
      NodeParts(node, n, g);
      FitsParts(length, |was|, (a + b) + c, e);
      FitsParts(length, |was|, a + b, c);
      FitsParts(length, |was|, a, b);
      assert was + (((a + b) + c) + e) == (((was + a) + b) + c) + e;
    }

    lemma NodeParts(node: StateNode, n: Node, g: Table)
      ensures var a := BareCalls(node.entry, n, g); var b := EdgesCalls(node.transitions, g);
              var c := BareCalls(node.exit, n, g); var e := InvokesCalls(node.invokes, g);
              NodeCalls(node, n, g) == ((a + b) + c) + e
    {
    }

    /** visit, on the part of the tree that was laid out from dto. */
    method Visit(n: Node, ghost dto: Dto, ghost parent: Option<Node>, ghost key: string, ghost id: string)
      requires Valid() && LaidOut(nodes, dto, n, parent, key, id)
      requires Next(actions, CallsFrom(nodes, n, Size(dto), Actions))
               && Next(guards, CallsFrom(nodes, n, Size(dto), Guards))
      modifies actions`writes, actions.cells, guards`writes, guards.cells
      ensures Valid()
      ensures actions.writes == old(actions.writes) + CallsFrom(nodes, n, Size(dto), Actions)
      ensures guards.writes == old(guards.writes) + CallsFrom(nodes, n, Size(dto), Guards)
      decreases dto, 2
    {
      hide NodeCalls, CallsFrom, Counts, Fits, LaidOut, AllLaidOut, Size, SizeAll, ChildPlaces;
      LaidOutParts(dto, n, parent, key, id);
      VisitNext(actions.cells.Length, actions.writes, n, SizeAll(dto.states), Actions);
      VisitNext(guards.cells.Length, guards.writes, n, SizeAll(dto.states), Guards);
      VisitNode(n);
      VisitChildren(nodes[n].children, dto.states, n, id);
    }

    lemma LaidOutParts(dto: Dto, n: Node, parent: Option<Node>, key: string, id: string)
      requires LaidOut(nodes, dto, n, parent, key, id)
      ensures n < n + Size(dto) <= |nodes| && Size(dto) == 1 + SizeAll(dto.states)
      ensures nodes[n].children == ChildPlaces(dto.states, n + 1) && AllLaidOut(nodes, dto.states, n + 1, n, id)
    {
    }

    lemma VisitNext(length: nat, was: seq<Callsite>, n: Node, k: nat, g: Table)
      requires n + 1 + k <= |nodes| && Fits(length, |was|, CallsFrom(nodes, n, 1 + k, g))
      ensures var a := NodeCalls(nodes[n], n, g); var b := CallsFrom(nodes, n + 1, k, g);
              Fits(length, |was|, a) && Fits(length, |was + a|, b)
                && was + CallsFrom(nodes, n, 1 + k, g) == (was + a) + b
    {
      hide NodeCalls, CallsFrom, Counts, Fits;
      CallsFromSplit(nodes, n, 1, k, g);
      CallsFromStep(nodes, n, 0, g);
      CallsFromNone(nodes, n, g);
      var a, b := NodeCalls(nodes[n], n, g), CallsFrom(nodes, n + 1, k, g);
      assert [] + a == a;
      FitsParts(length, |was|, a, b);
    }

    /** The loop of visit over the children: at is where the next child is. */
    method VisitChildren(cs: seq<Node>, ghost states: seq<DtoChild>, ghost n: Node, ghost id: string)
      requires Valid() && cs == ChildPlaces(states, n + 1) && AllLaidOut(nodes, states, n + 1, n, id)
               && n + 1 + SizeAll(states) <= |nodes|
      requires Next(actions, CallsFrom(nodes, n + 1, SizeAll(states), Actions))
               && Next(guards, CallsFrom(nodes, n + 1, SizeAll(states), Guards))
      modifies actions`writes, actions.cells, guards`writes, guards.cells
      ensures Valid()
      ensures actions.writes == old(actions.writes) + CallsFrom(nodes, n + 1, SizeAll(states), Actions)
      ensures guards.writes == old(guards.writes) + CallsFrom(nodes, n + 1, SizeAll(states), Guards)
      decreases states, 1
    {
      hide Remaining, CallsFrom, NodeCalls, Counts, Fits, LaidOut, AllLaidOut, Size, SizeAll, ChildPlaces;
      ghost var at: Node, left := n + 1, SizeAll(states);
      ghost var a := actions.writes + CallsFrom(nodes, at, left, Actions);
      ghost var g := guards.writes + CallsFrom(nodes, at, left, Guards);
      ChildrenBegin(cs, states, at, n, id);
      for j := 0 to |cs|
        invariant Valid() && Remaining(nodes, cs, states, j, at, n, id) && at + left <= |nodes|
                  && left == SizeAll(states[j..])
        invariant Next(actions, CallsFrom(nodes, at, left, Actions)) && Next(guards, CallsFrom(nodes, at, left, Guards))
        invariant actions.writes + CallsFrom(nodes, at, left, Actions) == a
        invariant guards.writes + CallsFrom(nodes, at, left, Guards) == g
      {
        ghost var c := states[j];
        WalkOneHead(nodes, cs, states, j, at, n, id);
        RemainingStep(nodes, nodes, cs, states, j, at, n, id);
        ChildNext(actions.cells.Length, actions.writes, at, Size(c.state), left - Size(c.state), Actions);
        ChildNext(guards.cells.Length, guards.writes, at, Size(c.state), left - Size(c.state), Guards);
        Visit(cs[j], c.state, Some(n), c.key, ChildId(id, c.key));
        at, left := at + Size(c.state), left - Size(c.state);
      }
      ChildrenEnd(cs, states, at);
    }

    lemma ChildrenBegin(cs: seq<Node>, states: seq<DtoChild>, at: Node, n: Node, id: string)
      requires cs == ChildPlaces(states, at) && AllLaidOut(nodes, states, at, n, id)
      ensures Remaining(nodes, cs, states, 0, at, n, id) && |cs| == |states| && states[0..] == states
    {
      PlacesCount(states, at);
      assert states[0..] == states && cs[0..] == cs;
    }

    lemma ChildNext(length: nat, was: seq<Callsite>, at: Node, k: nat, rest: nat, g: Table)
      requires at + k + rest <= |nodes| && Fits(length, |was|, CallsFrom(nodes, at, k + rest, g))
      ensures var a := CallsFrom(nodes, at, k, g); var b := CallsFrom(nodes, at + k, rest, g);
              Fits(length, |was|, a) && Fits(length, |was + a|, b)
                && was + CallsFrom(nodes, at, k + rest, g) == (was + a) + b
    {
      hide NodeCalls, CallsFrom, Counts, Fits;
      CallsFromSplit(nodes, at, k, rest, g);
      FitsParts(length, |was|, CallsFrom(nodes, at, k, g), CallsFrom(nodes, at + k, rest, g));
    }

    lemma ChildrenEnd(cs: seq<Node>, states: seq<DtoChild>, at: Node)
      requires |cs| == |states| && at <= |nodes|
      ensures SizeAll(states[|cs|..]) == 0 && forall g :: CallsFrom(nodes, at, 0, g) == []
    {
    }

    /** internal/codegen/emit.go: buildCallsites.  On a loaded chart whose callsites are numbered
        as assignCallsites numbers them, every slot of both tables is written exactly once, in
        order, with the callsite whose id is the index of the slot. */
    method BuildCallsites(ghost dto: Dto, ghost key: string)
      requires Valid() && actions.writes == [] && guards.writes == []
      requires LaidOut(nodes, dto, 0, None, key, "") && |nodes| == Size(dto)
      requires Counts(CallsFrom(nodes, 0, |nodes|, Actions), 0, actions.cells.Length)
      requires Counts(CallsFrom(nodes, 0, |nodes|, Guards), 0, guards.cells.Length)
      modifies actions`writes, actions.cells, guards`writes, guards.cells
      ensures actions.cells[..] == actions.writes == CallsFrom(nodes, 0, |nodes|, Actions)
      ensures guards.cells[..] == guards.writes == CallsFrom(nodes, 0, |nodes|, Guards)
      ensures forall i | 0 <= i < actions.cells.Length :: actions.cells[i].id == i
      ensures forall i | 0 <= i < guards.cells.Length :: guards.cells[i].id == i
    {
      hide NodeCalls, CallsFrom, LaidOut, Size;
      Visit(0, dto, None, key, "");
      assert actions.cells[..] == actions.cells[..|actions.writes|];
      assert guards.cells[..] == guards.cells[..|guards.writes|];
    }
  }

  lemma SitesKeepShape(a: StateNode, b: StateNode)
    requires SameButSites(a, b)
    ensures SameShape(b, a)
  {
  }

  /** The loader numbers and the generator reads: whatever the actions and guards of a tree,
      the tables come out as the enumeration of all callsites in document order. */
  method NumberThenGenerate(nodes: seq<StateNode>, ordered: seq<Node>, ghost dto: Dto, key: string)
    returns (d: Definition, gen: Gen)
    requires LaidOut(nodes, dto, 0, None, key, "") && |nodes| == Size(dto) && ordered == Range(0, |nodes|)
    ensures |d.nodes| == |nodes| && forall n: Node | n < |nodes| :: SameButSites(d.nodes[n], nodes[n])
    ensures gen.actions.cells[..] == CallsFrom(d.nodes, 0, |d.nodes|, Actions)
            && gen.actions.cells.Length == d.actionCount
    ensures gen.guards.cells[..] == CallsFrom(d.nodes, 0, |d.nodes|, Guards) && gen.guards.cells.Length == d.guardCount
    ensures forall i | 0 <= i < d.actionCount :: gen.actions.cells[i].id == i
    ensures forall i | 0 <= i < d.guardCount :: gen.guards.cells[i].id == i
  {
    hide LaidOut, CallsFrom, SameButSites, SameShape, Range, Size;
    var r := new Resolver(nodes, ordered);
    r.AssignCallsites();
    d := Definition(key, r.nodes, r.actionCount, r.guardCount);
    forall n: Node | n < |nodes| ensures SameShape(nodes[n], d.nodes[n]) { SitesKeepShape(d.nodes[n], nodes[n]); }
    LaidOutLocal(nodes, d.nodes, dto, 0, None, key, "");
    CountsLength(CallsFrom(d.nodes, 0, |d.nodes|, Actions), r.actionCount);
    CountsLength(CallsFrom(d.nodes, 0, |d.nodes|, Guards), r.guardCount);
    gen := new Gen(d);
    gen.BuildCallsites(dto, key);
  }

  lemma CountsLength(cs: seq<Callsite>, y: nat)
    requires Counts(cs, 0, y)
    ensures |cs| == y
  {
  }
}
