/** The pass of the loader that numbers callsites (schema/resolve.go: assignCallsites).  It
    fills the numbers in place, with two running counters. */
module Resolve {
  import opened Definitions
  import opened Build
  import opened Callsites

  // ------------------------------------------------------------------ what numbering leaves alone

  predicate SameActions(a: seq<ActionRef>, b: seq<ActionRef>)
  {
    |a| == |b| && forall i | 0 <= i < |a| :: a[i].typ == b[i].typ
  }

  predicate SameEdge(a: Transition, b: Transition)
  {
    && a == b.(guard := a.guard, actions := a.actions)
    && SameActions(a.actions, b.actions)
    && (a.guard.Some? <==> b.guard.Some?) && (a.guard.Some? ==> a.guard.value.typ == b.guard.value.typ)
  }

  predicate SameEdges(a: seq<Transition>, b: seq<Transition>)
  {
    |a| == |b| && forall i | 0 <= i < |a| :: SameEdge(a[i], b[i])
  }

  predicate SameInvoke(a: Invoke, b: Invoke)
  {
    a.id == b.id && a.src == b.src && SameEdges(a.onDone, b.onDone) && SameEdges(a.onError, b.onError)
  }

  predicate SameInvokes(a: seq<Invoke>, b: seq<Invoke>)
  {
    |a| == |b| && forall i | 0 <= i < |a| :: SameInvoke(a[i], b[i])
  }

  /** Equal up to callsite numbers. */
  predicate SameButSites(a: StateNode, b: StateNode)
  {
    && a == b.(entry := a.entry, exit := a.exit, transitions := a.transitions, invokes := a.invokes)
    && SameActions(a.entry, b.entry) && SameActions(a.exit, b.exit)
    && SameEdges(a.transitions, b.transitions) && SameInvokes(a.invokes, b.invokes)
  }

  // ------------------------------------------------------------------ assignCallsites

  class Resolver {
    var nodes: seq<StateNode>
    var ordered: seq<Node>
    var actionCount: nat
    var guardCount: nat

    constructor (nodes: seq<StateNode>, ordered: seq<Node>)
      ensures this.nodes == nodes && this.ordered == ordered && actionCount == 0 && guardCount == 0
    {
      this.nodes, this.ordered, actionCount, guardCount := nodes, ordered, 0, 0;
    }

    method AssignActions(acts: seq<ActionRef>) returns (out: seq<ActionRef>)
      modifies this`actionCount
      ensures SameActions(out, acts)
      ensures forall e, v, n :: Counts(ActionCalls(out, e, v, n), old(actionCount), actionCount)
    {
      out := acts;
      for i := 0 to |acts|
        invariant |out| == |acts| && actionCount == old(actionCount) + i
        invariant forall j | 0 <= j < i :: out[j] == acts[j].(callsite := old(actionCount) + j)
        invariant forall j | i <= j < |acts| :: out[j] == acts[j]
      {
        out := out[i := out[i].(callsite := actionCount)];
        actionCount := actionCount + 1;
      }
    }

    /** assignEdge. */
    method AssignEdge(t: Transition) returns (out: Transition)
      modifies this`actionCount, this`guardCount
      ensures SameEdge(out, t)
      ensures Counts(EdgeCalls(out, Actions), old(actionCount), actionCount)
      ensures Counts(EdgeCalls(out, Guards), old(guardCount), guardCount)
    {
      out := t;
      if t.guard.Some? {
        out := out.(guard := Some(t.guard.value.(callsite := guardCount)));
        guardCount := guardCount + 1;
      }
      var acts := AssignActions(t.actions);
      out := out.(actions := acts);
    }

    method AssignEdges(ts: seq<Transition>) returns (out: seq<Transition>)
      modifies this`actionCount, this`guardCount
      ensures SameEdges(out, ts)
      ensures Counts(EdgesCalls(out, Actions), old(actionCount), actionCount)
      ensures Counts(EdgesCalls(out, Guards), old(guardCount), guardCount)
    {
      out := [];
      hide SameEdge, EdgeCalls;
      for i := 0 to |ts|
        invariant |out| == i && forall j | 0 <= j < i :: SameEdge(out[j], ts[j])
        invariant Counts(EdgesCalls(out, Actions), old(actionCount), actionCount)
        invariant Counts(EdgesCalls(out, Guards), old(guardCount), guardCount)
      {
        ghost var a, g := actionCount, guardCount;
        var t := AssignEdge(ts[i]);
        EdgesCallsMore(out, t, Actions);
        EdgesCallsMore(out, t, Guards);
        hide EdgesCalls;
        CountsJoin(EdgesCalls(out, Actions), EdgeCalls(t, Actions), old(actionCount), a, actionCount);
        CountsJoin(EdgesCalls(out, Guards), EdgeCalls(t, Guards), old(guardCount), g, guardCount);
        out := out + [t];
      }
    }

    method AssignInvoke(iv: Invoke) returns (out: Invoke)
      modifies this`actionCount, this`guardCount
      ensures SameInvoke(out, iv)
      ensures Counts(EdgesCalls(out.onDone, Actions) + EdgesCalls(out.onError, Actions), old(actionCount), actionCount)
      ensures Counts(EdgesCalls(out.onDone, Guards) + EdgesCalls(out.onError, Guards), old(guardCount), guardCount)
    {
      hide EdgesCalls, SameEdges, Counts;
      var done := AssignEdges(iv.onDone);
      ghost var a, g := actionCount, guardCount;
      var err := AssignEdges(iv.onError);
      CountsJoin(EdgesCalls(done, Actions), EdgesCalls(err, Actions), old(actionCount), a, actionCount);
      CountsJoin(EdgesCalls(done, Guards), EdgesCalls(err, Guards), old(guardCount), g, guardCount);
      out := iv.(onDone := done, onError := err);
    }

    method AssignInvokes(ivs: seq<Invoke>) returns (out: seq<Invoke>)
      modifies this`actionCount, this`guardCount
      ensures SameInvokes(out, ivs)
      ensures Counts(InvokesCalls(out, Actions), old(actionCount), actionCount)
      ensures Counts(InvokesCalls(out, Guards), old(guardCount), guardCount)
    {
      out := [];
      hide SameInvoke, EdgesCalls;
      for i := 0 to |ivs|
        invariant |out| == i && forall j | 0 <= j < i :: SameInvoke(out[j], ivs[j])
        invariant Counts(InvokesCalls(out, Actions), old(actionCount), actionCount)
        invariant Counts(InvokesCalls(out, Guards), old(guardCount), guardCount)
      {
        ghost var a, g := actionCount, guardCount;
        var iv := AssignInvoke(ivs[i]);
        InvokesCallsMore(out, iv, Actions);
        InvokesCallsMore(out, iv, Guards);
        hide InvokesCalls;
        CountsJoin(InvokesCalls(out, Actions), EdgesCalls(iv.onDone, Actions)
          + EdgesCalls(iv.onError, Actions), old(actionCount), a, actionCount);
        CountsJoin(InvokesCalls(out, Guards), EdgesCalls(iv.onDone, Guards)
          + EdgesCalls(iv.onError, Guards), old(guardCount), g, guardCount);
        out := out + [iv];
      }
    }

    /** The body of the loop over the ordered nodes. */
    method AssignNode(n: Node)
      requires n < |nodes|
      modifies this`nodes, this`actionCount, this`guardCount
      ensures |nodes| == |old(nodes)| && forall m | 0 <= m < |nodes| && m != n :: nodes[m] == old(nodes)[m]
      ensures SameButSites(nodes[n], old(nodes)[n])
      ensures Counts(NodeCalls(nodes[n], n, Actions), old(actionCount), actionCount)
      ensures Counts(NodeCalls(nodes[n], n, Guards), old(guardCount), guardCount)
    {
      var node := nodes[n];
      ghost var a0, g0 := actionCount, guardCount;
      var entry := AssignActions(node.entry);
      ghost var a1 := actionCount;
      assert Counts(BareCalls(entry, n, Actions), a0, a1) && Counts(BareCalls(entry, n, Guards), g0, g0);
      hide SameActions, SameEdges, SameInvokes, EdgesCalls, InvokesCalls, Counts;
      var edges := AssignEdges(node.transitions);
      ghost var a2, g2 := actionCount, guardCount;
      var exit := AssignExit(node.exit, n, g2);
      ghost var a3 := actionCount;
      var invokes := AssignInvokes(node.invokes);
      nodes := nodes[n := node.(entry := entry, transitions := edges, exit := exit, invokes := invokes)];
      NodeCounts(nodes[n], n, Actions, a0, a1, a2, a3, actionCount);
      NodeCounts(nodes[n], n, Guards, g0, g0, g2, g2, guardCount);
    }

    method AssignExit(acts: seq<ActionRef>, n: Node, ghost g: nat) returns (out: seq<ActionRef>)
      modifies this`actionCount
      ensures SameActions(out, acts)
      ensures Counts(BareCalls(out, n, Actions), old(actionCount), actionCount)
              && Counts(BareCalls(out, n, Guards), g, g)
    {
      out := AssignActions(acts);
    }

    lemma NodeCounts(node: StateNode, n: Node, g: Table, x0: nat, x1: nat, x2: nat, x3: nat, x4: nat)
      requires Counts(BareCalls(node.entry, n, g), x0, x1) && Counts(EdgesCalls(node.transitions, g), x1, x2)
      requires Counts(BareCalls(node.exit, n, g), x2, x3) && Counts(InvokesCalls(node.invokes, g), x3, x4)
      ensures Counts(NodeCalls(node, n, g), x0, x4)
    {
      var a, b := BareCalls(node.entry, n, g), EdgesCalls(node.transitions, g);
      var c, e := BareCalls(node.exit, n, g), InvokesCalls(node.invokes, g);
      hide Counts, BareCalls, EdgesCalls, InvokesCalls;
      CountsJoin(a, b, x0, x1, x2);
      CountsJoin(a + b, c, x0, x2, x3);
      CountsJoin((a + b) + c, e, x0, x3, x4);
    }

    /** schema/resolve.go: assignCallsites.  The ids of all actions, taken node by node in
        document order, count up from zero to actionCount, those of all guards likewise, and
        nothing but the ids has changed. */
    method AssignCallsites()
      requires ordered == Range(0, |nodes|) && actionCount == 0 && guardCount == 0
      modifies this`nodes, this`actionCount, this`guardCount
      ensures |nodes| == |old(nodes)| && forall m | 0 <= m < |nodes| :: SameButSites(nodes[m], old(nodes)[m])
      ensures Counts(CallsFrom(nodes, 0, |nodes|, Actions), 0, actionCount)
      ensures Counts(CallsFrom(nodes, 0, |nodes|, Guards), 0, guardCount)
    {
      hide Assigned, NodeCalls, SameButSites, Range, Counts, CallsFrom;
      ghost var start := nodes;
      AssignBegins(start);
      for i := 0 to |ordered|
        invariant |nodes| == |start| && Assigned(start, nodes, i, actionCount, guardCount)
      {
        ghost var was, a, g := nodes, actionCount, guardCount;
        var n := ordered[i];
        InRange(|nodes|, i);
        AssignNode(n);
        NodeAssigned(start, was, nodes, i, a, g, actionCount, guardCount);
      }
      AllAssigned(start, nodes, actionCount, guardCount);
    }

    lemma InRange(k: nat, i: nat)
      requires i < k
      ensures |Range(0, k)| == k && Range(0, k)[i] == i
    {
    }

    lemma AssignBegins(start: seq<StateNode>)
      ensures Assigned(start, start, 0, 0, 0) && |Range(0, |start|)| == |start|
    {
    }

    /** The first i nodes have their numbers. */
    ghost predicate Assigned(start: seq<StateNode>, nodes: seq<StateNode>, i: nat, a: nat, g: nat)
    {
      && i <= |nodes| == |start|
      && (forall m | 0 <= m < i :: SameButSites(nodes[m], start[m]))
      && (forall m | i <= m < |nodes| :: nodes[m] == start[m])
      && Counts(CallsFrom(nodes, 0, i, Actions), 0, a)
      && Counts(CallsFrom(nodes, 0, i, Guards), 0, g)
    }

    lemma NodeAssigned(start: seq<StateNode>, was: seq<StateNode>, nodes: seq<StateNode>, i: nat, a0: nat, g0: nat,
                       a: nat, g: nat)
      requires i < |was| == |nodes| && Assigned(start, was, i, a0, g0)
      requires forall m | 0 <= m < |nodes| && m != i :: nodes[m] == was[m]
      requires SameButSites(nodes[i], was[i])
      requires Counts(NodeCalls(nodes[i], i, Actions), a0, a) && Counts(NodeCalls(nodes[i], i, Guards), g0, g)
      ensures Assigned(start, nodes, i + 1, a, g)
    {
      hide NodeCalls, SameButSites, Counts, CallsFrom;
      NodeJoins(was, nodes, i, Actions, a0, a);
      NodeJoins(was, nodes, i, Guards, g0, g);
    }

    lemma AllAssigned(start: seq<StateNode>, nodes: seq<StateNode>, a: nat, g: nat)
      requires Assigned(start, nodes, |nodes|, a, g)
      ensures |nodes| == |start| && forall m | 0 <= m < |nodes| :: SameButSites(nodes[m], start[m])
      ensures Counts(CallsFrom(nodes, 0, |nodes|, Actions), 0, a) && Counts(CallsFrom(nodes, 0, |nodes|, Guards), 0, g)
    {
    }

    lemma NodeJoins(was: seq<StateNode>, nodes: seq<StateNode>, i: nat, g: Table, x: nat, y: nat)
      requires i < |nodes| == |was| && forall m | 0 <= m < i :: nodes[m] == was[m]
      requires Counts(CallsFrom(was, 0, i, g), 0, x) && Counts(NodeCalls(nodes[i], i, g), x, y)
      ensures Counts(CallsFrom(nodes, 0, i + 1, g), 0, y)
    {
      CallsFromLocal(was, nodes, 0, i, g);
      CountsJoin(CallsFrom(nodes, 0, i, g), NodeCalls(nodes[i], i, g), 0, x, y);
    }
  }
}
