/** The callsites of a chart: every place where an action or a guard is named, in the order
    of schema/resolve.go (assignCallsites) and internal/codegen/emit.go (buildCallsites). */
module Callsites {
  import opened Definitions

  /** internal/codegen/emit.go: callsite.  Ids name nodes uniquely, so the source is a node. */
  datatype Callsite = Callsite(id: int, typ: string, event: string, evented: bool, source: Node)

  /** Actions and guards are numbered independently. */
  datatype Table = Actions | Guards

  predicate HasPrefix(s: string, p: string) { |s| >= |p| && s[..|p|] == p }

  /** internal/codegen/resolve.go: isGenerated. */
  predicate IsGenerated(event: string)
  {
    HasPrefix(event, "done.invoke.") || HasPrefix(event, "error.invoke.") || HasPrefix(event, "done.state.")
  }

  /** Does the code at this edge see a typed event?  Completion of an invoked actor carries
      one although the event is generated. */
  predicate Evented(t: Transition)
  {
    || HasPrefix(t.event, "done.invoke.")
    || HasPrefix(t.event, "error.invoke.")
    || (t.event != "" && !t.isAfter && !IsGenerated(t.event))
  }

  function ActionCalls(acts: seq<ActionRef>, event: string, evented: bool, source: Node): seq<Callsite>
  {
    seq(|acts|, i requires 0 <= i < |acts| => Callsite(acts[i].callsite, acts[i].typ, event, evented, source))
  }

  function BareCalls(acts: seq<ActionRef>, source: Node, g: Table): seq<Callsite>
  {
    if g.Guards? then [] else ActionCalls(acts, "", false, source)
  }

  function EdgeCalls(t: Transition, g: Table): seq<Callsite>
  {
    match g
    case Actions => ActionCalls(t.actions, t.event, Evented(t), t.source)
    case Guards =>
      match t.guard
      case None => []
      case Some(q) => [Callsite(q.callsite, q.typ, t.event, Evented(t), t.source)]
  }

  function EdgesCalls(ts: seq<Transition>, g: Table): seq<Callsite>
  {
    if ts == [] then [] else EdgesCalls(ts[..|ts| - 1], g) + EdgeCalls(ts[|ts| - 1], g)
  }

  function InvokesCalls(ivs: seq<Invoke>, g: Table): seq<Callsite>
  {
    if ivs == [] then []
    else
      var last := ivs[|ivs| - 1];
      InvokesCalls(ivs[..|ivs| - 1], g) + (EdgesCalls(last.onDone, g) + EdgesCalls(last.onError, g))
  }

  /** One node: entry, edges, exit, then the edges of its invokes. */
  function NodeCalls(node: StateNode, n: Node, g: Table): seq<Callsite>
  {
    ((BareCalls(node.entry, n, g) + EdgesCalls(node.transitions, g)) + BareCalls(node.exit, n, g))
      + InvokesCalls(node.invokes, g)
  }

  /** The actions of one node: first its entry actions, then those of its edges in their order,
      then its exit actions, and last those of its invokes. */
  lemma NodeCallsInOrder(node: StateNode, n: Node)
    ensures var cs, edges, rest :=
              NodeCalls(node, n, Actions), EdgesCalls(node.transitions, Actions), InvokesCalls(node.invokes, Actions);
            var e, x := |node.entry|, |node.entry| + |edges|;
            && |cs| == x + |node.exit| + |rest|
            && (forall i | 0 <= i < e :: cs[i].id == node.entry[i].callsite)
            && cs[e..x] == edges
            && (forall i | 0 <= i < |node.exit| :: cs[x + i].id == node.exit[i].callsite)
            && cs[x + |node.exit|..] == rest
  {
    hide EdgesCalls, InvokesCalls;
    var entry, exit := BareCalls(node.entry, n, Actions), BareCalls(node.exit, n, Actions);
    assert forall i | 0 <= i < |node.entry| :: entry[i].id == node.entry[i].callsite;
    assert forall i | 0 <= i < |node.exit| :: exit[i].id == node.exit[i].callsite;
    FourParts(entry, EdgesCalls(node.transitions, Actions), exit, InvokesCalls(node.invokes, Actions));
  }

  lemma FourParts(a: seq<Callsite>, b: seq<Callsite>, c: seq<Callsite>, rest: seq<Callsite>)
    ensures var cs, y, z := ((a + b) + c) + rest, |a| + |b|, |a| + |b| + |c|;
            cs[..|a|] == a && cs[|a|..y] == b && cs[y..z] == c && cs[z..] == rest
  {
  }

  /** The edges of a node take their places in their own order. */
  lemma {:induction false} EdgesInOrder(ts: seq<Transition>, i: nat, g: Table)
    requires i < |ts|
    ensures var at, mine := |EdgesCalls(ts[..i], g)|, EdgeCalls(ts[i], g);
            && at + |mine| <= |EdgesCalls(ts, g)|
            && EdgesCalls(ts, g)[at..at + |mine|] == mine
    decreases |ts|
  {
    hide EdgeCalls;
    var k := |ts| - 1;
    if i < k {
      assert ts[..k][..i] == ts[..i] && ts[..k][i] == ts[i];
      EdgesInOrder(ts[..k], i, g);
    }
  }

  /** So do the invokes of a node, and in each the edges on completion come before those on failure. */
  lemma {:induction false} InvokesInOrder(ivs: seq<Invoke>, i: nat, g: Table)
    requires i < |ivs|
    ensures var at := |InvokesCalls(ivs[..i], g)|;
            var done, err := EdgesCalls(ivs[i].onDone, g), EdgesCalls(ivs[i].onError, g);
            && at + |done + err| <= |InvokesCalls(ivs, g)|
            && InvokesCalls(ivs, g)[at..at + |done + err|] == done + err
    decreases |ivs|
  {
    hide EdgesCalls;
    var k := |ivs| - 1;
    if i < k {
      assert ivs[..k][..i] == ivs[..i] && ivs[..k][i] == ivs[i];
      InvokesInOrder(ivs[..k], i, g);
    }
  }

  /** The k nodes from n on, in document order. */
  function CallsFrom(nodes: seq<StateNode>, n: Node, k: nat, g: Table): seq<Callsite>
    requires n + k <= |nodes|
    decreases k
  {
    if k == 0 then [] else CallsFrom(nodes, n, k - 1, g) + NodeCalls(nodes[n + k - 1], n + k - 1, g)
  }

  /** The ids of cs count up from x to just before y. */
  predicate Counts(cs: seq<Callsite>, x: nat, y: nat)
  {
    y == x + |cs| && forall i | 0 <= i < |cs| :: cs[i].id == x + i
  }

  lemma CountsJoin(a: seq<Callsite>, b: seq<Callsite>, x: nat, y: nat, z: nat)
    requires Counts(a, x, y) && Counts(b, y, z)
    ensures Counts(a + b, x, z)
  {
  }

  lemma CountsParts(a: seq<Callsite>, b: seq<Callsite>, x: nat, z: nat)
    requires Counts(a + b, x, z)
    ensures Counts(a, x, x + |a|) && Counts(b, x + |a|, z)
  {
    assert forall i | 0 <= i < |a| :: (a + b)[i] == a[i];
    assert forall i | 0 <= i < |b| :: (a + b)[|a| + i] == b[i];
  }

  lemma EdgesCallsOne(ts: seq<Transition>, i: nat, g: Table)
    requires i < |ts|
    ensures EdgesCalls(ts[..i + 1], g) == EdgesCalls(ts[..i], g) + EdgeCalls(ts[i], g)
  {
    assert ts[..i + 1][..i] == ts[..i];
  }

  lemma EdgesCallsMore(ts: seq<Transition>, t: Transition, g: Table)
    ensures EdgesCalls(ts + [t], g) == EdgesCalls(ts, g) + EdgeCalls(t, g)
  {
    assert (ts + [t])[..|ts|] == ts;
  }

  lemma InvokesCallsOne(ivs: seq<Invoke>, i: nat, g: Table)
    requires i < |ivs|
    ensures InvokesCalls(ivs[..i + 1], g)
            == InvokesCalls(ivs[..i], g) + (EdgesCalls(ivs[i].onDone, g) + EdgesCalls(ivs[i].onError, g))
  {
    assert ivs[..i + 1][..i] == ivs[..i];
  }

  lemma InvokesCallsMore(ivs: seq<Invoke>, iv: Invoke, g: Table)
    ensures InvokesCalls(ivs + [iv], g) == InvokesCalls(ivs, g) + (EdgesCalls(iv.onDone, g) + EdgesCalls(iv.onError, g))
  {
    assert (ivs + [iv])[..|ivs|] == ivs;
  }

  /** In a numbered list of edges each edge starts where the ones before it stop. */
  lemma {:induction false} EdgeInPlace(ts: seq<Transition>, i: nat, g: Table, x: nat, z: nat)
    requires i < |ts| && Counts(EdgesCalls(ts, g), x, z)
    ensures var at := x + |EdgesCalls(ts[..i], g)|; Counts(EdgeCalls(ts[i], g), at, at + |EdgeCalls(ts[i], g)|)
    decreases |ts|
  {
    var k := |ts| - 1;
    CountsParts(EdgesCalls(ts[..k], g), EdgeCalls(ts[k], g), x, z);
    if i < k {
      assert ts[..k][..i] == ts[..i] && ts[..k][i] == ts[i];
      EdgeInPlace(ts[..k], i, g, x, x + |EdgesCalls(ts[..k], g)|);
    }
  }

  lemma {:induction false} InvokeInPlace(ivs: seq<Invoke>, i: nat, g: Table, x: nat, z: nat)
    requires i < |ivs| && Counts(InvokesCalls(ivs, g), x, z)
    ensures var at := x + |InvokesCalls(ivs[..i], g)|;
            var done := EdgesCalls(ivs[i].onDone, g);
            var err := EdgesCalls(ivs[i].onError, g);
            Counts(done, at, at + |done|) && Counts(err, at + |done|, at + |done| + |err|)
    decreases |ivs|
  {
    hide InvokesCalls, EdgesCalls, Counts;
    var k := |ivs| - 1;
    var mid := x + |InvokesCalls(ivs[..k], g)|;
    LastInvoke(ivs, g, x, z);
    if i < k {
      assert ivs[..k][..i] == ivs[..i] && ivs[..k][i] == ivs[i];
      InvokeInPlace(ivs[..k], i, g, x, mid);
    }
  }

  lemma InvokesCallsLast(ivs: seq<Invoke>, g: Table)
    requires ivs != []
    ensures var k := |ivs| - 1;
            InvokesCalls(ivs, g) == InvokesCalls(ivs[..k], g)
              + (EdgesCalls(ivs[k].onDone, g) + EdgesCalls(ivs[k].onError, g))
  {
  }

  lemma LastInvoke(ivs: seq<Invoke>, g: Table, x: nat, z: nat)
    requires ivs != [] && Counts(InvokesCalls(ivs, g), x, z)
    ensures var k := |ivs| - 1;
            var done := EdgesCalls(ivs[k].onDone, g);
            var err := EdgesCalls(ivs[k].onError, g);
            var mid := x + |InvokesCalls(ivs[..k], g)|;
            Counts(InvokesCalls(ivs[..k], g), x, mid) && Counts(done, mid, mid + |done|)
              && Counts(err, mid + |done|, mid + |done| + |err|)
  {
    var k := |ivs| - 1;
    hide InvokesCalls, EdgesCalls, Counts;
    var done, err := EdgesCalls(ivs[k].onDone, g), EdgesCalls(ivs[k].onError, g);
    InvokesCallsLast(ivs, g);
    CountsParts(InvokesCalls(ivs[..k], g), done + err, x, z);
    CountsParts(done, err, x + |InvokesCalls(ivs[..k], g)|, z);
  }

  lemma {:induction false} CallsFromSplit(nodes: seq<StateNode>, n: Node, k: nat, k2: nat, g: Table)
    requires n + k + k2 <= |nodes|
    ensures CallsFrom(nodes, n, k + k2, g) == CallsFrom(nodes, n, k, g) + CallsFrom(nodes, n + k, k2, g)
    decreases k2
  {
    hide CallsFrom, NodeCalls;
    CallsFromNone(nodes, n + k, g);
    if k2 == 0 {
      assert CallsFrom(nodes, n, k, g) + [] == CallsFrom(nodes, n, k, g);
    } else {
      CallsFromSplit(nodes, n, k, k2 - 1, g);
      CallsFromSplitStep(nodes, n, k, k2 - 1, g);
    }
  }

  lemma CallsFromSplitStep(nodes: seq<StateNode>, n: Node, k: nat, k2: nat, g: Table)
    requires n + k + k2 < |nodes|
    requires CallsFrom(nodes, n, k + k2, g) == CallsFrom(nodes, n, k, g) + CallsFrom(nodes, n + k, k2, g)
    ensures CallsFrom(nodes, n, k + k2 + 1, g) == CallsFrom(nodes, n, k, g) + CallsFrom(nodes, n + k, k2 + 1, g)
  {
    hide CallsFrom, NodeCalls;
    CallsFromStep(nodes, n, k + k2, g);
    CallsFromStep(nodes, n + k, k2, g);
    Reassociate(CallsFrom(nodes, n, k, g), CallsFrom(nodes, n + k, k2, g), NodeCalls(nodes[n + k + k2], n + k + k2, g));
  }

  lemma Reassociate(a: seq<Callsite>, b: seq<Callsite>, c: seq<Callsite>)
    ensures (a + b) + c == a + (b + c)
  {
  }

  lemma CallsFromNone(nodes: seq<StateNode>, n: Node, g: Table)
    requires n <= |nodes|
    ensures CallsFrom(nodes, n, 0, g) == []
  {
  }

  lemma CallsFromStep(nodes: seq<StateNode>, n: Node, k: nat, g: Table)
    requires n + k < |nodes|
    ensures CallsFrom(nodes, n, k + 1, g) == CallsFrom(nodes, n, k, g) + NodeCalls(nodes[n + k], n + k, g)
  {
  }

  lemma {:induction false} CallsFromLocal(a: seq<StateNode>, b: seq<StateNode>, n: Node, k: nat, g: Table)
    requires n + k <= |a| && n + k <= |b| && forall m | n <= m < n + k :: a[m] == b[m]
    ensures CallsFrom(a, n, k, g) == CallsFrom(b, n, k, g)
    decreases k
  {
    hide NodeCalls;
    if k == 0 {
    } else {
      CallsFromLocal(a, b, n, k - 1, g);
    }
  }
}
