/** The engine object (microstep.go): its fields are updated in place by step, offer and
    commit, and each method is proved against the functions of module Engines. */
module EngineObjects {
  import opened Definitions
  import opened Configurations
  import opened Entry
  import opened Selection
  import opened Microsteps
  import opened Histories
  import opened Staging
  import opened Engines

  class Engine {
    const chart: Chart
    var cfg: NodeSet
    var ctx: Ctx
    var hist: Hist
    var internalQueue: seq<Queued>
    var pendingExternal: Option<Queued>
    var alwaysRun: nat
    var status: Status
    var errReason: Option<Reason>
    var lastEvt: Payload

    ghost function View(): State
      reads this, cfg
    {
      State(cfg.members, ctx, hist, internalQueue, pendingExternal, alwaysRun, status, errReason, lastEvt)
    }

    /** microstep.go: newEngine; a limit that is not positive means the default one. */
    constructor (d: Definition, b: Behavior, initCtx: Ctx, alwaysLimit: int)
      ensures fresh(cfg)
      ensures chart == Chart(d, b, if alwaysLimit <= 0 then 100 else alwaysLimit)
      ensures View() == InitialState(b, initCtx)
    {
      chart := Chart(d, b, if alwaysLimit <= 0 then DEFAULT_ALWAYS_LIMIT else alwaysLimit);
      cfg := new NodeSet({});
      ctx, hist := initCtx, map[];
      internalQueue, pendingExternal, alwaysRun := [], None, 0;
      status, errReason, lastEvt := Starting, None, b.zero;
    }

    /** microstep.go: start. */
    method Start() returns (ms: Microstep)
      requires WellFormed(chart.d) && View() == InitialState(chart.b, ctx)
      modifies this`lastEvt
      ensures fresh(ms.cfg) && ms.cfg.members == ms.staged.cfg
      ensures ms.staged == StartStep(chart, ctx)
      ensures View() == old(View())
    {
      StartEnters(chart);
      var toEnter := new NodeSet({});
      EnterDescendants(chart.d, hist, ROOT, toEnter);
      lastEvt := chart.b.zero;
      ms := Apply(chart.d, chart.b, cfg, ctx, hist, [], [], toEnter.members, chart.b.zero, false);
    }

    /** microstep.go: offer and offerDescriptor (which passes the zero payload). */
    method Offer(evt: Queued)
      modifies this`pendingExternal
      ensures View() == old(View()).(pendingExternal := Some(evt))
    {
      pendingExternal := Some(evt);
    }

    /** microstep.go: microstepFor. */
    method StageFor(ts: seq<Transition>, evt: Payload, triggered: bool) returns (ms: Microstep)
      requires Runnable(chart, View()) && Selected(chart.d, cfg.members, ts)
      modifies this`lastEvt
      ensures fresh(ms.cfg) && ms.cfg.members == ms.staged.cfg
      ensures ms.staged == MicrostepFor(chart, old(View()), ts, evt, triggered)
      ensures View() == old(View()).(lastEvt := evt)
    {
      var d := chart.d;
      StagedRooted(d, hist, cfg.members, ts);
      ExitsKnown(chart, View(), ts);
      var exits := ComputeExitSet(d, cfg.members, ts);
      DescendingSorted(UnionOfExits(d, cfg.members, ts), |d.nodes|);
      var toEnter := ComputeEntrySet(d, hist, ts);
      lastEvt := evt;
      ms := Apply(d, chart.b, cfg, ctx, hist, exits, ts, toEnter.members, evt, triggered);
    }

    /** microstep.go: selectEventlessTransitions and selectTransitions on the live state. */
    method SelectEdges(trigger: Trigger, evt: Payload) returns (ts: seq<Transition>)
      requires Runnable(chart, View())
      ensures ts == Matching(chart, View(), trigger, evt)
      ensures Selected(chart.d, cfg.members, ts)
    {
      var pass := Pass(chart.b, ctx, evt);
      SelectChooses(chart.d, cfg.members, trigger, pass);
      EnabledMeaning(chart.d, cfg.members, trigger, pass);
      var enabled := CollectEnabled(chart.d, cfg, trigger, pass);
      ts := RemoveConflicting(chart.d, cfg.members, enabled);
    }

    /** microstep.go: step, the part that takes one event off the internal queue or, that
        being empty, the pending external event. */
    method StepEvent() returns (ms: Option<Microstep>)
      requires Runnable(chart, View())
      modifies this`internalQueue, this`pendingExternal, this`lastEvt
      ensures View() == StepInternal(chart, old(View())).0
      ensures ms == None <==> StepInternal(chart, old(View())).1.Settled?
      ensures ms.Some? ==> fresh(ms.value.cfg) && ms.value.cfg.members == ms.value.staged.cfg
      ensures ms.Some? ==> ms.value.staged == StepInternal(chart, old(View())).1.ms
    {
      hide WellFormed, Rooted, EntryReady, Selected;
      while |internalQueue| > 0
        invariant Runnable(chart, View())
        invariant StepInternal(chart, old(View())) == StepInternal(chart, View())
      {
        var qe := internalQueue[0];
        internalQueue := internalQueue[1..];
        var ts := SelectEdges(OnEvent(qe.descriptor), qe.payload);
        if |ts| > 0 {
          var staged := StageFor(ts, qe.payload, true);
          return Some(staged);
        }
      }
      if pendingExternal.Some? {
        var qe := pendingExternal.value;
        pendingExternal := None;
        var ts := SelectEdges(OnEvent(qe.descriptor), qe.payload);
        if |ts| > 0 {
          var staged := StageFor(ts, qe.payload, true);
          return Some(staged);
        }
      }
      return None;
    }

    /** microstep.go: step.  Configuration, context and history are not among the fields it
        may change, and the staged microstep owns a configuration of its own. */
    method Step() returns (ms: Option<Microstep>)
      requires Runnable(chart, View())
      modifies this`internalQueue, this`pendingExternal, this`alwaysRun, this`status, this`errReason, this`lastEvt
      ensures View() == Engines.Step(chart, old(View())).0
      ensures ms == None <==> Engines.Step(chart, old(View())).1.Settled?
      ensures ms.Some? ==> fresh(ms.value.cfg) && ms.value.cfg.members == ms.value.staged.cfg
      ensures ms.Some? ==> ms.value.staged == Engines.Step(chart, old(View())).1.ms
    {
      hide WellFormed, Rooted, EntryReady, Selected;
      var zero := chart.b.zero;
      var ts := SelectEdges(Always, zero);
      if |ts| == 0 {
        ms := StepEvent();
      } else if alwaysRun >= chart.alwaysLimit {
        status, errReason := Error, Some(AlwaysLoopExceeded);
        ms := None;
      } else {
        alwaysRun := alwaysRun + 1;
        var staged := StageFor(ts, zero, false);
        ms := Some(staged);
      }
    }

    /** microstep.go: commit. */
    method Commit(ms: Microstep)
      requires ms.cfg.members == ms.staged.cfg
      modifies this
      ensures cfg == ms.cfg
      ensures View() == CommitState(chart, old(View()), ms.staged)
    {
      cfg, hist, ctx := ms.cfg, ms.staged.hist, ms.staged.ctx;
      var names := ms.staged.internalEnqueue;
      ghost var queued := internalQueue + DoneQueue(chart.b, names);
      for i := 0 to |names|
        invariant queued == internalQueue + DoneQueue(chart.b, names[i..])
        invariant View() == old(View()).(cfg := ms.staged.cfg, hist := ms.staged.hist, ctx := ms.staged.ctx,
                                         internalQueue := internalQueue)
        invariant cfg == ms.cfg
      {
        assert names[i..][1..] == names[i + 1..];
        internalQueue := internalQueue + [Queued(names[i], chart.b.zero)];
      }
      if ms.staged.reachedFinal {
        status := Done;
      } else if status == Starting {
        status := Running;
      }
      if ms.staged.triggered { alwaysRun := 0; }
    }
  }
}
