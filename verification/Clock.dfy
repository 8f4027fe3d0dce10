/** The virtual clock of the test kit (statesmantest/clock.go): time moves only when a test
    advances it, and every timer then due fires, in deadline order. */
module Clocks {

  // ------------------------------------------------------------------ a timer

  /** What a timer's callback does to the service, in order: it schedules further timers, each
      with a callback of its own, and cancels timers, named by their place in the list of all
      timers ever scheduled. */
  datatype Callback = Callback(acts: seq<Act>)
  datatype Act = Arm(at: int, fire: Callback) | Drop(place: nat)

  /** The state of a timer as a value. */
  datatype TimerState = TimerState(deadline: int, fire: Callback, cancelled: bool, fired: bool)
  {
    predicate Due(now: int) { !cancelled && !fired && deadline <= now }
  }

  class ManualTimer {
    const deadline: int
    const fire: Callback
    var cancelled: bool
    var fired: bool

    constructor (at: int, fire: Callback)
      ensures deadline == at && this.fire == fire && !cancelled && !fired
    {
      deadline, this.fire, cancelled, fired := at, fire, false, false;
    }

    predicate Due(now: int)
      reads this
    {
      !cancelled && !fired && deadline <= now
    }

    function State(): TimerState
      reads this
    {
      TimerState(deadline, fire, cancelled, fired)
    }

    /** markFiredIfDue. */
    method MarkFiredIfDue(now: int) returns (marked: bool)
      modifies this`fired
      ensures marked == old(Due(now)) && fired == (old(fired) || marked)
    {
      if cancelled || fired || deadline > now { return false; }
      fired := true;
      return true;
    }

    /** Cancel: it has an effect exactly on a timer that is neither fired nor cancelled. */
    method Cancel() returns (ok: bool)
      modifies this`cancelled
      ensures ok == !(fired || old(cancelled)) && cancelled == (old(cancelled) || ok)
    {
      if fired || cancelled { return false; }
      cancelled := true;
      return true;
    }
  }

  // ------------------------------------------------------------------ stable sorting by deadline

  /** Stable insertion behind the earlier and equal deadlines. */
  function Insert(q: seq<ManualTimer>, t: ManualTimer): seq<ManualTimer>
  {
    if q == [] then [t]
    else if q[|q| - 1].deadline <= t.deadline then q + [t]
    else Insert(q[..|q| - 1], t) + [q[|q| - 1]]
  }

  /** Go's sort.SliceStable by deadline. */
  function StableSort(q: seq<ManualTimer>): seq<ManualTimer>
  {
    if q == [] then [] else Insert(StableSort(q[..|q| - 1]), q[|q| - 1])
  }

  predicate ByDeadline(q: seq<ManualTimer>)
  {
    forall i, j | 0 <= i < j < |q| :: q[i].deadline <= q[j].deadline
  }

  /** Those timers of q that have the given deadline, in their order. */
  function At(q: seq<ManualTimer>, deadline: int): seq<ManualTimer>
  {
    if q == [] then []
    else At(q[..|q| - 1], deadline) + (if q[|q| - 1].deadline == deadline then [q[|q| - 1]] else [])
  }

  lemma {:induction false} InsertHolds(q: seq<ManualTimer>, t: ManualTimer)
    ensures multiset(Insert(q, t)) == multiset(q) + multiset{t}
    decreases |q|
  {
    if q != [] && q[|q| - 1].deadline > t.deadline {
      InsertHolds(q[..|q| - 1], t);
      assert q == q[..|q| - 1] + [q[|q| - 1]];
    }
  }

  lemma {:induction false} InsertSorts(q: seq<ManualTimer>, t: ManualTimer)
    requires ByDeadline(q)
    ensures ByDeadline(Insert(q, t))
    decreases |q|
  {
    if q != [] && q[|q| - 1].deadline > t.deadline {
      var front, last := q[..|q| - 1], q[|q| - 1];
      InsertSorts(front, t);
      InsertHolds(front, t);
      var r := Insert(front, t);
      forall i | 0 <= i < |r| ensures r[i].deadline <= last.deadline {
        assert r[i] in multiset(r);
      }
    }
  }

  lemma AtLast(q: seq<ManualTimer>, t: ManualTimer, e: int)
    ensures At(q + [t], e) == At(q, e) + (if t.deadline == e then [t] else [])
  {
    assert (q + [t])[..|q|] == q;
  }

  lemma InsertUnfold(q: seq<ManualTimer>, t: ManualTimer)
    ensures q == [] || q[|q| - 1].deadline <= t.deadline ==> Insert(q, t) == q + [t]
    ensures q != [] && q[|q| - 1].deadline > t.deadline ==> Insert(q, t) == Insert(q[..|q| - 1], t) + [q[|q| - 1]]
  {
  }

  lemma {:induction false} InsertStable(q: seq<ManualTimer>, t: ManualTimer, e: int)
    ensures At(Insert(q, t), e) == At(q + [t], e)
    decreases |q|
  {
    hide At, Insert;
    InsertUnfold(q, t);
    if q != [] && q[|q| - 1].deadline > t.deadline {
      var front, last := q[..|q| - 1], q[|q| - 1];
      InsertStable(front, t, e);
      AtLast(Insert(front, t), last, e);
      AtLast(front, t, e);
      AtLast(front, last, e);
      AtLast(q, t, e);
      assert q == front + [last];
    }
  }

  /** The result is sorted, holds the same timers, and keeps the order of equal deadlines. */
  lemma {:induction false} StableSortMeaning(q: seq<ManualTimer>)
    ensures ByDeadline(StableSort(q)) && multiset(StableSort(q)) == multiset(q)
    ensures forall e :: At(StableSort(q), e) == At(q, e)
    decreases |q|
  {
    if q == [] {
    } else {
      var front, last := q[..|q| - 1], q[|q| - 1];
      StableSortMeaning(front);
      InsertSorts(StableSort(front), last);
      InsertHolds(StableSort(front), last);
      assert q == front + [last];
      forall e ensures At(StableSort(q), e) == At(q, e) {
        InsertStable(StableSort(front), last, e);
        AtLast(StableSort(front), last, e);
        AtLast(front, last, e);
      }
    }
  }

  lemma SameMembers(a: seq<ManualTimer>, b: seq<ManualTimer>)
    requires multiset(a) == multiset(b)
    ensures forall t :: t in a <==> t in b
  {
    forall t ensures t in a <==> t in b { assert t in multiset(a) <==> t in multiset(b); }
  }

  lemma SortedDistinct(a: seq<ManualTimer>, b: seq<ManualTimer>)
    requires multiset(a) == multiset(b) && Distinct(b)
    ensures Distinct(a)
  {
    forall i, j | 0 <= i < j < |a| ensures a[i] != a[j] {
      if a[i] == a[j] {
        assert a == a[..j] + a[j..] && a[i] in a[..j] && a[j] in a[j..];
        assert multiset(a)[a[i]] >= 2;
        DistinctOnce(b, a[i]);
        assert false;
      }
    }
  }

  lemma {:induction false} DistinctOnce(q: seq<ManualTimer>, t: ManualTimer)
    requires Distinct(q)
    ensures multiset(q)[t] <= 1
    decreases |q|
  {
    if q == [] {
    } else {
      DistinctOnce(q[1..], t);
      assert q == [q[0]] + q[1..];
      if t == q[0] { assert t !in q[1..]; }
    }
  }

  lemma DistinctJoin(a: seq<ManualTimer>, b: seq<ManualTimer>)
    requires Distinct(a) && Distinct(b) && forall t | t in b :: t !in a
    ensures Distinct(a + b) && forall t :: t in a + b <==> t in a || t in b
  {
    forall i, j | 0 <= i < j < |a + b| ensures (a + b)[i] != (a + b)[j] {
      if i < |a| <= j { assert (a + b)[j] == b[j - |a|] && b[j - |a|] in b; }
    }
  }

  predicate Distinct(q: seq<ManualTimer>) { forall i, j | 0 <= i < j < |q| :: q[i] != q[j] }

  // ------------------------------------------------------------------ what callbacks do

  /** One act of a callback on the list of all timers. */
  function Performed(q: seq<TimerState>, act: Act): seq<TimerState>
  {
    match act
    case Arm(at, fire) => q + [TimerState(at, fire, false, false)]
    case Drop(k) => if k < |q| && !q[k].fired && !q[k].cancelled then q[k := q[k].(cancelled := true)] else q
  }

  function PerformedAll(q: seq<TimerState>, acts: seq<Act>): seq<TimerState>
  {
    if acts == [] then q else Performed(PerformedAll(q, acts[..|acts| - 1]), acts[|acts| - 1])
  }

  lemma {:induction false} PerformedInTurn(q: seq<TimerState>, a: seq<Act>, b: seq<Act>)
    ensures PerformedAll(q, a + b) == PerformedAll(PerformedAll(q, a), b)
    decreases |b|
  {
    if b == [] {
      assert a + b == a;
    } else {
      assert (a + b)[..|a + b| - 1] == a + b[..|b| - 1];
      PerformedInTurn(q, a, b[..|b| - 1]);
    }
  }

  /** Timers that have fired are left as they are, cancelled ones stay cancelled, a timer not yet
      cancelled is cancelled only if the callbacks drop it, and what they schedule comes behind
      the others and has not fired. */
  lemma {:induction false} PerformedMeaning(q: seq<TimerState>, acts: seq<Act>)
    ensures var r := PerformedAll(q, acts);
            && |q| <= |r|
            && (forall i | 0 <= i < |q| ::
                  && r[i] == q[i].(cancelled := r[i].cancelled)
                  && (q[i].fired || q[i].cancelled ==> r[i] == q[i])
                  && (r[i].cancelled ==> q[i].cancelled || Drop(i) in acts))
            && (forall i | |q| <= i < |r| :: !r[i].fired)
    decreases |acts|
  {
    if acts == [] {
    } else {
      var last := acts[|acts| - 1];
      assert acts == acts[..|acts| - 1] + [last];
      PerformedMeaning(q, acts[..|acts| - 1]);
    }
  }

  /** The timers that are due by now are marked as fired. */
  function Ripened(q: seq<TimerState>, now: int): seq<TimerState>
  {
    seq(|q|, i requires 0 <= i < |q| => q[i].(fired := q[i].fired || q[i].Due(now)))
  }

  // ------------------------------------------------------------------ the service

  class ManualTimerService {
    var now: int
    var timers: seq<ManualTimer>
    /** Every timer that has fired so far, in order. */
    ghost var log: seq<ManualTimer>

    /** Over every run: no timer fires twice, none fires and is cancelled, and only scheduled
        timers fire. */
    ghost predicate Valid()
      reads this, timers
    {
      && Distinct(timers) && Distinct(log)
      && (forall t | t in log :: t in timers)
      && (forall t | t in timers :: t.fired <==> t in log)
      && (forall t | t in timers :: !(t.fired && t.cancelled))
    }

    /** All timers ever scheduled, as values. */
    ghost function View(): (q: seq<TimerState>)
      reads this, timers
      ensures |q| == |timers| && forall i | 0 <= i < |q| :: q[i] == timers[i].State()
    {
      seq(|timers|, i requires 0 <= i < |timers| reads this, timers => timers[i].State())
    }

    constructor (start: int)
      ensures Valid() && now == start && timers == [] && log == []
    {
      now, timers, log := start, [], [];
    }

    method Schedule(at: int, fire: Callback) returns (t: ManualTimer)
      requires Valid()
      modifies this`timers
      ensures Valid() && fresh(t) && t.deadline == at && t.fire == fire && !t.fired && !t.cancelled
      ensures timers == old(timers) + [t]
    {
      t := new ManualTimer(at, fire);
      timers := timers + [t];
    }

    /** A client cancels one of the timers: it never fires afterwards, and one that has
        fired or was cancelled before is left as it is. */
    method CancelOne(t: ManualTimer) returns (ok: bool)
      requires Valid() && t in timers
      modifies t`cancelled
      ensures Valid() && ok == !(t.fired || old(t.cancelled)) && (ok ==> t !in log)
      ensures t.cancelled == (old(t.cancelled) || ok)
    {
      ok := t.Cancel();
    }

    /** Advance: exactly the timers due by the new time fire, each once, by deadline and then
        by order of scheduling.  Callbacks run when every due timer is already marked: what
        they cancel is not among those, and what they schedule comes behind the other timers,
        in order, and does not fire this time, due or not. */
    method Advance(d: int) returns (order: seq<ManualTimer>)
      requires Valid()
      modifies this`now, this`log, this`timers, timers`fired, timers`cancelled
      ensures Valid() && now == old(now) + d
      ensures log == old(log) + order && ByDeadline(order) && Distinct(order)
      ensures forall t :: t in order <==> t in old(timers) && old(t.Due(now + d))
      ensures forall e :: At(order, e) == At(Among(old(timers), old(DueSet(timers, now + d))), e)
      ensures View() == PerformedAll(Ripened(old(View()), old(now) + d), ActsOf(order))
      ensures old(timers) <= timers && forall t | t in timers :: t in old(timers) || fresh(t)
    {
      order := Ripen(d);
      RunCallbacks(order);
    }

    /** What the callbacks of these timers do, in order. */
    static function ActsOf(order: seq<ManualTimer>): seq<Act>
    {
      if order == [] then [] else ActsOf(order[..|order| - 1]) + order[|order| - 1].fire.acts
    }

    /** The loop that fires the due timers. */
    method RunCallbacks(order: seq<ManualTimer>)
      requires Valid()
      modifies this`timers, timers`cancelled
      ensures Valid() && old(timers) <= timers && View() == PerformedAll(old(View()), ActsOf(order))
      ensures forall t | t in timers :: t in old(timers) || fresh(t)
    {
      hide View, PerformedAll;
      NothingDone(View());
      for i := 0 to |order|
        invariant Valid() && old(timers) <= timers && View() == PerformedAll(old(View()), ActsOf(order[..i]))
        invariant forall t | t in timers :: t in old(timers) || fresh(t)
      {
        assert order[..i + 1][..i] == order[..i];
        PerformedInTurn(old(View()), ActsOf(order[..i]), order[i].fire.acts);
        assert forall k | 0 <= k < |timers| :: timers[k] in old(timers) || fresh(timers[k]);
        RunOne(order[i].fire);
      }
      assert order[..|order|] == order;
    }

    lemma NothingDone(q: seq<TimerState>)
      ensures PerformedAll(q, []) == q
    {
    }

    /** One callback. */
    method RunOne(fire: Callback)
      requires Valid()
      modifies this`timers, timers`cancelled
      ensures Valid() && old(timers) <= timers && View() == PerformedAll(old(View()), fire.acts)
      ensures forall t | t in timers :: t in old(timers) || fresh(t)
    {
      hide View;
      for j := 0 to |fire.acts|
        invariant Valid() && old(timers) <= timers && View() == PerformedAll(old(View()), fire.acts[..j])
        invariant forall t | t in timers :: t in old(timers) || fresh(t)
      {
        assert fire.acts[..j + 1][..j] == fire.acts[..j];
        assert forall k | 0 <= k < |timers| :: timers[k] in old(timers) || fresh(timers[k]);
        Perform(fire.acts[j]);
      }
      assert fire.acts[..|fire.acts|] == fire.acts;
    }

    /** One act of a callback. */
    method Perform(act: Act)
      requires Valid()
      modifies this`timers, timers`cancelled
      ensures Valid() && old(timers) <= timers && View() == Performed(old(View()), act)
      ensures forall t | t in timers :: t in old(timers) || fresh(t)
    {
      match act
      case Arm(at, fire) =>
        var t := Schedule(at, fire);
        assert View() == old(View()) + [t.State()];
      case Drop(k) =>
        if k < |timers| {
          var ok := CancelOne(timers[k]);
          forall i | 0 <= i < |timers| ensures View()[i] == Performed(old(View()), act)[i] {
            if i != k { assert timers[i] != timers[k]; }
          }
        }
    }

    /** The timers due by the new time are marked and put in order. */
    method Ripen(d: int) returns (order: seq<ManualTimer>)
      requires Valid()
      modifies this`now, this`log, timers`fired
      ensures Valid() && now == old(now) + d && timers == old(timers)
      ensures log == old(log) + order && ByDeadline(order) && Distinct(order)
      ensures forall t :: t in order <==> t in timers && old(t.Due(now + d))
      ensures forall e :: At(order, e) == At(Among(timers, old(DueSet(timers, now + d))), e)
      ensures View() == Ripened(old(View()), now)
    {
      hide StableSort, Among, At, ByDeadline, Distinct, DueSet;
      ghost var dueSet := DueSet(timers, now + d);
      now := now + d;
      var due := MarkDue(now, dueSet);
      order := SortStable(due);
      DistinctJoin(log, order);
      log := log + order;
    }

    /** Go's sort.SliceStable on the due timers. */
    method SortStable(due: seq<ManualTimer>) returns (order: seq<ManualTimer>)
      requires Distinct(due)
      ensures order == StableSort(due)
      ensures ByDeadline(order) && Distinct(order) && (forall t :: t in order <==> t in due)
              && forall e :: At(order, e) == At(due, e)
    {
      order := StableSort(due);
      StableSortMeaning(due);
      SameMembers(order, due);
      SortedDistinct(order, due);
    }

    static ghost function DueSet(q: seq<ManualTimer>, at: int): (r: set<ManualTimer>)
      reads q
      ensures forall t | t in r :: t in q && t.Due(at)
      ensures forall t | t in q && t.Due(at) :: t in r
    {
      set t | t in q && t.Due(at)
    }

    /** The loop that marks the due timers. */
    method MarkDue(at: int, ghost dueSet: set<ManualTimer>) returns (due: seq<ManualTimer>)
      requires Distinct(timers) && forall t | t in timers :: t in dueSet <==> t.Due(at)
      modifies timers`fired
      ensures due == Among(timers, dueSet) && Distinct(due)
      ensures forall t :: t in due <==> t in timers && t in dueSet
      ensures forall t | t in timers :: t.fired == (old(t.fired) || t in dueSet)
    {
      due := [];
      for i := 0 to |timers|
        invariant due == Among(timers[..i], dueSet)
        invariant forall j | 0 <= j < i :: timers[j].fired == (old(timers[j].fired) || timers[j] in dueSet)
        invariant forall j | i <= j < |timers| :: timers[j].fired == old(timers[j].fired)
      {
        assert timers[..i + 1][..i] == timers[..i];
        assert timers[i] in dueSet <==> timers[i].Due(at);
        var marked := timers[i].MarkFiredIfDue(at);
        if marked { due := due + [timers[i]]; }
      }
      assert timers[..|timers|] == timers;
      AmongMeaning(timers, dueSet);
    }
  }

  /** Those timers of q that are in s, in their order. */
  ghost function Among(q: seq<ManualTimer>, s: set<ManualTimer>): seq<ManualTimer>
  {
    if q == [] then []
    else Among(q[..|q| - 1], s) + (if q[|q| - 1] in s then [q[|q| - 1]] else [])
  }

  lemma {:induction false} AmongMeaning(q: seq<ManualTimer>, s: set<ManualTimer>)
    requires Distinct(q)
    ensures forall t :: t in Among(q, s) <==> t in q && t in s
    ensures Distinct(Among(q, s))
    decreases |q|
  {
    if q == [] {
    } else {
      AmongMeaning(q[..|q| - 1], s);
      assert q[|q| - 1] !in q[..|q| - 1];
    }
  }
}
