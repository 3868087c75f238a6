/**
 * The timing wheel (src/reactor/Timer.cpp, src/reactor/Timer.h) as values: one tick of the wheel, during which
 * callbacks may disable timers, and its refinement of a flat list of deadlines.
 */
module TimingWheels {
  import opened Common

  const ROUND_SIZE: nat := 100

  /** What a timer is, apart from where it sits in the wheel. */
  datatype Task = Task(id: nat, timeout: nat, repeat: bool)

  datatype Timer = Timer(task: Task, round: nat, disabled: bool)

  datatype Wheel = Wheel(interval: nat, cur: nat, slots: seq<seq<Timer>>)

  predicate WellFormed(w: Wheel) {
    w.interval > 0 && w.cur < ROUND_SIZE && |w.slots| == ROUND_SIZE
  }

  /** The timeout in wheel ticks. */
  function Ticks(timeout: nat, interval: nat): nat
    requires interval > 0
  {
    timeout / interval
  }

  lemma TicksPositive(timeout: nat, interval: nat)
    requires 0 < interval
    ensures Ticks(timeout, interval) >= 1 <==> timeout >= interval
  {
    if timeout >= interval {
      ModUnique(timeout - interval, (timeout - interval) / interval, (timeout - interval) % interval, interval);
      ModUnique(timeout, (timeout - interval) / interval + 1, (timeout - interval) % interval, interval);
    } else {
      ModUnique(timeout, 0, timeout, interval);
    }
  }

  /** The timeout holds that many whole intervals. */
  lemma TicksAreWholeIntervals(timeout: nat, interval: nat, d: nat)
    requires interval > 0
    ensures Ticks(timeout, interval) == d <==> d * interval <= timeout < (d + 1) * interval
  {
    if d * interval <= timeout < (d + 1) * interval {
      ModUnique(timeout, d, timeout - d * interval, interval);
    }
  }

  // -------- addEntry --------

  /** The rounds to wait before firing. The written line counts the distance from slot 0, not from the cursor. */
  function RoundsFor(v: Variant, cur: nat, d: nat): nat {
    if v.AsWritten? then (cur + d) / ROUND_SIZE else d / ROUND_SIZE
  }

  function SlotFor(cur: nat, d: nat): nat {
    (cur + d) % ROUND_SIZE
  }

  function Rearmed(v: Variant, interval: nat, cur: nat, e: Timer): Timer
    requires interval > 0
  {
    e.(round := RoundsFor(v, cur, Ticks(e.task.timeout, interval)))
  }

  function AddEntry(v: Variant, w: Wheel, e: Timer): Wheel
    requires WellFormed(w)
  {
    var slot := SlotFor(w.cur, Ticks(e.task.timeout, w.interval));
    w.(slots := w.slots[slot := w.slots[slot] + [Rearmed(v, w.interval, w.cur, e)]])
  }

  // -------- disable --------

  function Stop(s: seq<Timer>, ids: set<nat>): seq<Timer> {
    seq(|s|, i requires 0 <= i < |s| => if s[i].task.id in ids then s[i].(disabled := true) else s[i])
  }

  function StopAll(w: Wheel, ids: set<nat>): Wheel {
    w.(slots := seq(|w.slots|, j requires 0 <= j < |w.slots| => Stop(w.slots[j], ids)))
  }

  // -------- tick --------

  /**
   * The loop of `tick` over the current slot: the wheel it changes, the index it is at, and the callbacks it has run.
   */
  datatype Sweep = Sweep(w: Wheel, at: nat, fired: seq<Task>)

  predicate InSweep(s: Sweep) {
    WellFormed(s.w) && s.at <= |s.w.slots[s.w.cur]|
  }

  function Pending(s: Sweep): seq<Timer>
    requires InSweep(s)
  {
    s.w.slots[s.w.cur][s.at..]
  }

  function Visited(s: Sweep): seq<Timer>
    requires InSweep(s)
  {
    s.w.slots[s.w.cur][..s.at]
  }

  /** The wheel with another list in its current slot. */
  function WithCurrent(w: Wheel, s: seq<Timer>): Wheel
    requires WellFormed(w)
  {
    w.(slots := w.slots[w.cur := s])
  }

  predicate Fires(e: Timer) {
    !e.disabled && e.round == 0
  }

  predicate SameSlot(interval: nat, cur: nat, e: Timer)
    requires interval > 0
  {
    SlotFor(cur, Ticks(e.task.timeout, interval)) == cur
  }

  function CountedDown(e: Timer): Timer
    requires e.round > 0
  {
    e.(round := e.round - 1)
  }

  /** The timer at the index of the sweep is erased. */
  function Erased(s: Sweep): Sweep
    requires InSweep(s) && Pending(s) != []
  {
    s.(w := WithCurrent(s.w, Visited(s) + Pending(s)[1..]))
  }

  /**
   * One iteration: the timer at the index is dropped, counted down, or fired. Its callback disables the timers in
   * `stop`, which may include itself; after that a repeating timer is inserted again.
   */
  function Visit(v: Variant, s: Sweep, stop: set<nat>): Sweep
    requires InSweep(s) && Pending(s) != []
  {
    var e := Pending(s)[0];
    if e.disabled then
      Erased(s)
    else if e.round > 0 then
      Sweep(WithCurrent(s.w, Visited(s) + [CountedDown(e)] + Pending(s)[1..]), s.at + 1, s.fired)
    else
      var w := StopAll(Erased(s).w, stop);
      Sweep(if e.task.repeat then AddEntry(v, w, e.(disabled := e.task.id in stop)) else w, s.at, s.fired + [e.task])
  }

  /** What a fired timer leaves at the end of a slot. */
  function Back(v: Variant, interval: nat, cur: nat, e: Timer, stop: set<nat>, slot: nat): seq<Timer>
    requires interval > 0
  {
    if e.task.repeat && SlotFor(cur, Ticks(e.task.timeout, interval)) == slot
    then [Rearmed(v, interval, cur, e.(disabled := e.task.id in stop))]
    else []
  }

  /** One iteration, in the slot being swept. */
  lemma VisitCurrent(v: Variant, s: Sweep, stop: set<nat>)
    requires InSweep(s) && Pending(s) != []
    ensures var s', e, rest := Visit(v, s, stop), Pending(s)[0], Pending(s)[1..];
            && InSweep(s') && s'.w.interval == s.w.interval && s'.w.cur == s.w.cur
            && s'.fired == (if Fires(e) then s.fired + [e.task] else s.fired)
            && Visited(s') == (if Fires(e) then Stop(Visited(s), stop)
                               else if e.disabled then Visited(s) else Visited(s) + [CountedDown(e)])
            && Pending(s') == (if Fires(e) then Stop(rest, stop) + Back(v, s.w.interval, s.w.cur, e, stop, s.w.cur)
                               else rest)
  {
    var e, rest := Pending(s)[0], Pending(s)[1..];
    if Fires(e) {
      var list := Stop(Visited(s) + rest, stop);
      assert list[..s.at] == Stop(Visited(s), stop) && list[s.at..] == Stop(rest, stop);
    }
  }

  /** One iteration, in the other slots. */
  lemma VisitOthers(v: Variant, s: Sweep, stop: set<nat>)
    requires InSweep(s) && Pending(s) != []
    ensures var s', e := Visit(v, s, stop), Pending(s)[0];
            |s'.w.slots| == ROUND_SIZE && forall j :: 0 <= j < ROUND_SIZE && j != s.w.cur ==>
              s'.w.slots[j] == if Fires(e) then Stop(s.w.slots[j], stop) + Back(v, s.w.interval, s.w.cur, e, stop, j)
                               else s.w.slots[j]
  {
  }

  // -------- termination of one tick --------

  /** An entry the loop fires and puts back in front of itself, as long as no callback disables it. */
  predicate Hangs(interval: nat, e: Timer) {
    Fires(e) && e.task.repeat && e.task.timeout < interval
  }

  predicate HangFree(interval: nat, s: seq<Timer>) {
    forall i :: 0 <= i < |s| ==> !Hangs(interval, s[i])
  }

  /** The number of iterations a list may still cost: a repeating entry that fires may be visited twice. */
  function Cost(s: seq<Timer>): nat {
    if s == [] then 0 else Cost(s[1..]) + (if Fires(s[0]) && s[0].task.repeat then 2 else 1)
  }

  lemma {:induction false} CostOfAppended(s: seq<Timer>, e: Timer)
    ensures Cost(s + [e]) == Cost(s) + Cost([e])
  {
    if s == [] {
      assert s + [e] == [e];
    } else {
      CostOfAppended(s[1..], e);
      assert (s + [e])[1..] == s[1..] + [e];
    }
  }

  lemma {:induction false} CostOfStopped(s: seq<Timer>, ids: set<nat>)
    ensures Cost(Stop(s, ids)) <= Cost(s)
  {
    if s != [] {
      CostOfStopped(s[1..], ids);
      assert Stop(s, ids)[1..] == Stop(s[1..], ids);
    }
  }

  /** An entry put back into the slot being swept waits at least one round, or its timeout is below the interval. */
  lemma SameSlotWaits(v: Variant, interval: nat, cur: nat, e: Timer)
    requires interval > 0 && cur < ROUND_SIZE && SameSlot(interval, cur, e)
    ensures Rearmed(v, interval, cur, e).round == 0 <==> e.task.timeout < interval
  {
    TicksPositive(e.task.timeout, interval);
  }

  lemma FiringLowersCost(v: Variant, interval: nat, cur: nat, e: Timer, rest: seq<Timer>, stop: set<nat>)
    requires interval > 0 && cur < ROUND_SIZE && Fires(e) && !Hangs(interval, e) && HangFree(interval, rest)
    ensures var next := Stop(rest, stop) + Back(v, interval, cur, e, stop, cur);
            Cost(next) < Cost(rest) + (if e.task.repeat then 2 else 1) && HangFree(interval, next)
  {
    CostOfStopped(rest, stop);
    var back := Back(v, interval, cur, e, stop, cur);
    if back == [] {
      assert Stop(rest, stop) + back == Stop(rest, stop);
    } else {
      SameSlotWaits(v, interval, cur, e);
      CostOfAppended(Stop(rest, stop), back[0]);
    }
  }

  lemma VisitLowersCost(v: Variant, s: Sweep, stop: set<nat>)
    requires InSweep(s) && Pending(s) != [] && HangFree(s.w.interval, Pending(s))
    ensures InSweep(Visit(v, s, stop))
    ensures Cost(Pending(Visit(v, s, stop))) < Cost(Pending(s))
    ensures HangFree(s.w.interval, Pending(Visit(v, s, stop)))
  {
    VisitCurrent(v, s, stop);
    var e, rest := Pending(s)[0], Pending(s)[1..];
    assert HangFree(s.w.interval, rest);
    if Fires(e) {
      FiringLowersCost(v, s.w.interval, s.w.cur, e, rest, stop);
    }
  }

  /** What the callbacks of one tick do: the `k`-th one disables the timers in `stops(k)`. */
  type Callbacks = nat -> set<nat>

  /** Before the first iteration. */
  function Start(w: Wheel): Sweep {
    Sweep(w, 0, [])
  }

  /** One iteration, with what its callback is going to do. */
  function Visiting(v: Variant, stops: Callbacks): Sweep -> Sweep {
    (s: Sweep) => if InSweep(s) && Pending(s) != [] then Visit(v, s, stops(|s.fired|)) else s
  }

  function AtEnd(): Sweep -> bool {
    (s: Sweep) => !InSweep(s) || Pending(s) == []
  }

  /** The sweep after `n` iterations, or after its end. */
  function After(v: Variant, s: Sweep, stops: Callbacks, n: nat): (r: Sweep)
    requires InSweep(s)
    ensures InSweep(r) && r.w.interval == s.w.interval && r.w.cur == s.w.cur
  {
    SweepKeepsShape(v, s, stops, n);
    Iterate(Visiting(v, stops), AtEnd(), s, n)
  }

  lemma {:induction false} SweepKeepsShape(v: Variant, s: Sweep, stops: Callbacks, n: nat)
    requires InSweep(s)
    ensures var r := Iterate(Visiting(v, stops), AtEnd(), s, n);
            InSweep(r) && r.w.interval == s.w.interval && r.w.cur == s.w.cur
    decreases n
  {
    if n > 0 && Pending(s) != [] {
      VisitCurrent(v, s, stops(|s.fired|));
      SweepKeepsShape(v, Visit(v, s, stops(|s.fired|)), stops, n - 1);
    }
  }

  lemma AfterFirst(v: Variant, s: Sweep, stops: Callbacks, n: nat)
    requires InSweep(s) && n > 0 && Pending(s) != []
    ensures var s' := Visit(v, s, stops(|s.fired|)); InSweep(s') && After(v, s, stops, n) == After(v, s', stops, n - 1)
  {
    VisitCurrent(v, s, stops(|s.fired|));
  }

  ghost predicate Ends(v: Variant, s: Sweep, stops: Callbacks)
    requires InSweep(s)
  {
    exists n: nat :: Pending(After(v, s, stops, n)) == []
  }

  /** The loop, run to its end. */
  ghost function Swept(v: Variant, s: Sweep, stops: Callbacks): (r: Sweep)
    requires InSweep(s) && Ends(v, s, stops)
    ensures InSweep(r) && Pending(r) == [] && r.w.interval == s.w.interval && r.w.cur == s.w.cur
  {
    var n: nat :| Pending(After(v, s, stops, n)) == [];
    After(v, s, stops, n)
  }

  /** However its end is reached, the loop has one outcome. */
  lemma SweptIs(v: Variant, s: Sweep, stops: Callbacks, n: nat)
    requires InSweep(s) && Pending(After(v, s, stops, n)) == []
    ensures Ends(v, s, stops) && Swept(v, s, stops) == After(v, s, stops, n)
  {
    var m: nat :| Pending(After(v, s, stops, m)) == [] && Swept(v, s, stops) == After(v, s, stops, m);
    assert AtEnd()(After(v, s, stops, n)) && AtEnd()(After(v, s, stops, m));
    if n <= m {
      IterateStays(Visiting(v, stops), AtEnd(), s, n, m);
    } else {
      IterateStays(Visiting(v, stops), AtEnd(), s, m, n);
    }
  }

  /** Some callback from the `from`-th on disables the timer. */
  ghost predicate StopsLater(stops: Callbacks, from: nat, id: nat) {
    exists k: nat :: k >= from && id in stops(k)
  }

  /**
   * One tick terminates exactly when each enabled repeating entry due in it with a timeout below the interval is
   * disabled by some callback still to come, its own or another one's. Callbacks add no timers.
   */
  lemma TickTerminatesIff(v: Variant, s: Sweep, stops: Callbacks)
    requires InSweep(s)
    ensures Ends(v, s, stops)
            <==> forall e :: e in Pending(s) && Hangs(s.w.interval, e) ==> StopsLater(stops, |s.fired|, e.task.id)
  {
    if e :| e in Pending(s) && Hangs(s.w.interval, e) && !StopsLater(stops, |s.fired|, e.task.id) {
      forall n: nat
        ensures Pending(After(v, s, stops, n)) != []
      {
        HangsForEver(v, s, stops, e, n);
      }
    } else {
      var last := LastStop(s.w.interval, Pending(s), stops, |s.fired|);
      var n := EndsAfter(v, s, stops, last);
    }
  }

  /** When callbacks disable nothing, only the entries themselves decide. */
  lemma QuietTickTerminatesIff(v: Variant, s: Sweep, stops: Callbacks)
    requires InSweep(s) && forall k: nat :: stops(k) == {}
    ensures Ends(v, s, stops) <==> HangFree(s.w.interval, Pending(s))
  {
    TickTerminatesIff(v, s, stops);
    if i :| 0 <= i < |Pending(s)| && Hangs(s.w.interval, Pending(s)[i]) {
      assert Pending(s)[i] in Pending(s) && !StopsLater(stops, |s.fired|, Pending(s)[i].task.id);
    }
  }

  /** Every entry that hangs is disabled by one of the callbacks before the `last`-th. */
  ghost predicate StoppedBy(interval: nat, s: seq<Timer>, stops: Callbacks, from: nat, last: nat) {
    forall e :: e in s && Hangs(interval, e) ==> exists k: nat :: from <= k < last && e.task.id in stops(k)
  }

  lemma {:induction false} LastStop(interval: nat, s: seq<Timer>, stops: Callbacks, from: nat) returns (last: nat)
    requires forall e :: e in s && Hangs(interval, e) ==> StopsLater(stops, from, e.task.id)
    ensures StoppedBy(interval, s, stops, from, last)
  {
    last := from;
    if s != [] {
      last := LastStop(interval, s[1..], stops, from);
      if Hangs(interval, s[0]) {
        assert s[0] in s;
        var k: nat :| k >= from && s[0].task.id in stops(k);
        last := Max(last, k + 1);
      }
    }
  }

  /** A hanging entry goes through a visit only if it is not disabled by it. */
  lemma HangingSurvives(v: Variant, s: Sweep, stop: set<nat>, e: Timer)
    requires InSweep(s) && Pending(s) != [] && InSweep(Visit(v, s, stop)) && Hangs(s.w.interval, e)
    ensures e in Pending(Visit(v, s, stop)) ==> e in Pending(s) && (Fires(Pending(s)[0]) ==> e.task.id !in stop)
    ensures e in Pending(s) && e.task.id !in stop ==> e in Pending(Visit(v, s, stop))
  {
    VisitCurrent(v, s, stop);
    var head, rest := Pending(s)[0], Pending(s)[1..];
    if Fires(head) {
      HangingBack(v, s.w.interval, s.w.cur, head, stop, e);
      StopKeeps(rest, stop, e);
    }
  }

  lemma StopKeeps(s: seq<Timer>, ids: set<nat>, e: Timer)
    requires !e.disabled
    ensures e in Stop(s, ids) <==> e in s && e.task.id !in ids
  {
    if e in s && e.task.id !in ids {
      var i :| 0 <= i < |s| && s[i] == e;
      assert Stop(s, ids)[i] == e;
    }
  }

  /** The only hanging entry a fired entry can leave in the slot is itself. */
  lemma HangingBack(v: Variant, interval: nat, cur: nat, head: Timer, stop: set<nat>, e: Timer)
    requires interval > 0 && cur < ROUND_SIZE && Fires(head) && Hangs(interval, e)
    ensures e in Back(v, interval, cur, head, stop, cur) <==> e == head && e.task.id !in stop
  {
    if head.task.repeat && SameSlot(interval, cur, head) {
      SameSlotWaits(v, interval, cur, head);
    }
    if e == head {
      TicksPositive(e.task.timeout, interval);
    }
  }

  lemma HangsOn(v: Variant, s: Sweep, stops: Callbacks, e: Timer)
    requires InSweep(s) && e in Pending(s) && Hangs(s.w.interval, e) && !StopsLater(stops, |s.fired|, e.task.id)
    ensures var s' := Visit(v, s, stops(|s.fired|));
            && InSweep(s') && s'.w.interval == s.w.interval
            && e in Pending(s') && !StopsLater(stops, |s'.fired|, e.task.id)
  {
    VisitCurrent(v, s, stops(|s.fired|));
    HangingSurvives(v, s, stops(|s.fired|), e);
    assert |Visit(v, s, stops(|s.fired|)).fired| >= |s.fired|;
  }

  lemma {:induction false} HangsForEver(v: Variant, s: Sweep, stops: Callbacks, e: Timer, n: nat)
    requires InSweep(s) && e in Pending(s) && Hangs(s.w.interval, e) && !StopsLater(stops, |s.fired|, e.task.id)
    ensures e in Pending(After(v, s, stops, n))
    decreases n
  {
    if n > 0 {
      HangsOn(v, s, stops, e);
      HangsForEver(v, Visit(v, s, stops(|s.fired|)), stops, e, n - 1);
      AfterFirst(v, s, stops, n);
    }
  }

  lemma VisitNearsStop(v: Variant, s: Sweep, stops: Callbacks, last: nat)
    requires InSweep(s) && Pending(s) != [] && StoppedBy(s.w.interval, Pending(s), stops, |s.fired|, last)
    ensures var s' := Visit(v, s, stops(|s.fired|));
            InSweep(s') && StoppedBy(s.w.interval, Pending(s'), stops, |s'.fired|, last)
  {
    var stop := stops(|s.fired|);
    VisitCurrent(v, s, stop);
    forall e | e in Pending(Visit(v, s, stop)) && Hangs(s.w.interval, e)
      ensures exists k: nat :: |Visit(v, s, stop).fired| <= k < last && e.task.id in stops(k)
    {
      HangingSurvives(v, s, stop, e);
      var k: nat :| |s.fired| <= k < last && e.task.id in stops(k);
      assert k != |s.fired| || !Fires(Pending(s)[0]);
    }
  }

  lemma {:induction false} EndsAfter(v: Variant, s: Sweep, stops: Callbacks, last: nat) returns (n: nat)
    requires InSweep(s) && StoppedBy(s.w.interval, Pending(s), stops, |s.fired|, last)
    ensures Pending(After(v, s, stops, n)) == []
    decreases Max(0, last - |s.fired|), Cost(Pending(s))
  {
    n := 0;
    if Pending(s) != [] {
      var s' := Visit(v, s, stops(|s.fired|));
      VisitCurrent(v, s, stops(|s.fired|));
      VisitNearsStop(v, s, stops, last);
      if Fires(Pending(s)[0]) && |s.fired| >= last {
        assert HangFree(s.w.interval, Pending(s));
        VisitLowersCost(v, s, stops(|s.fired|));
      }
      n := EndsAfter(v, s', stops, last);
      n := n + 1;
      AfterFirst(v, s, stops, n);
    }
  }

  ghost function TickSpec(v: Variant, w: Wheel, stops: Callbacks): (Wheel, seq<Task>)
    requires WellFormed(w) && Ends(v, Start(w), stops)
  {
    var r := Swept(v, Start(w), stops);
    (r.w.(cur := (w.cur + 1) % ROUND_SIZE), r.fired)
  }

  // -------- the flat specification --------

  /** A pending firing: `at` counts ticks since the start. */
  datatype Deadline = Deadline(task: Task, at: nat)

  /**
   * Ticks from an insertion under cursor `cur` to the firing, the next tick being 0: the timeout in ticks, and for the
   * written code a whole round more when the slots wrap.
   */
  function Delay(v: Variant, cur: nat, d: nat): nat {
    if v.AsWritten? && cur + d % ROUND_SIZE >= ROUND_SIZE then d + ROUND_SIZE else d
  }

  /** The delay that slot and round of a new entry amount to. */
  function Offset(v: Variant, cur: nat, d: nat): nat {
    d % ROUND_SIZE + ROUND_SIZE * RoundsFor(v, cur, d)
  }

  /** The repaired wheel fires exactly after `d` ticks. */
  lemma RepairedDelayIsExact(cur: nat, d: nat)
    requires cur < ROUND_SIZE
    ensures Offset(Repaired, cur, d) == Delay(Repaired, cur, d) == d
  {
  }

  /**
   * The written wheel is never early; it is exactly on time or exactly one round late, the latter iff the slots wrap.
   */
  lemma WrittenDelayIsOneRoundLateIff(cur: nat, d: nat)
    requires cur < ROUND_SIZE
    ensures Offset(AsWritten, cur, d) == Delay(AsWritten, cur, d)
    ensures Offset(AsWritten, cur, d) == d || Offset(AsWritten, cur, d) == d + 100
    ensures Offset(AsWritten, cur, d) == d + 100 <==> cur + d % 100 >= 100
  {
  }

  function NewDeadline(v: Variant, interval: nat, now: nat, task: Task): Deadline
    requires interval > 0
  {
    Deadline(task, now + Delay(v, now % ROUND_SIZE, Ticks(task.timeout, interval)))
  }

  /** In milliseconds: the timeout counts as the number `d` of whole intervals that it holds. */
  lemma NewDeadlineIs(v: Variant, interval: nat, now: nat, task: Task, d: nat)
    requires interval > 0 && d * interval <= task.timeout < (d + 1) * interval
    ensures var late := if v.AsWritten? && now % 100 + d % 100 >= 100 then 100 else 0;
            NewDeadline(v, interval, now, task) == Deadline(task, now + d + late)
  {
    TicksAreWholeIntervals(task.timeout, interval, d);
  }

  /** The tasks due at `now`, oldest deadline first. */
  function Due(flat: seq<Deadline>, now: nat): seq<Task> {
    if flat == [] then [] else if flat[0].at == now then [flat[0].task] + Due(flat[1..], now) else Due(flat[1..], now)
  }

  function NotAt(now: nat): Deadline -> bool {
    (dl: Deadline) => dl.at != now
  }

  /** The deadlines of the tasks that satisfy `keep`. */
  function Where(keep: Task -> bool): Deadline -> bool {
    (dl: Deadline) => keep(dl.task)
  }

  function TaskNotOf(ids: set<nat>): Task -> bool {
    (task: Task) => task.id !in ids
  }

  function NotOf(ids: set<nat>): Deadline -> bool {
    Where(TaskNotOf(ids))
  }

  function Renewed(v: Variant, interval: nat, now: nat, task: Task): seq<Deadline>
    requires interval > 0
  {
    if task.repeat then [NewDeadline(v, interval, now, task)] else []
  }

  /** The firings of one tick: the tasks still due, the later deadlines, and what has fired. */
  datatype Firing = Firing(due: seq<Task>, rest: seq<Deadline>, fired: seq<Task>)

  function FirstFiring(flat: seq<Deadline>, now: nat): Firing {
    Firing(Due(flat, now), Filter(NotAt(now), flat), [])
  }

  /**
   * The first due task fires and is renewed if it repeats; with a timeout below the interval it is due again at once.
   * Its callback removes the tasks it disables: from those still due, which then do not fire, and from the later
   * deadlines.
   */
  function FireOne(v: Variant, interval: nat, now: nat, f: Firing, stop: set<nat>): Firing
    requires interval > 0 && f.due != []
  {
    var renewed := Renewed(v, interval, now, f.due[0]);
    Firing(Filter(TaskNotOf(stop), f.due[1..] + Due(renewed, now)),
           Filter(NotOf(stop), f.rest + Filter(NotAt(now), renewed)),
           f.fired + [f.due[0]])
  }

  function FiringStep(v: Variant, interval: nat, now: nat, stops: Callbacks): Firing -> Firing
    requires interval > 0
  {
    (f: Firing) => if f.due == [] then f else FireOne(v, interval, now, f, stops(|f.fired|))
  }

  function NoneDue(): Firing -> bool {
    (f: Firing) => f.due == []
  }

  /** After `k` firings, or after the last one. */
  function FireMany(v: Variant, interval: nat, now: nat, stops: Callbacks, f: Firing, k: nat): Firing
    requires interval > 0
  {
    Iterate(FiringStep(v, interval, now, stops), NoneDue(), f, k)
  }

  ghost predicate FiringEnds(v: Variant, interval: nat, now: nat, stops: Callbacks, f: Firing)
    requires interval > 0
  {
    exists k: nat :: FireMany(v, interval, now, stops, f, k).due == []
  }

  ghost function FireAll(v: Variant, interval: nat, now: nat, stops: Callbacks, f: Firing): (r: Firing)
    requires interval > 0 && FiringEnds(v, interval, now, stops, f)
    ensures r.due == []
  {
    var k: nat :| FireMany(v, interval, now, stops, f, k).due == [];
    FireMany(v, interval, now, stops, f, k)
  }

  lemma FireAllIs(v: Variant, interval: nat, now: nat, stops: Callbacks, f: Firing, k: nat)
    requires interval > 0 && FireMany(v, interval, now, stops, f, k).due == []
    ensures FiringEnds(v, interval, now, stops, f)
    ensures FireAll(v, interval, now, stops, f) == FireMany(v, interval, now, stops, f, k)
  {
    var all := FireAll(v, interval, now, stops, f);
    var m: nat :| FireMany(v, interval, now, stops, f, m).due == [] && all == FireMany(v, interval, now, stops, f, m);
    if k <= m {
      IterateStays(FiringStep(v, interval, now, stops), NoneDue(), f, k, m);
    } else {
      IterateStays(FiringStep(v, interval, now, stops), NoneDue(), f, m, k);
    }
  }

  /** `Tick` carries what the callbacks of that tick are going to disable. */
  datatype Op = Add(task: Task) | Disable(id: nat) | Tick(stops: Callbacks)

  /**
   * The flat list after an operation at time `now`, and the tasks fired, in firing order. Firings that never end have
   * no outcome; the wheel's tick does not return then either (`TickReturnsIffFiringEnds`).
   */
  ghost function FlatStep(v: Variant, interval: nat, now: nat, flat: seq<Deadline>, op: Op): (seq<Deadline>, seq<Task>)
    requires interval > 0
  {
    match op
    case Add(task) => (flat + [NewDeadline(v, interval, now, task)], [])
    case Disable(id) => (Filter(NotOf({id}), flat), [])
    case Tick(stops) =>
      var f := FirstFiring(flat, now);
      if !FiringEnds(v, interval, now, stops, f) then (flat, []) else
      var r := FireAll(v, interval, now, stops, f);
      (r.rest, r.fired)
  }

  lemma FlatTickIs(v: Variant, interval: nat, now: nat, flat: seq<Deadline>, stops: Callbacks, k: nat)
    requires interval > 0 && FireMany(v, interval, now, stops, FirstFiring(flat, now), k).due == []
    ensures var r := FireMany(v, interval, now, stops, FirstFiring(flat, now), k);
            FlatStep(v, interval, now, flat, Tick(stops)) == (r.rest, r.fired)
  {
    FireAllIs(v, interval, now, stops, FirstFiring(flat, now), k);
  }

  function Later(now: nat, op: Op): nat {
    if op.Tick? then now + 1 else now
  }

  // -------- the operations of the wheel --------

  /** The operation returns: a tick must end (`TickTerminatesIff`). */
  ghost predicate Returns(v: Variant, w: Wheel, op: Op)
    requires WellFormed(w)
  {
    op.Tick? ==> Ends(v, Start(w), op.stops)
  }

  /** The wheel after an operation and the tasks it fired, in firing order. */
  ghost function WheelStep(v: Variant, w: Wheel, op: Op): (r: (Wheel, seq<Task>))
    requires WellFormed(w) && Returns(v, w, op)
    ensures WellFormed(r.0) && r.0.interval == w.interval
  {
    match op
    case Add(task) => (AddEntry(v, w, Timer(task, 0, false)), [])
    case Disable(id) => (StopAll(w, {id}), [])
    case Tick(stops) => TickSpec(v, w, stops)
  }

  // -------- refinement --------

  /** The first tick, from `now` on, at which the cursor is at slot `j`. */
  function NextVisit(now: nat, j: nat): nat
    requires j < ROUND_SIZE
  {
    var cur := now % ROUND_SIZE;
    if j >= cur then now + (j - cur) else now + (j + ROUND_SIZE - cur)
  }

  /** The enabled entries of slot `j` with the ticks at which they will fire. */
  function Live(now: nat, j: nat, s: seq<Timer>): seq<Deadline>
    requires j < ROUND_SIZE
  {
    if s == [] then [] else
    if s[0].disabled then Live(now, j, s[1..])
    else [Deadline(s[0].task, NextVisit(now, j) + ROUND_SIZE * s[0].round)] + Live(now, j, s[1..])
  }

  function On(j: nat): Deadline -> bool {
    (dl: Deadline) => dl.at % ROUND_SIZE == j
  }

  /** Each slot holds, in order, what the flat list has for the ticks at which the cursor visits that slot. */
  ghost predicate Refines(w: Wheel, now: nat, flat: seq<Deadline>)
    requires WellFormed(w)
  {
    && w.cur == now % ROUND_SIZE
    && forall j :: 0 <= j < ROUND_SIZE ==> Live(now, j, w.slots[j]) == Filter(On(j), flat)
  }

  /**
   * During the sweep: `due` is still to fire, `rest` are the later deadlines. Visited entries wait for the next round.
   */
  ghost predicate MidSweep(s: Sweep, now: nat, f: Firing)
    requires InSweep(s)
  {
    && s.w.cur == now % ROUND_SIZE
    && CurrentAgrees(now, s.w.cur, Visited(s), Pending(s), f.due, f.rest)
    && OthersAgree(s.w, now, f.rest)
    && s.fired == f.fired
  }

  ghost predicate CurrentAgrees(
    now: nat, cur: nat, visited: seq<Timer>, pending: seq<Timer>, due: seq<Task>, rest: seq<Deadline>)
    requires cur < ROUND_SIZE
  {
    var ahead := Live(now, cur, pending);
    && Due(ahead, now) == due
    && Live(now + 1, cur, visited) + Filter(NotAt(now), ahead) == Filter(On(cur), rest)
  }

  ghost predicate OthersAgree(w: Wheel, now: nat, rest: seq<Deadline>)
    requires WellFormed(w)
  {
    forall j :: 0 <= j < ROUND_SIZE && j != w.cur ==> Live(now, j, w.slots[j]) == Filter(On(j), rest)
  }

  lemma {:induction false} LiveConcat(now: nat, j: nat, a: seq<Timer>, b: seq<Timer>)
    requires j < ROUND_SIZE
    ensures Live(now, j, a + b) == Live(now, j, a) + Live(now, j, b)
  {
    if a == [] {
      assert a + b == b;
    } else {
      LiveConcat(now, j, a[1..], b);
      ConcatSplits(a, b);
      var first := Deadline(a[0].task, NextVisit(now, j) + ROUND_SIZE * a[0].round);
      ConcatAssociates([first], Live(now, j, a[1..]), Live(now, j, b));
    }
  }

  lemma {:induction false} DueConcat(a: seq<Deadline>, b: seq<Deadline>, now: nat)
    ensures Due(a + b, now) == Due(a, now) + Due(b, now)
  {
    if a == [] {
      assert a + b == b;
    } else {
      DueConcat(a[1..], b, now);
      ConcatSplits(a, b);
      ConcatAssociates([a[0].task], Due(a[1..], now), Due(b, now));
    }
  }

  /** Disabling entries removes their deadlines. */
  lemma {:induction false} LiveOfStopped(now: nat, j: nat, s: seq<Timer>, ids: set<nat>)
    requires j < ROUND_SIZE
    ensures Live(now, j, Stop(s, ids)) == Filter(NotOf(ids), Live(now, j, s))
  {
    if s != [] {
      LiveOfStopped(now, j, s[1..], ids);
      assert Stop(s, ids)[1..] == Stop(s[1..], ids);
      if !s[0].disabled {
        FilterCons(NotOf(ids), Live(now, j, s[..1])[0], Live(now, j, s[1..]));
      }
    }
  }

  lemma {:induction false} DueWhere(flat: seq<Deadline>, now: nat, keep: Task -> bool)
    ensures Due(Filter(Where(keep), flat), now) == Filter(keep, Due(flat, now))
  {
    if flat != [] {
      DueWhere(flat[1..], now, keep);
    }
  }

  /** What is due is on the slot the cursor is at. */
  lemma {:induction false} DueIsOnCurrent(flat: seq<Deadline>, now: nat)
    ensures Due(Filter(On(now % ROUND_SIZE), flat), now) == Due(flat, now)
  {
    if flat != [] {
      DueIsOnCurrent(flat[1..], now);
    }
  }

  lemma {:induction false} OnOtherSlotNotDue(flat: seq<Deadline>, now: nat, j: nat)
    requires j != now % ROUND_SIZE
    ensures Filter(On(j), Filter(NotAt(now), flat)) == Filter(On(j), flat)
  {
    if flat != [] {
      OnOtherSlotNotDue(flat[1..], now, j);
    }
  }

  /** Once the cursor has passed, the other slots' entries fire at the same ticks as before. */
  lemma {:induction false} LiveOneLater(now: nat, j: nat, s: seq<Timer>)
    requires j < ROUND_SIZE && j != now % ROUND_SIZE
    ensures Live(now + 1, j, s) == Live(now, j, s)
  {
    if s != [] {
      LiveOneLater(now, j, s[1..]);
    }
  }

  /** Slot and rounds of a new entry, by whether the slots wrap. */
  lemma SlotAndRounds(v: Variant, cur: nat, d: nat)
    requires cur < ROUND_SIZE
    ensures var r, q := d % ROUND_SIZE, d / ROUND_SIZE;
            if cur + r < ROUND_SIZE then SlotFor(cur, d) == cur + r && RoundsFor(v, cur, d) == q
            else SlotFor(cur, d) == cur + r - ROUND_SIZE && RoundsFor(v, cur, d) == if v.AsWritten? then q + 1 else q
  {
  }

  /** The deadline of a new entry, split into the next visit of its slot and its rounds. */
  lemma DeadlineOfInserted(v: Variant, now: nat, d: nat)
    ensures var cur := now % ROUND_SIZE;
            now + Delay(v, cur, d) == NextVisit(now, SlotFor(cur, d)) + ROUND_SIZE * RoundsFor(v, cur, d)
  {
    SlotAndRounds(v, now % ROUND_SIZE, d);
  }

  /** Every tick at which an entry of slot `j` fires is one at which the cursor is at `j`. */
  lemma VisitsAreOnSlot(now: nat, j: nat, round: nat)
    requires j < ROUND_SIZE
    ensures (NextVisit(now, j) + ROUND_SIZE * round) % ROUND_SIZE == j
  {
    var lap := now / ROUND_SIZE + (if j >= now % ROUND_SIZE then 0 else 1) + round;
    ModUnique(NextVisit(now, j) + ROUND_SIZE * round, lap, j, ROUND_SIZE);
  }

  /** A newly inserted entry is in its slot what the new deadline is in the flat list. */
  lemma InsertedIsNewDeadline(v: Variant, interval: nat, now: nat, e: Timer, j: nat)
    requires interval > 0 && j < ROUND_SIZE && !e.disabled
    ensures var cur, dl := now % ROUND_SIZE, NewDeadline(v, interval, now, e.task);
            (if SlotFor(cur, Ticks(e.task.timeout, interval)) == j
             then Live(now, j, [Rearmed(v, interval, cur, e)]) else [])
            == Filter(On(j), [dl])
  {
    var cur, d := now % ROUND_SIZE, Ticks(e.task.timeout, interval);
    DeadlineOfInserted(v, now, d);
    VisitsAreOnSlot(now, SlotFor(cur, d), RoundsFor(v, cur, d));
    if SlotFor(cur, d) == j {
      assert Live(now, j, [Rearmed(v, interval, cur, e)]) == [NewDeadline(v, interval, now, e.task)];
    }
  }

  // -------- one tick refines the firing of the due tasks --------

  /** What a fired entry leaves in a slot is what its task leaves in the flat list. */
  lemma BackIsRenewed(v: Variant, interval: nat, now: nat, e: Timer, stop: set<nat>, j: nat)
    requires interval > 0 && j < ROUND_SIZE && Fires(e)
    ensures Live(now, j, Back(v, interval, now % ROUND_SIZE, e, stop, j))
            == Filter(NotOf(stop), Filter(On(j), Renewed(v, interval, now, e.task)))
  {
    InsertedIsNewDeadline(v, interval, now, e, j);
    if e.task.id in stop && e.task.repeat {
      var dl := NewDeadline(v, interval, now, e.task);
      assert Filter(NotOf(stop), [dl]) == [];
    }
  }

  /** A firing, seen from any list of deadlines for slot `j` that is in agreement with the flat list. */
  lemma FiringKeepsSlot(s: seq<Deadline>, rest: seq<Deadline>, later: seq<Deadline>, stop: set<nat>, j: nat)
    requires s == Filter(On(j), rest)
    ensures Filter(NotOf(stop), s) + Filter(NotOf(stop), Filter(On(j), later))
            == Filter(On(j), Filter(NotOf(stop), rest + later))
  {
    FilterConcat(On(j), rest, later);
    FiltersCommute(On(j), NotOf(stop), rest + later);
    FilterConcat(NotOf(stop), s, Filter(On(j), later));
  }

  /** What a fired entry leaves in the slot being swept: due again if its timeout is below the interval, or later. */
  lemma BackSplits(v: Variant, interval: nat, now: nat, e: Timer, stop: set<nat>)
    requires interval > 0 && Fires(e)
    ensures var cur, renewed := now % ROUND_SIZE, Renewed(v, interval, now, e.task);
            var back := Live(now, cur, Back(v, interval, cur, e, stop, cur));
            && Due(back, now) == Filter(TaskNotOf(stop), Due(renewed, now))
            && Filter(NotAt(now), back) == Filter(NotOf(stop), Filter(On(cur), Filter(NotAt(now), renewed)))
  {
    var cur, renewed := now % ROUND_SIZE, Renewed(v, interval, now, e.task);
    BackIsRenewed(v, interval, now, e, stop, cur);
    DueWhere(Filter(On(cur), renewed), now, TaskNotOf(stop));
    DueIsOnCurrent(renewed, now);
    FiltersCommute(NotAt(now), NotOf(stop), Filter(On(cur), renewed));
    FiltersCommute(NotAt(now), On(cur), renewed);
  }

  /** The entries behind a firing one: their due part and their later part. */
  lemma FiringKeepsAhead(v: Variant, interval: nat, now: nat, rest: seq<Timer>, e: Timer, stop: set<nat>)
    requires interval > 0 && Fires(e)
    ensures var cur, renewed := now % ROUND_SIZE, Renewed(v, interval, now, e.task);
            var ahead := Live(now, cur, rest);
            var ahead' := Live(now, cur, Stop(rest, stop) + Back(v, interval, cur, e, stop, cur));
            && Due(ahead', now) == Filter(TaskNotOf(stop), Due(ahead, now) + Due(renewed, now))
            && Filter(NotAt(now), ahead')
               == Filter(NotOf(stop), Filter(NotAt(now), ahead))
                  + Filter(NotOf(stop), Filter(On(cur), Filter(NotAt(now), renewed)))
  {
    var cur, renewed := now % ROUND_SIZE, Renewed(v, interval, now, e.task);
    var back := Back(v, interval, cur, e, stop, cur);
    LiveConcat(now, cur, Stop(rest, stop), back);
    LiveOfStopped(now, cur, rest, stop);
    var ahead, again := Live(now, cur, rest), Live(now, cur, back);
    BackSplits(v, interval, now, e, stop);
    DueConcat(Filter(NotOf(stop), ahead), again, now);
    DueWhere(ahead, now, TaskNotOf(stop));
    FilterConcat(TaskNotOf(stop), Due(ahead, now), Due(renewed, now));
    FilterConcat(NotAt(now), Filter(NotOf(stop), ahead), again);
    FiltersCommute(NotAt(now), NotOf(stop), ahead);
  }

  /** The first pending entry, seen as a deadline. */
  lemma LiveFirst(now: nat, cur: nat, s: seq<Timer>)
    requires cur == now % ROUND_SIZE && s != []
    ensures var ahead, behind := Live(now, cur, s), Live(now, cur, s[1..]);
            if s[0].disabled then ahead == behind
            else if s[0].round == 0 then
              && Due(ahead, now) == [s[0].task] + Due(behind, now)
              && Filter(NotAt(now), ahead) == Filter(NotAt(now), behind)
            else
              var first := Deadline(s[0].task, now + ROUND_SIZE * s[0].round);
              && Due(ahead, now) == Due(behind, now)
              && Filter(NotAt(now), ahead) == [first] + Filter(NotAt(now), behind)
  {
    if !s[0].disabled {
      var first, behind := Deadline(s[0].task, now + ROUND_SIZE * s[0].round), Live(now, cur, s[1..]);
      assert Live(now, cur, s) == [first] + behind;
      FilterCons(NotAt(now), first, behind);
      DueConcat([first], behind, now);
      assert Due([first], now) == if s[0].round == 0 then [s[0].task] else [];
    }
  }

  /** A firing entry is the first due task, and firing it is one step of the flat list. */
  lemma FiringKeepsCurrent(
    v: Variant, interval: nat, now: nat, visited: seq<Timer>, pending: seq<Timer>, stop: set<nat>, f: Firing)
    requires interval > 0 && pending != [] && Fires(pending[0])
    requires CurrentAgrees(now, now % ROUND_SIZE, visited, pending, f.due, f.rest)
    ensures f.due != [] && f.due[0] == pending[0].task
    ensures var cur, f' := now % ROUND_SIZE, FireOne(v, interval, now, f, stop);
            CurrentAgrees(now, cur, Stop(visited, stop),
                          Stop(pending[1..], stop) + Back(v, interval, cur, pending[0], stop, cur), f'.due, f'.rest)
  {
    var cur, e, behind := now % ROUND_SIZE, pending[0], pending[1..];
    LiveFirst(now, cur, pending);
    FiringKeepsAhead(v, interval, now, behind, e, stop);
    var kept, ahead := Live(now + 1, cur, visited), Filter(NotAt(now), Live(now, cur, behind));
    var later := Filter(NotAt(now), Renewed(v, interval, now, e.task));
    LiveOfStopped(now + 1, cur, visited, stop);
    FilterConcat(NotOf(stop), kept, ahead);
    FiringKeepsSlot(kept + ahead, f.rest, later, stop, cur);
    ConcatAssociates(Filter(NotOf(stop), kept), Filter(NotOf(stop), ahead),
                     Filter(NotOf(stop), Filter(On(cur), later)));
  }

  lemma FiringKeepsOther(
    v: Variant, interval: nat, now: nat, s: seq<Timer>, e: Timer, stop: set<nat>, rest: seq<Deadline>, j: nat)
    requires interval > 0 && j < ROUND_SIZE && j != now % ROUND_SIZE && Fires(e)
    requires Live(now, j, s) == Filter(On(j), rest)
    ensures Live(now, j, Stop(s, stop) + Back(v, interval, now % ROUND_SIZE, e, stop, j))
            == Filter(On(j), Filter(NotOf(stop), rest + Filter(NotAt(now), Renewed(v, interval, now, e.task))))
  {
    var renewed := Renewed(v, interval, now, e.task);
    LiveConcat(now, j, Stop(s, stop), Back(v, interval, now % ROUND_SIZE, e, stop, j));
    LiveOfStopped(now, j, s, stop);
    BackIsRenewed(v, interval, now, e, stop, j);
    OnOtherSlotNotDue(renewed, now, j);
    FiringKeepsSlot(Live(now, j, s), rest, Filter(NotAt(now), renewed), stop, j);
  }

  lemma FiringKeepsMidSweep(v: Variant, s: Sweep, stop: set<nat>, now: nat, f: Firing)
    requires InSweep(s) && Pending(s) != [] && Fires(Pending(s)[0]) && MidSweep(s, now, f)
    ensures InSweep(Visit(v, s, stop)) && f.due != [] && f.due[0] == Pending(s)[0].task
    ensures MidSweep(Visit(v, s, stop), now, FireOne(v, s.w.interval, now, f, stop))
  {
    var cur, interval, e, s' := s.w.cur, s.w.interval, Pending(s)[0], Visit(v, s, stop);
    VisitCurrent(v, s, stop);
    VisitOthers(v, s, stop);
    FiringKeepsCurrent(v, interval, now, Visited(s), Pending(s), stop, f);
    var f' := FireOne(v, interval, now, f, stop);
    forall j | 0 <= j < ROUND_SIZE && j != cur
      ensures Live(now, j, s'.w.slots[j]) == Filter(On(j), f'.rest)
    {
      FiringKeepsOther(v, interval, now, s.w.slots[j], e, stop, f.rest, j);
    }
  }

  /** An entry that counts down a round waits for the same tick as before, now behind the visited entries. */
  lemma CountdownKeepsDeadline(now: nat, cur: nat, visited: seq<Timer>, e: Timer, later: seq<Deadline>)
    requires cur == now % ROUND_SIZE && !e.disabled && e.round > 0
    ensures Live(now + 1, cur, visited + [CountedDown(e)]) + later
            == Live(now + 1, cur, visited) + ([Deadline(e.task, now + ROUND_SIZE * e.round)] + later)
  {
    var down := [CountedDown(e)];
    LiveConcat(now + 1, cur, visited, down);
    assert Live(now + 1, cur, down) == [Deadline(e.task, now + ROUND_SIZE * e.round)];
    ConcatAssociates(Live(now + 1, cur, visited), Live(now + 1, cur, down), later);
  }

  /** Dropping a disabled entry and counting down a round leave the deadlines as they are. */
  lemma PassingKeepsCurrent(
    now: nat, cur: nat, visited: seq<Timer>, pending: seq<Timer>, due: seq<Task>, rest: seq<Deadline>)
    requires cur == now % ROUND_SIZE && pending != [] && !Fires(pending[0])
    requires CurrentAgrees(now, cur, visited, pending, due, rest)
    ensures var e := pending[0];
            CurrentAgrees(now, cur, if e.disabled then visited else visited + [CountedDown(e)], pending[1..], due, rest)
  {
    LiveFirst(now, cur, pending);
    if !pending[0].disabled {
      CountdownKeepsDeadline(now, cur, visited, pending[0], Filter(NotAt(now), Live(now, cur, pending[1..])));
    }
  }

  lemma PassingKeepsMidSweep(v: Variant, s: Sweep, stop: set<nat>, now: nat, f: Firing)
    requires InSweep(s) && Pending(s) != [] && !Fires(Pending(s)[0]) && MidSweep(s, now, f)
    ensures InSweep(Visit(v, s, stop)) && MidSweep(Visit(v, s, stop), now, f)
  {
    VisitCurrent(v, s, stop);
    VisitOthers(v, s, stop);
    PassingKeepsCurrent(now, s.w.cur, Visited(s), Pending(s), f.due, f.rest);
  }

  /** One iteration is one firing of the flat list, or none. */
  lemma VisitKeepsMidSweep(v: Variant, s: Sweep, stops: Callbacks, now: nat, f: Firing)
    requires InSweep(s) && Pending(s) != [] && MidSweep(s, now, f)
    ensures var s' := Visit(v, s, stops(|s.fired|));
            InSweep(s') && s'.w.interval == s.w.interval
            && if Fires(Pending(s)[0]) then
                 f.due != [] && MidSweep(s', now, FireOne(v, s.w.interval, now, f, stops(|f.fired|)))
               else
                 MidSweep(s', now, f) && |Pending(s')| < |Pending(s)|
  {
    VisitCurrent(v, s, stops(|s.fired|));
    if Fires(Pending(s)[0]) {
      FiringKeepsMidSweep(v, s, stops(|s.fired|), now, f);
    } else {
      PassingKeepsMidSweep(v, s, stops(|s.fired|), now, f);
    }
  }

  function WillFire(): Sweep -> bool {
    (s: Sweep) => InSweep(s) && Pending(s) != [] && Fires(Pending(s)[0])
  }

  /** `MidSweep` at time `now` on a wheel of the given interval. */
  ghost function Agreeing(interval: nat, now: nat): (Sweep, Firing) -> bool {
    (s: Sweep, f: Firing) => InSweep(s) && s.w.interval == interval && MidSweep(s, now, f)
  }

  lemma LoopFollowsFirings(v: Variant, interval: nat, now: nat, stops: Callbacks)
    requires interval > 0
    ensures Follows(Visiting(v, stops), AtEnd(), WillFire(), FiringStep(v, interval, now, stops), NoneDue(),
                    Agreeing(interval, now))
  {
    var step, fire, rel := Visiting(v, stops), FiringStep(v, interval, now, stops), Agreeing(interval, now);
    forall x, y {:trigger step(x), rel(x, y)} | rel(x, y) && !AtEnd()(x)
      ensures if WillFire()(x) then !NoneDue()(y) && rel(step(x), fire(y)) else rel(step(x), y)
    {
      VisitKeepsMidSweep(v, x, stops, now, y);
    }
  }

  /** After any number of iterations the loop has fired what the flat list fires, in the same order. */
  lemma SweepFiresDue(v: Variant, s: Sweep, stops: Callbacks, now: nat, f: Firing, n: nat) returns (k: nat)
    requires InSweep(s) && MidSweep(s, now, f)
    ensures MidSweep(After(v, s, stops, n), now, FireMany(v, s.w.interval, now, stops, f, k))
  {
    LoopFollowsFirings(v, s.w.interval, now, stops);
    k := Simulate(Visiting(v, stops), AtEnd(), WillFire(), FiringStep(v, s.w.interval, now, stops), NoneDue(),
                  Agreeing(s.w.interval, now), s, f, n);
  }

  function PendingLength(): Sweep -> nat {
    (s: Sweep) => if InSweep(s) then |Pending(s)| else 0
  }

  /** When the firings end, so does the loop: entries that do not fire are passed once. */
  lemma FiringEndsSweep(v: Variant, s: Sweep, stops: Callbacks, now: nat, f: Firing, k: nat) returns (n: nat)
    requires InSweep(s) && MidSweep(s, now, f) && FireMany(v, s.w.interval, now, stops, f, k).due == []
    ensures Pending(After(v, s, stops, n)) == []
  {
    var interval := s.w.interval;
    LoopFollowsFirings(v, interval, now, stops);
    var step, rel, size := Visiting(v, stops), Agreeing(interval, now), PendingLength();
    forall x, y {:trigger step(x), rel(x, y)} | rel(x, y) && !AtEnd()(x) && !WillFire()(x)
      ensures size(step(x)) < size(x)
    {
      VisitKeepsMidSweep(v, x, stops, now, y);
    }
    n := SimulateEnd(step, AtEnd(), WillFire(), FiringStep(v, interval, now, stops), NoneDue(), rel, size, s, f, k);
  }

  lemma SweepStarts(w: Wheel, now: nat, flat: seq<Deadline>)
    requires WellFormed(w) && Refines(w, now, flat)
    ensures MidSweep(Start(w), now, FirstFiring(flat, now))
  {
    var s, cur := Start(w), w.cur;
    assert Pending(s) == w.slots[cur] && Visited(s) == [];
    DueIsOnCurrent(flat, now);
    FiltersCommute(NotAt(now), On(cur), flat);
    assert [] + Filter(NotAt(now), Live(now, cur, Pending(s))) == Filter(NotAt(now), Live(now, cur, Pending(s)));
    forall j | 0 <= j < ROUND_SIZE && j != cur
      ensures Live(now, j, w.slots[j]) == Filter(On(j), Filter(NotAt(now), flat))
    {
      OnOtherSlotNotDue(flat, now, j);
    }
  }

  lemma SweepEnds(s: Sweep, now: nat, f: Firing)
    requires InSweep(s) && Pending(s) == [] && MidSweep(s, now, f)
    ensures f.due == []
    ensures var w := s.w.(cur := (s.w.cur + 1) % ROUND_SIZE); WellFormed(w) && Refines(w, now + 1, f.rest)
  {
    var cur, w := s.w.cur, s.w.(cur := (s.w.cur + 1) % ROUND_SIZE);
    assert Visited(s) == w.slots[cur];
    assert Live(now + 1, cur, Visited(s)) + [] == Live(now + 1, cur, Visited(s));
    forall j | 0 <= j < ROUND_SIZE
      ensures Live(now + 1, j, w.slots[j]) == Filter(On(j), f.rest)
    {
      if j != cur {
        LiveOneLater(now, j, w.slots[j]);
      }
    }
  }

  /** A tick of the wheel returns exactly when the firings of the flat list end. */
  lemma TickReturnsIffFiringEnds(v: Variant, w: Wheel, now: nat, flat: seq<Deadline>, stops: Callbacks)
    requires WellFormed(w) && Refines(w, now, flat)
    ensures Ends(v, Start(w), stops) <==> FiringEnds(v, w.interval, now, stops, FirstFiring(flat, now))
  {
    var s, f := Start(w), FirstFiring(flat, now);
    SweepStarts(w, now, flat);
    if n: nat :| Pending(After(v, s, stops, n)) == [] {
      var k := SweepFiresDue(v, s, stops, now, f, n);
      SweepEnds(After(v, s, stops, n), now, FireMany(v, w.interval, now, stops, f, k));
    }
    if k: nat :| FireMany(v, w.interval, now, stops, f, k).due == [] {
      var n := FiringEndsSweep(v, s, stops, now, f, k);
    }
  }

  /** One tick fires exactly the tasks due now, in order, except those a callback of this tick disabled before. */
  lemma TickKeepsRefinement(v: Variant, w: Wheel, now: nat, flat: seq<Deadline>, stops: Callbacks)
    requires WellFormed(w) && Ends(v, Start(w), stops) && Refines(w, now, flat)
    ensures var (w', fired) := TickSpec(v, w, stops);
            var (flat', due) := FlatStep(v, w.interval, now, flat, Tick(stops));
            WellFormed(w') && w'.interval == w.interval && Refines(w', now + 1, flat') && fired == due
  {
    var s, f := Start(w), FirstFiring(flat, now);
    SweepStarts(w, now, flat);
    var n: nat :| Pending(After(v, s, stops, n)) == [];
    SweptIs(v, s, stops, n);
    var k := SweepFiresDue(v, s, stops, now, f, n);
    SweepEnds(After(v, s, stops, n), now, FireMany(v, w.interval, now, stops, f, k));
    FireAllIs(v, w.interval, now, stops, f, k);
  }

  lemma AddKeepsRefinement(v: Variant, w: Wheel, now: nat, flat: seq<Deadline>, task: Task)
    requires WellFormed(w) && Refines(w, now, flat)
    ensures Refines(AddEntry(v, w, Timer(task, 0, false)), now, flat + [NewDeadline(v, w.interval, now, task)])
  {
    var e, dl := Timer(task, 0, false), NewDeadline(v, w.interval, now, task);
    var w' := AddEntry(v, w, e);
    forall j | 0 <= j < ROUND_SIZE
      ensures Live(now, j, w'.slots[j]) == Filter(On(j), flat + [dl])
    {
      FilterConcat(On(j), flat, [dl]);
      InsertedIsNewDeadline(v, w.interval, now, e, j);
      LiveConcat(now, j, w.slots[j], [Rearmed(v, w.interval, w.cur, e)]);
      assert Live(now, j, w.slots[j]) + [] == Live(now, j, w.slots[j]);
    }
  }

  lemma DisableKeepsRefinement(w: Wheel, now: nat, flat: seq<Deadline>, ids: set<nat>)
    requires WellFormed(w) && Refines(w, now, flat)
    ensures Refines(StopAll(w, ids), now, Filter(NotOf(ids), flat))
  {
    forall j | 0 <= j < ROUND_SIZE
      ensures Live(now, j, StopAll(w, ids).slots[j]) == Filter(On(j), Filter(NotOf(ids), flat))
    {
      LiveOfStopped(now, j, w.slots[j], ids);
      FiltersCommute(On(j), NotOf(ids), flat);
    }
  }

  // -------- repeating timers of at least one interval never hang a tick --------

  predicate Allowed(interval: nat, op: Op) {
    op.Add? && op.task.repeat ==> op.task.timeout >= interval
  }

  ghost predicate LongRepeats(interval: nat, s: seq<Timer>) {
    forall i :: 0 <= i < |s| ==> s[i].task.repeat ==> s[i].task.timeout >= interval
  }

  ghost predicate AllLong(w: Wheel) {
    forall j :: 0 <= j < |w.slots| ==> LongRepeats(w.interval, w.slots[j])
  }

  lemma LongConcat(interval: nat, a: seq<Timer>, b: seq<Timer>)
    requires LongRepeats(interval, a) && LongRepeats(interval, b)
    ensures LongRepeats(interval, a + b)
  {
  }

  lemma LongParts(interval: nat, s: seq<Timer>, at: nat)
    requires LongRepeats(interval, s) && at < |s|
    ensures LongRepeats(interval, s[..at]) && LongRepeats(interval, s[at + 1..])
  {
  }

  /** What a firing leaves in a slot. */
  lemma LongAfterFiring(v: Variant, interval: nat, cur: nat, s: seq<Timer>, e: Timer, stop: set<nat>, slot: nat)
    requires interval > 0 && LongRepeats(interval, s) && LongRepeats(interval, [e])
    ensures LongRepeats(interval, Stop(s, stop) + Back(v, interval, cur, e, stop, slot))
  {
    assert [e][0] == e;
    LongConcat(interval, Stop(s, stop), Back(v, interval, cur, e, stop, slot));
  }

  lemma LongStopped(interval: nat, s: seq<Timer>, ids: set<nat>)
    requires LongRepeats(interval, s)
    ensures LongRepeats(interval, Stop(s, ids))
  {
  }

  /** What one iteration leaves in front of the index and from there on, as `VisitCurrent` says. */
  lemma LongAfterVisit(v: Variant, interval: nat, cur: nat, a: seq<Timer>, e: Timer, b: seq<Timer>, stop: set<nat>)
    requires interval > 0 && LongRepeats(interval, a) && LongRepeats(interval, [e]) && LongRepeats(interval, b)
    ensures LongRepeats(interval, if Fires(e) then Stop(a, stop) else if e.disabled then a else a + [CountedDown(e)])
    ensures LongRepeats(interval, if Fires(e) then Stop(b, stop) + Back(v, interval, cur, e, stop, cur) else b)
  {
    if Fires(e) {
      LongStopped(interval, a, stop);
      LongAfterFiring(v, interval, cur, b, e, stop, cur);
    } else if !e.disabled {
      assert [e][0] == e;
      LongConcat(interval, a, [CountedDown(e)]);
    }
  }

  lemma PartsOfCurrent(s: Sweep)
    requires InSweep(s)
    ensures s.w.slots[s.w.cur] == Visited(s) + Pending(s)
    ensures Pending(s) != [] ==>
              Pending(s)[0] == s.w.slots[s.w.cur][s.at] && Pending(s)[1..] == s.w.slots[s.w.cur][s.at + 1..]
  {
  }

  /** One iteration, in the slot being swept and in another one. */
  lemma VisitKeepsCurrentLong(v: Variant, s: Sweep, stop: set<nat>)
    requires InSweep(s) && Pending(s) != [] && LongRepeats(s.w.interval, s.w.slots[s.w.cur])
    ensures InSweep(Visit(v, s, stop)) && LongRepeats(s.w.interval, Visit(v, s, stop).w.slots[s.w.cur])
    ensures LongRepeats(s.w.interval, [Pending(s)[0]])
  {
    VisitCurrent(v, s, stop);
    PartsOfCurrent(s);
    PartsOfCurrent(Visit(v, s, stop));
    LongParts(s.w.interval, s.w.slots[s.w.cur], s.at);
    LongAfterVisit(v, s.w.interval, s.w.cur, Visited(s), Pending(s)[0], Pending(s)[1..], stop);
    LongConcat(s.w.interval, Visited(Visit(v, s, stop)), Pending(Visit(v, s, stop)));
  }

  lemma VisitKeepsOtherLong(v: Variant, s: Sweep, stop: set<nat>, j: nat)
    requires InSweep(s) && Pending(s) != [] && j < ROUND_SIZE && j != s.w.cur
    requires LongRepeats(s.w.interval, s.w.slots[j]) && LongRepeats(s.w.interval, [Pending(s)[0]])
    ensures InSweep(Visit(v, s, stop)) && LongRepeats(s.w.interval, Visit(v, s, stop).w.slots[j])
  {
    VisitCurrent(v, s, stop);
    VisitOthers(v, s, stop);
    LongAfterFiring(v, s.w.interval, s.w.cur, s.w.slots[j], Pending(s)[0], stop, j);
  }

  lemma VisitKeepsLong(v: Variant, s: Sweep, stop: set<nat>)
    requires InSweep(s) && Pending(s) != [] && AllLong(s.w)
    ensures AllLong(Visit(v, s, stop).w)
  {
    VisitKeepsCurrentLong(v, s, stop);
    VisitCurrent(v, s, stop);
    forall j | 0 <= j < ROUND_SIZE
      ensures LongRepeats(s.w.interval, Visit(v, s, stop).w.slots[j])
    {
      if j != s.w.cur {
        VisitKeepsOtherLong(v, s, stop, j);
      }
    }
  }

  lemma {:induction false} SweepKeepsLong(v: Variant, s: Sweep, stops: Callbacks, n: nat)
    requires InSweep(s) && AllLong(s.w)
    ensures AllLong(After(v, s, stops, n).w)
    decreases n
  {
    if n > 0 && Pending(s) != [] {
      AfterFirst(v, s, stops, n);
      VisitKeepsLong(v, s, stops(|s.fired|));
      SweepKeepsLong(v, Visit(v, s, stops(|s.fired|)), stops, n - 1);
    }
  }

  /** With long repeats every operation returns, whatever the callbacks disable. */
  lemma LongReturns(v: Variant, w: Wheel, op: Op)
    requires WellFormed(w) && AllLong(w)
    ensures Returns(v, w, op)
  {
    if op.Tick? {
      assert LongRepeats(w.interval, w.slots[w.cur]) && Pending(Start(w)) == w.slots[w.cur];
      TickTerminatesIff(v, Start(w), op.stops);
    }
  }

  lemma StepKeepsLong(v: Variant, w: Wheel, op: Op)
    requires WellFormed(w) && AllLong(w) && Allowed(w.interval, op)
    ensures Returns(v, w, op) && AllLong(WheelStep(v, w, op).0)
  {
    LongReturns(v, w, op);
    if op.Tick? {
      var n: nat :| Pending(After(v, Start(w), op.stops, n)) == [];
      SweptIs(v, Start(w), op.stops, n);
      SweepKeepsLong(v, Start(w), op.stops, n);
    }
  }

  // -------- whole runs --------

  lemma StepKeepsRefinement(v: Variant, w: Wheel, now: nat, flat: seq<Deadline>, op: Op)
    requires WellFormed(w) && Returns(v, w, op) && Refines(w, now, flat)
    ensures var (w', fired) := WheelStep(v, w, op);
            var (flat', due) := FlatStep(v, w.interval, now, flat, op);
            Refines(w', Later(now, op), flat') && fired == due
  {
    match op
    case Add(task) => AddKeepsRefinement(v, w, now, flat, task);
    case Disable(id) => DisableKeepsRefinement(w, now, flat, {id});
    case Tick(stops) => TickKeepsRefinement(v, w, now, flat, stops);
  }

  /** Every operation of the run returns. */
  ghost predicate AllReturn(v: Variant, w: Wheel, ops: seq<Op>)
    requires WellFormed(w)
    decreases |ops|
  {
    ops == [] || (Returns(v, w, ops[0]) && AllReturn(v, WheelStep(v, w, ops[0]).0, ops[1..]))
  }

  /** What each operation of a run fires, on the wheel. */
  ghost function WheelLog(v: Variant, w: Wheel, ops: seq<Op>): seq<seq<Task>>
    requires WellFormed(w) && AllReturn(v, w, ops)
    decreases |ops|
  {
    if ops == [] then [] else
    var (w', fired) := WheelStep(v, w, ops[0]);
    [fired] + WheelLog(v, w', ops[1..])
  }

  /** What each operation of a run fires, on the flat list. */
  ghost function FlatLog(v: Variant, interval: nat, now: nat, flat: seq<Deadline>, ops: seq<Op>): seq<seq<Task>>
    requires interval > 0
    decreases |ops|
  {
    if ops == [] then [] else
    var (flat', due) := FlatStep(v, interval, now, flat, ops[0]);
    [due] + FlatLog(v, interval, Later(now, ops[0]), flat', ops[1..])
  }

  lemma {:induction false} LogsAgree(v: Variant, w: Wheel, now: nat, flat: seq<Deadline>, ops: seq<Op>)
    requires WellFormed(w) && AllReturn(v, w, ops) && Refines(w, now, flat)
    ensures WheelLog(v, w, ops) == FlatLog(v, w.interval, now, flat, ops)
    decreases |ops|
  {
    if ops != [] {
      StepKeepsRefinement(v, w, now, flat, ops[0]);
      LogsAgree(v, WheelStep(v, w, ops[0]).0, Later(now, ops[0]),
                FlatStep(v, w.interval, now, flat, ops[0]).0, ops[1..]);
    }
  }

  function EmptyWheel(interval: nat): Wheel {
    Wheel(interval, 0, seq(ROUND_SIZE, _ => []))
  }

  /**
   * Main result. Over any run of additions, disablings and ticks that return, whose callbacks disable timers as they
   * please, the wheel fires at each tick exactly what the flat list of deadlines has due, in the same order. A
   * deadline is the time of the addition plus the timeout in ticks; for the written wheel one round later when the
   * slots wrap (`Delay`).
   */
  lemma WheelRefinesDeadlines(v: Variant, interval: nat, ops: seq<Op>)
    requires interval > 0 && AllReturn(v, EmptyWheel(interval), ops)
    ensures WheelLog(v, EmptyWheel(interval), ops) == FlatLog(v, interval, 0, [], ops)
  {
    LogsAgree(v, EmptyWheel(interval), 0, [], ops);
  }

  /** Runs in which every repeating timer lasts at least one interval return. */
  lemma {:induction false} AllowedRunReturns(v: Variant, w: Wheel, ops: seq<Op>)
    requires WellFormed(w) && AllLong(w) && forall i :: 0 <= i < |ops| ==> Allowed(w.interval, ops[i])
    ensures AllReturn(v, w, ops)
    decreases |ops|
  {
    if ops != [] {
      StepKeepsLong(v, w, ops[0]);
      AllowedRunReturns(v, WheelStep(v, w, ops[0]).0, ops[1..]);
    }
  }
}
