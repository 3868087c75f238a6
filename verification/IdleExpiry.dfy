/**
 * The idle wheel driven by the timing wheel, as the echo server sets them up (example/EchoServer.h:35-79): a repeating
 * timer of one wheel tick runs `IdleConnections::tick`. When does a silent connection expire?
 */
module IdleExpiry {
  import opened Common
  import T = TimingWheels
  import L = TimerLives
  import I = IdleConnections

  /** Both wheels of one worker loop. */
  datatype Server = Server(timers: T.Wheel, idle: I.Wheel)

  /** An operation on the timing wheel, or a connection that is added or heard from. */
  datatype Op = Timer(op: T.Op) | Connected | Message(entry: nat)

  ghost predicate WellFormed(s: Server) {
    T.WellFormed(s.timers) && I.WellFormed(s.idle)
  }

  /** A wheel tick must come to its end. */
  ghost predicate Returns(v: Variant, s: Server, op: Op)
    requires WellFormed(s)
  {
    op.Timer? ==> T.Returns(v, s.timers, op.op)
  }

  /** The idle tick is a callback of the timing wheel. */
  ghost function Step(v: Variant, s: Server, op: Op, idleTask: T.Task): (r: (Server, set<nat>))
    requires WellFormed(s) && Returns(v, s, op)
    ensures WellFormed(r.0) && r.0.timers.interval == s.timers.interval
  {
    match op
    case Timer(t) =>
      var (timers, fired) := T.WheelStep(v, s.timers, t);
      if idleTask in fired then
        var (idle, expired) := I.WheelStep(s.idle, I.Tick);
        (Server(timers, idle), expired)
      else
        (Server(timers, s.idle), {})
    case Connected => (s.(idle := I.WheelStep(s.idle, I.Add).0), {})
    case Message(e) => (s.(idle := I.WheelStep(s.idle, I.Update(e)).0), {})
  }

  /** The idle timer fires every wheel tick, if the wheel is exact. */
  predicate IsIdleTask(interval: nat, task: T.Task) {
    interval > 0 && task.repeat && interval <= task.timeout < 2 * interval
  }

  /** Operations that leave the idle timer alone: it is not added a second time, and nobody disables it. */
  ghost predicate Proper(op: Op, idleTask: T.Task) {
    op.Timer? ==> L.LeavesAlone(op.op, idleTask)
  }

  ghost predicate AllProper(ops: seq<Op>, idleTask: T.Task) {
    forall i :: 0 <= i < |ops| ==> Proper(ops[i], idleTask)
  }

  predicate IsTick(op: Op) {
    op.Timer? && op.op.Tick?
  }

  function TicksIn(ops: seq<Op>): nat {
    if ops == [] then 0 else (if IsTick(ops[0]) then 1 else 0) + TicksIn(ops[1..])
  }

  // -------- when the idle timer fires --------

  /** The wheel tick of the firing after one at tick `t`. */
  function NextFiring(v: Variant, t: nat): nat {
    L.NextFiring(v, 1, t)
  }

  /** The wheel tick of the `k`-th firing after one at tick `t`. */
  function FireAt(v: Variant, t: nat, k: nat): nat {
    L.FireAt(v, 1, t, k)
  }

  /** The exact wheel fires every tick. */
  lemma ExactFiringSpan(t: nat, k: nat)
    ensures FireAt(Repaired, t, k) == t + k
  {
    L.ExactFiringTimes(1, t, k);
  }

  /** The written one pauses for a whole round of 100 ticks after each firing under cursor 99. */
  lemma {:induction false} WrittenFiringSpan(t: nat, k: nat)
    requires k <= 100
    ensures FireAt(AsWritten, t, k) == t + k + (if t % 100 + k >= 100 then 100 else 0)
    decreases k
  {
    if k > 0 {
      var next := NextFiring(AsWritten, t);
      assert next % 100 == if t % 100 == 99 then 0 else t % 100 + 1;
      WrittenFiringSpan(next, k - 1);
    }
  }

  // -------- the specification: the idle timer's deadline and the last-activity map --------

  /** `now` counts wheel ticks, and the idle timer fires next at tick `at`. */
  datatype Plan = Plan(now: nat, at: nat, activity: I.Activity)

  /** One operation and the entries it expires. */
  function PlanStep(v: Variant, p: Plan, op: Op): (Plan, set<nat>) {
    match op
    case Timer(Tick(_)) =>
      if p.now == p.at then
        var (activity, expired) := I.SpecStep(p.activity, I.Tick);
        (Plan(p.now + 1, NextFiring(v, p.at), activity), expired)
      else
        (p.(now := p.now + 1), {})
    case Timer(_) => (p, {})
    case Connected => (p.(activity := I.SpecStep(p.activity, I.Add).0), {})
    case Message(e) => (p.(activity := I.SpecStep(p.activity, I.Update(e)).0), {})
  }

  /** Both wheels agree with the plan; the flat list of deadlines holds the idle timer once. */
  ghost predicate InStep(s: Server, flat: seq<T.Deadline>, p: Plan, idleTask: T.Task) {
    && WellFormed(s) && IsIdleTask(s.timers.interval, idleTask)
    && T.Refines(s.timers, p.now, flat) && I.Refines(s.idle, p.activity)
    && p.now <= p.at
    && L.Lives(flat, idleTask, L.Awaiting(p.at))
  }

  /** One operation of the timing wheel, for the idle timer. */
  lemma TimerStepKeepsIdle(
    v: Variant, w: T.Wheel, now: nat, flat: seq<T.Deadline>, task: T.Task, at: nat, op: T.Op)
    requires T.WellFormed(w) && T.Returns(v, w, op) && T.Refines(w, now, flat)
    requires IsIdleTask(w.interval, task) && L.LeavesAlone(op, task) && L.Lives(flat, task, L.Awaiting(at))
    ensures var (flat', due) := T.FlatStep(v, w.interval, now, flat, op);
            && (task in due <==> op.Tick? && now == at)
            && L.Lives(flat', task, L.Awaiting(if op.Tick? && now == at then NextFiring(v, at) else at))
  {
    T.TicksAreWholeIntervals(task.timeout, w.interval, 1);
    if op.Tick? {
      T.TickReturnsIffFiringEnds(v, w, now, flat, op.stops);
    }
    L.StepKeepsLife(v, w.interval, now, flat, op, task, L.Awaiting(at));
  }

  /** One operation keeps both refinements; the idle wheel ticks exactly when the idle timer's deadline is reached. */
  lemma StepKeepsPace(v: Variant, s: Server, flat: seq<T.Deadline>, p: Plan, idleTask: T.Task, op: Op)
    returns (flat': seq<T.Deadline>)
    requires InStep(s, flat, p, idleTask) && Proper(op, idleTask) && Returns(v, s, op)
    ensures var (s', expired) := Step(v, s, op, idleTask);
            var (p', due) := PlanStep(v, p, op);
            InStep(s', flat', p', idleTask) && s'.timers.interval == s.timers.interval && expired == due
  {
    match op
    case Timer(t) =>
      T.StepKeepsRefinement(v, s.timers, p.now, flat, t);
      TimerStepKeepsIdle(v, s.timers, p.now, flat, idleTask, p.at, t);
      I.StepKeepsRefinement(s.idle, p.activity, I.Tick);
      flat' := T.FlatStep(v, s.timers.interval, p.now, flat, t).0;
    case Connected =>
      I.StepKeepsRefinement(s.idle, p.activity, I.Add);
      flat' := flat;
    case Message(e) =>
      I.StepKeepsRefinement(s.idle, p.activity, I.Update(e));
      flat' := flat;
  }

  // -------- whole runs --------

  /** Every operation of the run returns. */
  ghost predicate AllReturn(v: Variant, s: Server, ops: seq<Op>, idleTask: T.Task)
    requires WellFormed(s)
    decreases |ops|
  {
    ops == [] || (Returns(v, s, ops[0]) && AllReturn(v, Step(v, s, ops[0], idleTask).0, ops[1..], idleTask))
  }

  /** The server after a run, and the entries destroyed by each operation. */
  ghost function Run(v: Variant, s: Server, ops: seq<Op>, idleTask: T.Task): (Server, seq<set<nat>>)
    requires WellFormed(s) && AllReturn(v, s, ops, idleTask)
    decreases |ops|
  {
    if ops == [] then (s, []) else
    var (s1, expired) := Step(v, s, ops[0], idleTask);
    var (s', log) := Run(v, s1, ops[1..], idleTask);
    (s', [expired] + log)
  }

  function PlanRun(v: Variant, p: Plan, ops: seq<Op>): (Plan, seq<set<nat>>)
    decreases |ops|
  {
    if ops == [] then (p, []) else
    var (p1, expired) := PlanStep(v, p, ops[0]);
    var (p', log) := PlanRun(v, p1, ops[1..]);
    (p', [expired] + log)
  }

  /** The server destroys what the plan expires, operation by operation. */
  lemma {:induction false} RunKeepsPace(
    v: Variant, s: Server, flat: seq<T.Deadline>, p: Plan, idleTask: T.Task, ops: seq<Op>)
    returns (flat': seq<T.Deadline>)
    requires InStep(s, flat, p, idleTask) && AllProper(ops, idleTask) && AllReturn(v, s, ops, idleTask)
    ensures Run(v, s, ops, idleTask).1 == PlanRun(v, p, ops).1
    ensures InStep(Run(v, s, ops, idleTask).0, flat', PlanRun(v, p, ops).0, idleTask)
    decreases |ops|
  {
    flat' := flat;
    if ops != [] {
      flat' := StepKeepsPace(v, s, flat, p, idleTask, ops[0]);
      flat' := RunKeepsPace(v, Step(v, s, ops[0], idleTask).0, flat', PlanStep(v, p, ops[0]).0, idleTask, ops[1..]);
    }
  }

  // -------- what the plan says about one entry --------

  ghost predicate Sound(p: Plan) {
    p.now <= p.at && forall e :: e in p.activity.ages ==> e < p.activity.next && p.activity.ages[e] < I.SLOT_SIZE
  }

  /** The wheel tick at which an entry of the plan expires if it stays silent. */
  function Expiry(v: Variant, p: Plan, e: nat): nat
    requires e in p.activity.ages && p.activity.ages[e] < I.SLOT_SIZE
  {
    FireAt(v, p.at, I.SLOT_SIZE - 1 - p.activity.ages[e])
  }

  lemma StepKeepsSound(v: Variant, p: Plan, op: Op)
    requires Sound(p)
    ensures Sound(PlanStep(v, p, op).0)
  {
  }

  /** An operation that is not a message on the entry keeps the tick at which it will expire, until that tick comes. */
  lemma SilentStep(v: Variant, p: Plan, op: Op, e: nat)
    requires Sound(p) && e in p.activity.ages && op != Message(e)
    ensures var (p', expired) := PlanStep(v, p, op);
            && Expiry(v, p, e) >= p.now && e < p'.activity.next
            && p'.now == p.now + (if IsTick(op) then 1 else 0)
            && (e in expired <==> IsTick(op) && p.now == Expiry(v, p, e))
            && (e in p'.activity.ages <==> e !in expired)
            && (e in p'.activity.ages ==>
                  p'.activity.ages[e] < I.SLOT_SIZE && Expiry(v, p', e) == Expiry(v, p, e))
  {
    L.FireAtIsLater(v, 1, p.at, I.SLOT_SIZE - 1 - p.activity.ages[e]);
    if IsTick(op) && p.now == p.at && p.activity.ages[e] + 1 < I.SLOT_SIZE {
      L.FireAtIsLater(v, 1, NextFiring(v, p.at), I.SLOT_SIZE - 2 - p.activity.ages[e]);
    }
  }

  /** The ticks before position `i` of a run, seen from its second operation. */
  lemma TicksAfterFirst(ops: seq<Op>, i: nat)
    requires 0 < i <= |ops|
    ensures TicksIn(ops[..i]) == (if IsTick(ops[0]) then 1 else 0) + TicksIn(ops[1..][..i - 1])
  {
    assert ops[..i][0] == ops[0] && ops[..i][1..] == ops[1..][..i - 1];
  }

  /** The log of a run is what its first operation expires, followed by the log of the rest. */
  lemma LogOfRest(v: Variant, p: Plan, ops: seq<Op>, i: nat)
    requires i < |ops|
    ensures var (p1, expired) := PlanStep(v, p, ops[0]);
            var log, log1 := PlanRun(v, p, ops).1, PlanRun(v, p1, ops[1..]).1;
            && |log| == |ops| && |log1| == |ops| - 1
            && log[i] == if i == 0 then expired else log1[i - 1]
  {
    LogLength(v, p, ops);
    LogLength(v, PlanStep(v, p, ops[0]).0, ops[1..]);
  }

  lemma {:induction false} LogLength(v: Variant, p: Plan, ops: seq<Op>)
    ensures |PlanRun(v, p, ops).1| == |ops|
    decreases |ops|
  {
    if ops != [] {
      LogLength(v, PlanStep(v, p, ops[0]).0, ops[1..]);
    }
  }

  lemma {:induction false} SilentEntryExpires(v: Variant, p: Plan, ops: seq<Op>, e: nat, i: nat)
    requires Sound(p) && e in p.activity.ages && Message(e) !in ops && i < |ops|
    ensures |PlanRun(v, p, ops).1| == |ops|
    ensures e in PlanRun(v, p, ops).1[i] <==> IsTick(ops[i]) && p.now + TicksIn(ops[..i]) == Expiry(v, p, e)
    decreases |ops|
  {
    var p' := PlanStep(v, p, ops[0]).0;
    LogOfRest(v, p, ops, i);
    StepKeepsSound(v, p, ops[0]);
    assert ops[0] in ops && Message(e) !in ops[1..];
    SilentStep(v, p, ops[0], e);
    if i > 0 {
      TicksAfterFirst(ops, i);
      if e in p'.activity.ages {
        SilentEntryExpires(v, p', ops[1..], e, i - 1);
      } else {
        GoneStaysGone(v, p', ops[1..], e, i - 1);
      }
    }
  }

  lemma {:induction false} GoneStaysGone(v: Variant, p: Plan, ops: seq<Op>, e: nat, i: nat)
    requires e < p.activity.next && e !in p.activity.ages && i < |ops|
    ensures |PlanRun(v, p, ops).1| == |ops| && e !in PlanRun(v, p, ops).1[i]
    decreases |ops|
  {
    LogOfRest(v, p, ops, i);
    if i > 0 {
      GoneStaysGone(v, PlanStep(v, p, ops[0]).0, ops[1..], e, i - 1);
    }
  }

  // -------- what the server does --------

  /**
   * A connection last heard from some idle ticks ago and silent from now on is destroyed by exactly one operation of
   * any run: the wheel tick of the idle firing at which its age reaches 60.
   */
  lemma SilentConnectionExpires(
    v: Variant, s: Server, flat: seq<T.Deadline>, p: Plan, idleTask: T.Task, ops: seq<Op>, e: nat, i: nat)
    requires InStep(s, flat, p, idleTask) && AllProper(ops, idleTask) && AllReturn(v, s, ops, idleTask)
    requires e in p.activity.ages && Message(e) !in ops && i < |ops|
    ensures p.activity.ages[e] < I.SLOT_SIZE
    ensures var log := Run(v, s, ops, idleTask).1;
            |log| == |ops| && (e in log[i] <==> IsTick(ops[i]) && p.now + TicksIn(ops[..i]) == Expiry(v, p, e))
  {
    var _ := RunKeepsPace(v, s, flat, p, idleTask, ops);
    SilentEntryExpires(v, p, ops, e, i);
  }

  /** Once expired, a connection is never destroyed again, whatever is sent to it. */
  lemma ExpiredStaysExpired(
    v: Variant, s: Server, flat: seq<T.Deadline>, p: Plan, idleTask: T.Task, ops: seq<Op>, e: nat, i: nat)
    requires InStep(s, flat, p, idleTask) && AllProper(ops, idleTask) && AllReturn(v, s, ops, idleTask)
    requires e < p.activity.next && e !in p.activity.ages && i < |ops|
    ensures var log := Run(v, s, ops, idleTask).1; |log| == |ops| && e !in log[i]
  {
    var _ := RunKeepsPace(v, s, flat, p, idleTask, ops);
    GoneStaysGone(v, p, ops, e, i);
  }

  /** The wheel tick of the 60th firing after one at tick `t`. */
  function ExpiryAfter(v: Variant, t: nat): nat {
    t + (if v.Repaired? || t % 100 < 40 then 60 else 160)
  }

  /**
   * Counted from the last idle firing before the connection fell silent, at wheel tick `t`: it expires at the 60th
   * firing after that, which is 60 wheel ticks later on the exact wheel, and on the written one either 60 or 160, as
   * the cursor at `t` was below 40 or not.
   */
  lemma ExpirySpan(v: Variant, t: nat)
    ensures FireAt(v, NextFiring(v, t), I.SLOT_SIZE - 1) == ExpiryAfter(v, t)
  {
    ExactFiringSpan(t, I.SLOT_SIZE);
    WrittenFiringSpan(t, I.SLOT_SIZE);
    assert FireAt(v, t, I.SLOT_SIZE) == FireAt(v, NextFiring(v, t), I.SLOT_SIZE - 1);
  }

  /** Both results together, for a connection that fell silent after the idle firing at wheel tick `t`. */
  lemma SilentSinceFiringExpires(
    v: Variant, s: Server, flat: seq<T.Deadline>, p: Plan, idleTask: T.Task, t: nat, ops: seq<Op>, e: nat, i: nat)
    requires InStep(s, flat, p, idleTask) && AllProper(ops, idleTask) && AllReturn(v, s, ops, idleTask)
    requires p.at == NextFiring(v, t)
    requires e in p.activity.ages && p.activity.ages[e] == 0 && Message(e) !in ops && i < |ops|
    ensures var log := Run(v, s, ops, idleTask).1;
            |log| == |ops| && (e in log[i] <==> IsTick(ops[i]) && p.now + TicksIn(ops[..i]) == ExpiryAfter(v, t))
  {
    SilentConnectionExpires(v, s, flat, p, idleTask, ops, e, i);
    ExpirySpan(v, t);
  }

  // -------- from the start of the server --------

  /** Empty wheels, and the idle timer just added. */
  ghost function Started(v: Variant, interval: nat, idleTask: T.Task): (s: Server)
    requires IsIdleTask(interval, idleTask)
    ensures WellFormed(s) && s.timers.interval == interval
  {
    Server(T.AddEntry(v, T.EmptyWheel(interval), T.Timer(idleTask, 0, false)), I.EmptyWheel())
  }

  const StartPlan := Plan(0, 1, I.Activity(map[], 0))

  lemma StartsInStep(v: Variant, interval: nat, idleTask: T.Task)
    requires IsIdleTask(interval, idleTask)
    ensures InStep(Started(v, interval, idleTask), [T.Deadline(idleTask, 1)], StartPlan, idleTask)
  {
    T.TicksAreWholeIntervals(idleTask.timeout, interval, 1);
    T.StepKeepsRefinement(v, T.EmptyWheel(interval), 0, [], T.Add(idleTask));
    var dl := T.NewDeadline(v, interval, 0, idleTask);
    assert [] + [dl] == [dl] && [dl][1..] == [];
    FilterCons(T.Where(L.Is(idleTask)), dl, []);
    assert [dl] + [] == [dl];
  }

  /** The wheel tick of the last idle firing before `now`; the start of the server counts as one at tick 0. */
  function LastFiring(v: Variant, now: nat): nat {
    if now == 0 then 0
    else if v.Repaired? || (now - 1) % 200 < 100 then now - 1
    else now - 1 - (now - 1) % 200 + 99
  }

  /** Where the tick before `now` is in its two rounds, and with it the last firing and the one after it. */
  lemma LastFiringInLap(now: nat, lap: nat, m: nat)
    requires now == 200 * lap + m + 1 && m < 200
    ensures var last := LastFiring(AsWritten, now);
            if m < 100 then
              && last == now - 1
              && NextFiring(AsWritten, last) == if m == 99 then now + 100 else now
            else
              last == 200 * lap + 99 && NextFiring(AsWritten, last) == 200 * (lap + 1)
  {
    ModUnique(now - 1, lap, m, 200);
    var c := if m < 100 then m else 99;
    assert LastFiring(AsWritten, now) == 100 * (2 * lap) + c;
    ModUnique(LastFiring(AsWritten, now), 2 * lap, c, 100);
  }

  /** On the written wheel the idle timer fires in every other round only. */
  lemma LastFiringMoves(v: Variant, now: nat)
    requires now <= NextFiring(v, LastFiring(v, now))
    ensures LastFiring(v, now + 1) == if now == NextFiring(v, LastFiring(v, now)) then now else LastFiring(v, now)
    ensures now + 1 <= NextFiring(v, LastFiring(v, now + 1))
  {
    if v.AsWritten? && now > 0 {
      var lap, m := (now - 1) / 200, (now - 1) % 200;
      LastFiringInLap(now, lap, m);
      if m + 1 < 200 {
        LastFiringInLap(now + 1, lap, m + 1);
      } else {
        LastFiringInLap(now + 1, lap + 1, 0);
      }
    }
  }

  lemma {:induction false} PlanKeepsPace(v: Variant, p: Plan, ops: seq<Op>)
    requires Sound(p) && p.at == NextFiring(v, LastFiring(v, p.now))
    ensures var p' := PlanRun(v, p, ops).0;
            Sound(p') && p'.at == NextFiring(v, LastFiring(v, p'.now)) && p'.now == p.now + TicksIn(ops)
    decreases |ops|
  {
    if ops != [] {
      LastFiringMoves(v, p.now);
      StepKeepsSound(v, p, ops[0]);
      PlanKeepsPace(v, PlanStep(v, p, ops[0]).0, ops[1..]);
    }
  }

  lemma {:induction false} PlanRunSplits(v: Variant, p: Plan, a: seq<Op>, b: seq<Op>)
    ensures PlanRun(v, p, a + b).0 == PlanRun(v, PlanRun(v, p, a).0, b).0
    ensures PlanRun(v, p, a + b).1 == PlanRun(v, p, a).1 + PlanRun(v, PlanRun(v, p, a).0, b).1
    decreases |a|
  {
    if a == [] {
      assert a + b == b;
    } else {
      PlanRunSplits(v, PlanStep(v, p, a[0]).0, a[1..], b);
      ConcatSplits(a, b);
    }
  }

  lemma {:induction false} TicksConcat(a: seq<Op>, b: seq<Op>)
    ensures TicksIn(a + b) == TicksIn(a) + TicksIn(b)
  {
    if a == [] {
      assert a + b == b;
    } else {
      TicksConcat(a[1..], b);
      ConcatSplits(a, b);
    }
  }

  /** Ticks return when every repeating timer lasts at least one interval. */
  lemma {:induction false} AllowedRunReturns(v: Variant, s: Server, ops: seq<Op>, idleTask: T.Task)
    requires WellFormed(s) && T.AllLong(s.timers)
    requires forall i :: 0 <= i < |ops| && ops[i].Timer? ==> T.Allowed(s.timers.interval, ops[i].op)
    ensures AllReturn(v, s, ops, idleTask)
    decreases |ops|
  {
    if ops != [] {
      if ops[0].Timer? {
        T.StepKeepsLong(v, s.timers, ops[0].op);
      }
      AllowedRunReturns(v, Step(v, s, ops[0], idleTask).0, ops[1..], idleTask);
    }
  }

  lemma StartedIsLong(v: Variant, interval: nat, idleTask: T.Task)
    requires IsIdleTask(interval, idleTask)
    ensures T.AllLong(Started(v, interval, idleTask).timers)
  {
    T.StepKeepsLong(v, T.EmptyWheel(interval), T.Add(idleTask));
  }

  lemma {:induction false} PrefixReturns(v: Variant, s: Server, ops: seq<Op>, k: nat, idleTask: T.Task)
    requires WellFormed(s) && AllReturn(v, s, ops, idleTask) && k <= |ops|
    ensures AllReturn(v, s, ops[..k], idleTask)
    decreases k
  {
    if k > 0 {
      assert ops[..k][0] == ops[0] && ops[..k][1..] == ops[1..][..k - 1];
      PrefixReturns(v, Step(v, s, ops[0], idleTask).0, ops[1..], k - 1, idleTask);
    }
  }

  /** The server before the `k`-th operation of a run. */
  ghost function ServerAt(v: Variant, s: Server, ops: seq<Op>, k: nat, idleTask: T.Task): Server
    requires WellFormed(s) && AllReturn(v, s, ops, idleTask) && k <= |ops|
  {
    PrefixReturns(v, s, ops, k, idleTask);
    Run(v, s, ops[..k], idleTask).0
  }

  /**
   * The operation is activity of connection `e`: it is accepted as that connection, or sends while it is not expired.
   */
  ghost predicate IsActivity(s: Server, op: Op, e: nat) {
    match op
    case Connected => e == s.idle.next
    case Message(m) => m == e && I.Referenced(s.idle.slots, e)
    case Timer(_) => false
  }

  /** After it, the plan holds the connection with age 0. */
  lemma ActivityResetsAge(v: Variant, s: Server, flat: seq<T.Deadline>, p: Plan, idleTask: T.Task, op: Op, e: nat)
    requires InStep(s, flat, p, idleTask) && IsActivity(s, op, e)
    ensures var a := PlanStep(v, p, op).0.activity; e in a.ages && a.ages[e] == 0
  {
    I.ReferencedIffLive(s.idle, p.activity, e);
  }

  /** The ticks up to operation `k + 1 + j`, when operation `k` is none. */
  lemma TicksAround(ops: seq<Op>, k: nat, j: nat)
    requires k + 1 + j <= |ops| && !IsTick(ops[k])
    ensures TicksIn(ops[..k + 1]) == TicksIn(ops[..k])
    ensures TicksIn(ops[..k + 1 + j]) == TicksIn(ops[..k]) + TicksIn(ops[k + 1..][..j])
  {
    assert ops[..k + 1] == ops[..k] + [ops[k]] && [ops[k]][1..] == [];
    assert ops[..k + 1 + j] == ops[..k + 1] + ops[k + 1..][..j];
    TicksConcat(ops[..k], [ops[k]]);
    TicksConcat(ops[..k + 1], ops[k + 1..][..j]);
  }

  /** An entry that is fresh after the `k`-th operation of a run from the start, and silent from then on. */
  lemma FreshEntryExpires(v: Variant, ops: seq<Op>, e: nat, k: nat, i: nat)
    requires k < i < |ops| && Message(e) !in ops[k + 1..] && !IsTick(ops[k])
    requires var a := PlanRun(v, StartPlan, ops[..k + 1]).0.activity; e in a.ages && a.ages[e] == 0
    ensures var log := PlanRun(v, StartPlan, ops).1;
            && |log| == |ops|
            && (e in log[i] <==>
                  IsTick(ops[i]) && TicksIn(ops[..i]) == ExpiryAfter(v, LastFiring(v, TicksIn(ops[..k]))))
  {
    var before, after, j := ops[..k + 1], ops[k + 1..], i - (k + 1);
    var p := PlanRun(v, StartPlan, before).0;
    assert ops == before + after;
    PlanRunSplits(v, StartPlan, before, after);
    LogLength(v, StartPlan, before);
    PlanKeepsPace(v, StartPlan, before);
    TicksAround(ops, k, j);
    SilentEntryExpires(v, p, after, e, j);
    ExpirySpan(v, LastFiring(v, p.now));
  }

  /**
   * Main result. In any run of a freshly started server whose ticks return, with arbitrary other timers, callbacks and
   * connections: a connection whose last activity is the `k`-th operation is destroyed by exactly one later operation,
   * the wheel tick `ExpiryAfter` the last idle firing before that activity.
   */
  lemma SilentConnectionExpiresFromStart(
    v: Variant, interval: nat, idleTask: T.Task, ops: seq<Op>, e: nat, k: nat, i: nat)
    requires IsIdleTask(interval, idleTask) && AllProper(ops, idleTask)
    requires AllReturn(v, Started(v, interval, idleTask), ops, idleTask)
    requires k < i < |ops| && Message(e) !in ops[k + 1..]
    requires IsActivity(ServerAt(v, Started(v, interval, idleTask), ops, k, idleTask), ops[k], e)
    ensures var log := Run(v, Started(v, interval, idleTask), ops, idleTask).1;
            && |log| == |ops|
            && (e in log[i] <==>
                  IsTick(ops[i]) && TicksIn(ops[..i]) == ExpiryAfter(v, LastFiring(v, TicksIn(ops[..k]))))
  {
    StartsInStep(v, interval, idleTask);
    PrefixReturns(v, Started(v, interval, idleTask), ops, k, idleTask);
    var s, start := Started(v, interval, idleTask), [T.Deadline(idleTask, 1)];
    var p := PlanRun(v, StartPlan, ops[..k]).0;
    var flat := RunKeepsPace(v, s, start, StartPlan, idleTask, ops[..k]);
    ActivityResetsAge(v, Run(v, s, ops[..k], idleTask).0, flat, p, idleTask, ops[k], e);
    assert ops[..k + 1] == ops[..k] + [ops[k]] && [ops[k]][1..] == [];
    PlanRunSplits(v, StartPlan, ops[..k], [ops[k]]);
    FreshEntryExpires(v, ops, e, k, i);
    flat := RunKeepsPace(v, s, start, StartPlan, idleTask, ops);
  }
}
