/**
 * The life of one timer (src/reactor/Timer.cpp): from its addition on, in which ticks of a run is its callback called?
 * Other timers are added, disabled and fired as they please.
 */
module TimerLives {
  import opened Common
  import T = TimingWheels

  // -------- one task in the flat list --------

  function Is(task: T.Task): T.Task -> bool {
    (t: T.Task) => t == task
  }

  function DeadlinesOf(flat: seq<T.Deadline>, task: T.Task): seq<T.Deadline> {
    Filter(T.Where(Is(task)), flat)
  }

  lemma {:induction false} FilterIs(due: seq<T.Task>, task: T.Task)
    ensures task in due <==> Filter(Is(task), due) != []
  {
    if due != [] {
      FilterIs(due[1..], task);
    }
  }

  /** Removing other tasks does not touch the task. */
  lemma TaskStays(flat: seq<T.Deadline>, due: seq<T.Task>, task: T.Task, ids: set<nat>)
    requires task.id !in ids
    ensures DeadlinesOf(Filter(T.NotOf(ids), flat), task) == DeadlinesOf(flat, task)
    ensures Filter(Is(task), Filter(T.TaskNotOf(ids), due)) == Filter(Is(task), due)
  {
    FilterAbsorbs(T.Where(Is(task)), T.NotOf(ids), flat);
    FilterAbsorbs(Is(task), T.TaskNotOf(ids), due);
  }

  /** A task that does not hang the tick that fires it. */
  predicate IsSound(interval: nat, task: T.Task) {
    interval > 0 && (task.repeat ==> task.timeout >= interval)
  }

  /** The task's part of the firings still to come: the deadlines it will have, and whether it will have fired. */
  ghost predicate Awaits(
    v: Variant, interval: nat, now: nat, f: T.Firing, task: T.Task, fires: bool, deadlines: seq<T.Deadline>)
    requires interval > 0
  {
    && |Filter(Is(task), f.due)| <= 1
    && (fires <==> task in f.fired || task in f.due)
    && deadlines == DeadlinesOf(f.rest, task) + (if task in f.due then T.Renewed(v, interval, now, task) else [])
  }

  lemma RenewedTask(v: Variant, interval: nat, now: nat, task: T.Task, other: T.Task)
    requires IsSound(interval, task)
    ensures var renewed := T.Renewed(v, interval, now, other);
            && Filter(Is(task), T.Due(renewed, now)) == []
            && DeadlinesOf(Filter(T.NotAt(now), renewed), task)
               == if other == task then T.Renewed(v, interval, now, task) else []
  {
    T.TicksPositive(task.timeout, interval);
    if other.repeat {
      var dl := T.NewDeadline(v, interval, now, other);
      assert [dl] + [] == [dl];
      FilterCons(T.NotAt(now), dl, []);
      FilterCons(T.Where(Is(task)), dl, []);
    }
  }

  /** One firing renews the task if it is its own, and leaves it alone otherwise. */
  lemma FiringKeepsTask(
    v: Variant, interval: nat, now: nat, f: T.Firing, stop: set<nat>, task: T.Task, fires: bool,
    deadlines: seq<T.Deadline>)
    requires IsSound(interval, task) && task.id !in stop && f.due != []
    requires Awaits(v, interval, now, f, task, fires, deadlines)
    ensures Awaits(v, interval, now, T.FireOne(v, interval, now, f, stop), task, fires, deadlines)
  {
    var first, renewed, f' := f.due[0], T.Renewed(v, interval, now, f.due[0]), T.FireOne(v, interval, now, f, stop);
    var due, later := f.due[1..] + T.Due(renewed, now), Filter(T.NotAt(now), renewed);
    RenewedTask(v, interval, now, task, first);
    TaskStays(f.rest + later, due, task, stop);
    FilterConcat(Is(task), f.due[1..], T.Due(renewed, now));
    FilterConcat(T.Where(Is(task)), f.rest, later);
    FilterIs(f.due, task);
    FilterIs(f.due[1..], task);
    FilterIs(f'.due, task);
    assert Filter(Is(task), f.due[1..]) + [] == Filter(Is(task), f.due[1..]);
    assert Filter(Is(task), f'.due) == Filter(Is(task), f.due[1..]);
    assert DeadlinesOf(f.rest, task) + [] == DeadlinesOf(f.rest, task);
    assert first == task ==> task !in f'.due;
    ConcatAssociates(DeadlinesOf(f.rest, task), DeadlinesOf(later, task), []);
  }

  lemma {:induction false} FiringsKeepTask(
    v: Variant, interval: nat, now: nat, stops: T.Callbacks, f: T.Firing, k: nat, task: T.Task, fires: bool,
    deadlines: seq<T.Deadline>)
    requires IsSound(interval, task) && forall k: nat :: task.id !in stops(k)
    requires Awaits(v, interval, now, f, task, fires, deadlines)
    ensures Awaits(v, interval, now, T.FireMany(v, interval, now, stops, f, k), task, fires, deadlines)
    decreases k
  {
    if k > 0 && f.due != [] {
      FiringKeepsTask(v, interval, now, f, stops(|f.fired|), task, fires, deadlines);
      FiringsKeepTask(v, interval, now, stops, T.FireOne(v, interval, now, f, stops(|f.fired|)), k - 1, task, fires,
                      deadlines);
    }
  }

  // -------- where the task is in its life --------

  /** The task fires next at a tick, or not any more. */
  datatype Life = Awaiting(at: nat) | Over

  ghost predicate Lives(flat: seq<T.Deadline>, task: T.Task, life: Life) {
    DeadlinesOf(flat, task) == match life
                               case Awaiting(at) => [T.Deadline(task, at)]
                               case Over => []
  }

  /** The tick of the firing after one at tick `t`, for a timeout of `d` ticks. */
  function NextFiring(v: Variant, d: nat, t: nat): nat {
    t + T.Delay(v, t % T.ROUND_SIZE, d)
  }

  /** The life after the operation at time `now`. */
  function NextLife(v: Variant, interval: nat, task: T.Task, now: nat, op: T.Op, life: Life): Life
    requires interval > 0
  {
    if op.Tick? && life == Awaiting(now) then
      if task.repeat then Awaiting(NextFiring(v, T.Ticks(task.timeout, interval), now)) else Over
    else life
  }

  /** An operation that neither adds the task again nor disables it. */
  ghost predicate LeavesAlone(op: T.Op, task: T.Task) {
    match op
    case Add(other) => other != task
    case Disable(id) => id != task.id
    case Tick(stops) => forall k: nat :: task.id !in stops(k)
  }

  lemma FirstFiringAwaits(v: Variant, interval: nat, now: nat, flat: seq<T.Deadline>, task: T.Task, life: Life)
    requires IsSound(interval, task) && Lives(flat, task, life)
    ensures var fires := life == Awaiting(now);
            Awaits(v, interval, now, T.FirstFiring(flat, now), task, fires,
                   if fires then T.Renewed(v, interval, now, task) else DeadlinesOf(flat, task))
  {
    var due, rest := T.Due(flat, now), Filter(T.NotAt(now), flat);
    T.DueWhere(flat, now, Is(task));
    assert Filter(Is(task), due) == if life == Awaiting(now) then [task] else [];
    FilterIs(due, task);
    FiltersCommute(T.Where(Is(task)), T.NotAt(now), flat);
    assert DeadlinesOf(rest, task) == if life == Awaiting(now) then [] else DeadlinesOf(flat, task);
  }

  /** A tick calls the task's callback exactly at its deadline, and then renews it if it repeats. */
  lemma TickKeepsLife(
    v: Variant, interval: nat, now: nat, stops: T.Callbacks, flat: seq<T.Deadline>, task: T.Task, life: Life)
    requires IsSound(interval, task) && Lives(flat, task, life) && forall k: nat :: task.id !in stops(k)
    requires T.FiringEnds(v, interval, now, stops, T.FirstFiring(flat, now))
    ensures var (flat', due) := T.FlatStep(v, interval, now, flat, T.Tick(stops));
            && (task in due <==> life == Awaiting(now))
            && Lives(flat', task, NextLife(v, interval, task, now, T.Tick(stops), life))
  {
    var k: nat :| T.FireMany(v, interval, now, stops, T.FirstFiring(flat, now), k).due == [];
    T.FlatTickIs(v, interval, now, flat, stops, k);
    var deadlines := if life == Awaiting(now) then T.Renewed(v, interval, now, task) else DeadlinesOf(flat, task);
    FirstFiringAwaits(v, interval, now, flat, task, life);
    EndOfFirings(v, interval, now, stops, T.FirstFiring(flat, now), k, task, life == Awaiting(now), deadlines);
    RenewedLives(v, interval, now, stops, flat, task, life,
                 T.FireMany(v, interval, now, stops, T.FirstFiring(flat, now), k).rest);
  }

  lemma RenewedLives(
    v: Variant, interval: nat, now: nat, stops: T.Callbacks, flat: seq<T.Deadline>, task: T.Task, life: Life,
    rest: seq<T.Deadline>)
    requires interval > 0 && Lives(flat, task, life)
    requires DeadlinesOf(rest, task)
             == if life == Awaiting(now) then T.Renewed(v, interval, now, task) else DeadlinesOf(flat, task)
    ensures Lives(rest, task, NextLife(v, interval, task, now, T.Tick(stops), life))
  {
  }

  lemma EndOfFirings(
    v: Variant, interval: nat, now: nat, stops: T.Callbacks, f: T.Firing, k: nat, task: T.Task, fires: bool,
    deadlines: seq<T.Deadline>)
    requires IsSound(interval, task) && forall k: nat :: task.id !in stops(k)
    requires Awaits(v, interval, now, f, task, fires, deadlines)
    requires T.FireMany(v, interval, now, stops, f, k).due == []
    ensures var r := T.FireMany(v, interval, now, stops, f, k);
            (task in r.fired <==> fires) && DeadlinesOf(r.rest, task) == deadlines
  {
    FiringsKeepTask(v, interval, now, stops, f, k, task, fires, deadlines);
    NothingAwaits(v, interval, now, T.FireMany(v, interval, now, stops, f, k), task, fires, deadlines);
  }

  lemma NothingAwaits(
    v: Variant, interval: nat, now: nat, f: T.Firing, task: T.Task, fires: bool, deadlines: seq<T.Deadline>)
    requires interval > 0 && Awaits(v, interval, now, f, task, fires, deadlines) && f.due == []
    ensures (task in f.fired <==> fires) && DeadlinesOf(f.rest, task) == deadlines
  {
    assert DeadlinesOf(f.rest, task) + [] == DeadlinesOf(f.rest, task);
  }

  lemma StepKeepsLife(
    v: Variant, interval: nat, now: nat, flat: seq<T.Deadline>, op: T.Op, task: T.Task, life: Life)
    requires IsSound(interval, task) && Lives(flat, task, life) && LeavesAlone(op, task)
    requires op.Tick? ==> T.FiringEnds(v, interval, now, op.stops, T.FirstFiring(flat, now))
    ensures var (flat', due) := T.FlatStep(v, interval, now, flat, op);
            && (task in due <==> op.Tick? && life == Awaiting(now))
            && Lives(flat', task, NextLife(v, interval, task, now, op, life))
  {
    match op
    case Add(other) =>
      FilterConcat(T.Where(Is(task)), flat, [T.NewDeadline(v, interval, now, other)]);
      assert DeadlinesOf([T.NewDeadline(v, interval, now, other)], task) == [];
      assert DeadlinesOf(flat, task) + [] == DeadlinesOf(flat, task);
    case Disable(id) => TaskStays(flat, [], task, {id});
    case Tick(stops) => TickKeepsLife(v, interval, now, stops, flat, task, life);
  }

  // -------- the ticks in which it fires --------

  /** The tick of the `n`-th firing after one at tick `t`. */
  function FireAt(v: Variant, d: nat, t: nat, n: nat): nat
    decreases n
  {
    if n == 0 then t else FireAt(v, d, NextFiring(v, d, t), n - 1)
  }

  lemma {:induction false} FireAtIsLater(v: Variant, d: nat, t: nat, n: nat)
    requires d >= 1
    ensures FireAt(v, d, t, n) >= t + n
    decreases n
  {
    if n > 0 {
      FireAtIsLater(v, d, NextFiring(v, d, t), n - 1);
    }
  }

  /** The exact wheel fires every `d` ticks. */
  lemma {:induction false} ExactFiringTimes(d: nat, t: nat, n: nat)
    ensures FireAt(Repaired, d, t, n) == t + n * d
    decreases n
  {
    if n > 0 {
      ExactFiringTimes(d, t + d, n - 1);
    }
  }

  /** A task that fires next at `at` fires at tick `t`. */
  ghost predicate FiresAt(v: Variant, d: nat, repeat: bool, life: Life, t: nat) {
    life.Awaiting? && exists n: nat :: FireAt(v, d, life.at, n) == t && (n == 0 || repeat)
  }

  function TicksIn(ops: seq<T.Op>): nat {
    if ops == [] then 0 else (if ops[0].Tick? then 1 else 0) + TicksIn(ops[1..])
  }

  /** The firing at `now` is the first one to come; the later ones are those of the life after it. */
  lemma FiringsSplit(v: Variant, interval: nat, task: T.Task, now: nat, op: T.Op, life: Life, t: nat)
    requires IsSound(interval, task) && (life.Awaiting? ==> life.at >= now)
    requires if op.Tick? then t > now else t >= now
    ensures var d, life' := T.Ticks(task.timeout, interval), NextLife(v, interval, task, now, op, life);
            && (life'.Awaiting? ==> life'.at >= T.Later(now, op))
            && (FiresAt(v, d, task.repeat, life, t) <==> FiresAt(v, d, task.repeat, life', t))
  {
    T.TicksPositive(task.timeout, interval);
    var d, life' := T.Ticks(task.timeout, interval), NextLife(v, interval, task, now, op, life);
    if op.Tick? && life == Awaiting(now) && task.repeat {
      if n: nat :| FireAt(v, d, now, n) == t {
        assert FireAt(v, d, life'.at, n - 1) == t;
      }
      if n: nat :| FireAt(v, d, life'.at, n) == t {
        assert FireAt(v, d, now, n + 1) == t;
      }
    }
  }

  lemma FiresNow(v: Variant, interval: nat, task: T.Task, now: nat, life: Life)
    requires IsSound(interval, task) && (life.Awaiting? ==> life.at >= now)
    ensures FiresAt(v, T.Ticks(task.timeout, interval), task.repeat, life, now) <==> life == Awaiting(now)
  {
    T.TicksPositive(task.timeout, interval);
    var d := T.Ticks(task.timeout, interval);
    if life == Awaiting(now) {
      assert FireAt(v, d, now, 0) == now;
    } else if n: nat :| life.Awaiting? && FireAt(v, d, life.at, n) == now && (n == 0 || task.repeat) {
      if n > 0 {
        FireAtIsLater(v, d, life.at, n);
      }
    }
  }

  // -------- whole runs --------

  ghost predicate AllLeaveAlone(ops: seq<T.Op>, task: T.Task) {
    forall i :: 0 <= i < |ops| ==> LeavesAlone(ops[i], task)
  }

  lemma {:induction false} LogLength(v: Variant, w: T.Wheel, ops: seq<T.Op>)
    requires T.WellFormed(w) && T.AllReturn(v, w, ops)
    ensures |T.WheelLog(v, w, ops)| == |ops|
    decreases |ops|
  {
    if ops != [] {
      LogLength(v, T.WheelStep(v, w, ops[0]).0, ops[1..]);
    }
  }

  /** The first operation of a run and the rest of it. */
  lemma LogOfRest(v: Variant, w: T.Wheel, ops: seq<T.Op>, i: nat)
    requires T.WellFormed(w) && T.AllReturn(v, w, ops) && i < |ops|
    ensures var (w', fired) := T.WheelStep(v, w, ops[0]);
            var log, log' := T.WheelLog(v, w, ops), T.WheelLog(v, w', ops[1..]);
            |log| == |ops| && |log'| == |ops| - 1 && log[i] == if i == 0 then fired else log'[i - 1]
  {
    LogLength(v, w, ops);
    LogLength(v, T.WheelStep(v, w, ops[0]).0, ops[1..]);
  }

  lemma TicksAfterFirst(ops: seq<T.Op>, i: nat)
    requires 0 < i <= |ops|
    ensures TicksIn(ops[..i]) == (if ops[0].Tick? then 1 else 0) + TicksIn(ops[1..][..i - 1])
  {
    assert ops[..i][0] == ops[0] && ops[..i][1..] == ops[1..][..i - 1];
  }

  lemma StepFiresTask(
    v: Variant, w: T.Wheel, now: nat, flat: seq<T.Deadline>, op: T.Op, task: T.Task, life: Life)
    returns (flat': seq<T.Deadline>)
    requires T.WellFormed(w) && T.Returns(v, w, op) && T.Refines(w, now, flat)
    requires IsSound(w.interval, task) && LeavesAlone(op, task) && Lives(flat, task, life)
    ensures var (w', fired) := T.WheelStep(v, w, op);
            && T.Refines(w', T.Later(now, op), flat')
            && Lives(flat', task, NextLife(v, w.interval, task, now, op, life))
            && (task in fired <==> op.Tick? && life == Awaiting(now))
  {
    if op.Tick? {
      T.TickReturnsIffFiringEnds(v, w, now, flat, op.stops);
    }
    T.StepKeepsRefinement(v, w, now, flat, op);
    StepKeepsLife(v, w.interval, now, flat, op, task, life);
    flat' := T.FlatStep(v, w.interval, now, flat, op).0;
  }

  lemma {:induction false} RunFiresTask(
    v: Variant, w: T.Wheel, now: nat, flat: seq<T.Deadline>, ops: seq<T.Op>, task: T.Task, life: Life, i: nat, t: nat)
    requires T.WellFormed(w) && T.AllReturn(v, w, ops) && T.Refines(w, now, flat) && i < |ops|
    requires t == now + TicksIn(ops[..i])
    requires IsSound(w.interval, task) && AllLeaveAlone(ops, task)
    requires Lives(flat, task, life) && (life.Awaiting? ==> life.at >= now)
    ensures var log, d := T.WheelLog(v, w, ops), T.Ticks(task.timeout, w.interval);
            && |log| == |ops|
            && (task in log[i] <==> ops[i].Tick? && FiresAt(v, d, task.repeat, life, t))
    decreases |ops|
  {
    LogOfRest(v, w, ops, i);
    var flat' := StepFiresTask(v, w, now, flat, ops[0], task, life);
    if i == 0 {
      FiresNow(v, w.interval, task, now, life);
    } else {
      TicksAfterFirst(ops, i);
      var now' := T.Later(now, ops[0]);
      var life' := NextLife(v, w.interval, task, now, ops[0], life);
      if life.Awaiting? {
        FiringsSplit(v, w.interval, task, now, ops[0], life, t);
      }
      RunFiresTask(v, T.WheelStep(v, w, ops[0]).0, now', flat', ops[1..], task, life', i - 1, t);
    }
  }

  // -------- a task that is not in the wheel --------

  /** A list without the task, whatever is removed from it. */
  lemma AbsentStays(flat: seq<T.Deadline>, due: seq<T.Task>, task: T.Task, ids: set<nat>)
    requires DeadlinesOf(flat, task) == [] && Filter(Is(task), due) == []
    ensures DeadlinesOf(Filter(T.NotOf(ids), flat), task) == []
    ensures Filter(Is(task), Filter(T.TaskNotOf(ids), due)) == []
  {
    FiltersCommute(T.Where(Is(task)), T.NotOf(ids), flat);
    FiltersCommute(Is(task), T.TaskNotOf(ids), due);
  }

  lemma RenewedOther(v: Variant, interval: nat, now: nat, other: T.Task, task: T.Task)
    requires interval > 0 && other != task
    ensures DeadlinesOf(T.Renewed(v, interval, now, other), task) == []
  {
    if other.repeat {
      var dl := T.NewDeadline(v, interval, now, other);
      assert [dl] + [] == [dl];
      FilterCons(T.Where(Is(task)), dl, []);
    }
  }

  /** The task will neither fire in this tick nor later. */
  ghost predicate GoneFrom(f: T.Firing, task: T.Task) {
    DeadlinesOf(f.rest, task) == [] && Filter(Is(task), f.due) == []
  }

  /** Without the task, or with a callback that disables it, it is gone after the firing. */
  lemma FiringWithout(v: Variant, interval: nat, now: nat, f: T.Firing, stop: set<nat>, task: T.Task)
    requires interval > 0 && f.due != [] && (GoneFrom(f, task) || task.id in stop)
    ensures GoneFrom(T.FireOne(v, interval, now, f, stop), task) && (GoneFrom(f, task) ==> f.due[0] != task)
  {
    var renewed := T.Renewed(v, interval, now, f.due[0]);
    var due, rest := f.due[1..] + T.Due(renewed, now), f.rest + Filter(T.NotAt(now), renewed);
    if GoneFrom(f, task) {
      FilterIs(f.due, task);
      FilterIs(f.due[1..], task);
      assert f.due[0] in f.due;
      RenewedOther(v, interval, now, f.due[0], task);
      assert Filter(Is(task), f.due[1..]) == [];
      T.DueWhere(renewed, now, Is(task));
      FilterConcat(Is(task), f.due[1..], T.Due(renewed, now));
      FilterConcat(T.Where(Is(task)), f.rest, Filter(T.NotAt(now), renewed));
      FiltersCommute(T.Where(Is(task)), T.NotAt(now), renewed);
      AbsentStays(rest, due, task, stop);
    } else {
      DisabledIsGone(rest, due, task, stop);
    }
  }

  lemma {:induction false} DisabledIsGone(flat: seq<T.Deadline>, due: seq<T.Task>, task: T.Task, ids: set<nat>)
    requires task.id in ids
    ensures DeadlinesOf(Filter(T.NotOf(ids), flat), task) == []
    ensures Filter(Is(task), Filter(T.TaskNotOf(ids), due)) == []
    decreases |flat| + |due|
  {
    if flat != [] {
      DisabledIsGone(flat[1..], due, task, ids);
      if flat[0].task.id !in ids {
        FilterCons(T.Where(Is(task)), flat[0], Filter(T.NotOf(ids), flat[1..]));
      }
    } else if due != [] {
      DisabledIsGone(flat, due[1..], task, ids);
      if due[0].id !in ids {
        FilterCons(Is(task), due[0], Filter(T.TaskNotOf(ids), due[1..]));
      }
    }
  }

  lemma {:induction false} FiringsKeepAbsent(
    v: Variant, interval: nat, now: nat, stops: T.Callbacks, f: T.Firing, k: nat, task: T.Task)
    requires interval > 0 && GoneFrom(f, task)
    ensures var r := T.FireMany(v, interval, now, stops, f, k);
            GoneFrom(r, task) && f.fired <= r.fired && task !in r.fired[|f.fired|..]
    decreases k
  {
    if k > 0 && f.due != [] {
      var f1 := T.FireOne(v, interval, now, f, stops(|f.fired|));
      FiringWithout(v, interval, now, f, stops(|f.fired|), task);
      FiringsKeepAbsent(v, interval, now, stops, f1, k - 1, task);
      var r := T.FireMany(v, interval, now, stops, f, k);
      assert r == T.FireMany(v, interval, now, stops, f1, k - 1);
      assert r.fired[|f.fired|..] == [f.due[0]] + r.fired[|f1.fired|..];
    }
  }

  /** Once the `j`-th callback of a tick has disabled the task, the tick does not fire it any more. */
  lemma {:induction false} FiringsSilence(
    v: Variant, interval: nat, now: nat, stops: T.Callbacks, f: T.Firing, k: nat, j: nat, task: T.Task)
    requires interval > 0 && |f.fired| <= j < |T.FireMany(v, interval, now, stops, f, k).fired| && task.id in stops(j)
    ensures var r := T.FireMany(v, interval, now, stops, f, k);
            DeadlinesOf(r.rest, task) == [] && task !in r.fired[j + 1..]
    decreases k
  {
    if k > 0 && f.due != [] {
      var f1 := T.FireOne(v, interval, now, f, stops(|f.fired|));
      assert T.FireMany(v, interval, now, stops, f, k) == T.FireMany(v, interval, now, stops, f1, k - 1);
      if |f.fired| == j {
        FiringWithout(v, interval, now, f, stops(j), task);
        FiringsKeepAbsent(v, interval, now, stops, f1, k - 1, task);
      } else {
        FiringsSilence(v, interval, now, stops, f1, k - 1, j, task);
      }
    }
  }

  lemma StepKeepsAbsent(v: Variant, interval: nat, now: nat, flat: seq<T.Deadline>, op: T.Op, task: T.Task)
    requires interval > 0 && DeadlinesOf(flat, task) == [] && op != T.Add(task)
    requires op.Tick? ==> T.FiringEnds(v, interval, now, op.stops, T.FirstFiring(flat, now))
    ensures var (flat', fired) := T.FlatStep(v, interval, now, flat, op);
            DeadlinesOf(flat', task) == [] && task !in fired
  {
    match op
    case Add(other) => FilterConcat(T.Where(Is(task)), flat, [T.NewDeadline(v, interval, now, other)]);
    case Disable(id) => AbsentStays(flat, [], task, {id});
    case Tick(stops) =>
      var f := T.FirstFiring(flat, now);
      var k: nat :| T.FireMany(v, interval, now, stops, f, k).due == [];
      T.FlatTickIs(v, interval, now, flat, stops, k);
      T.DueWhere(flat, now, Is(task));
      FiltersCommute(T.Where(Is(task)), T.NotAt(now), flat);
      FiringsKeepAbsent(v, interval, now, stops, f, k, task);
  }

  lemma LogTail(v: Variant, w: T.Wheel, ops: seq<T.Op>, k: nat)
    requires T.WellFormed(w) && T.AllReturn(v, w, ops) && 0 < k <= |ops|
    ensures ops[1..][k - 1..] == ops[k..]
    ensures var log, log' := T.WheelLog(v, w, ops), T.WheelLog(v, T.WheelStep(v, w, ops[0]).0, ops[1..]);
            |log| == |ops| && |log'| == |ops| - 1 && log[k..] == log'[k - 1..]
  {
    LogOfRest(v, w, ops, 0);
  }

  lemma FirstUpTo(v: Variant, w: T.Wheel, now: nat, flat: seq<T.Deadline>, ops: seq<T.Op>, k: nat, task: T.Task)
    requires T.WellFormed(w) && T.AllReturn(v, w, ops) && T.Refines(w, now, flat) && 0 < k <= |ops|
    requires DeadlinesOf(flat, task) == [] && T.Add(task) !in ops[..k]
    ensures var w1, flat1 := T.WheelStep(v, w, ops[0]).0, T.FlatStep(v, w.interval, now, flat, ops[0]).0;
            && T.Refines(w1, T.Later(now, ops[0]), flat1) && DeadlinesOf(flat1, task) == []
            && T.Add(task) !in ops[1..][..k - 1]
            && T.Later(now, ops[0]) + TicksIn(ops[1..][..k - 1]) == now + TicksIn(ops[..k])
  {
    assert ops[0] == ops[..k][0] && ops[1..][..k - 1] == ops[..k][1..];
    StepWithout(v, w, now, flat, ops[0], task);
    TicksAfterFirst(ops, k);
  }

  /** A run up to its `k`-th operation, in which the task is not added. */
  lemma {:induction false} RunUpTo(
    v: Variant, w: T.Wheel, now: nat, flat: seq<T.Deadline>, ops: seq<T.Op>, k: nat, task: T.Task)
    returns (w': T.Wheel, flat': seq<T.Deadline>)
    requires T.WellFormed(w) && T.AllReturn(v, w, ops) && T.Refines(w, now, flat) && k <= |ops|
    requires DeadlinesOf(flat, task) == [] && T.Add(task) !in ops[..k]
    ensures T.WellFormed(w') && w'.interval == w.interval && T.AllReturn(v, w', ops[k..])
    ensures T.Refines(w', now + TicksIn(ops[..k]), flat') && DeadlinesOf(flat', task) == []
    ensures |T.WheelLog(v, w, ops)| == |ops| && T.WheelLog(v, w, ops)[k..] == T.WheelLog(v, w', ops[k..])
    decreases k
  {
    LogLength(v, w, ops);
    if k == 0 {
      w', flat' := w, flat;
      assert ops[0..] == ops && T.WheelLog(v, w, ops)[0..] == T.WheelLog(v, w, ops);
    } else {
      var op := ops[0];
      FirstUpTo(v, w, now, flat, ops, k, task);
      w', flat' := RunUpTo(v, T.WheelStep(v, w, op).0, T.Later(now, op), T.FlatStep(v, w.interval, now, flat, op).0,
                           ops[1..], k - 1, task);
      LogTail(v, w, ops, k);
    }
  }

  lemma StepWithout(v: Variant, w: T.Wheel, now: nat, flat: seq<T.Deadline>, op: T.Op, task: T.Task)
    requires T.WellFormed(w) && T.Returns(v, w, op) && T.Refines(w, now, flat)
    requires DeadlinesOf(flat, task) == [] && op != T.Add(task)
    ensures var w', flat' := T.WheelStep(v, w, op).0, T.FlatStep(v, w.interval, now, flat, op).0;
            && T.Refines(w', T.Later(now, op), flat') && DeadlinesOf(flat', task) == []
            && task !in T.WheelStep(v, w, op).1
  {
    if op.Tick? {
      T.TickReturnsIffFiringEnds(v, w, now, flat, op.stops);
    }
    T.StepKeepsRefinement(v, w, now, flat, op);
    StepKeepsAbsent(v, w.interval, now, flat, op, task);
  }

  // -------- a disabled timer --------

  /** The operation disables the task, itself or in the `j`-th callback that its tick runs. */
  ghost predicate Disables(op: T.Op, fired: seq<T.Task>, j: nat, task: T.Task) {
    op == T.Disable(task.id) || (op.Tick? && j < |fired| && task.id in op.stops(j))
  }

  lemma StepSilences(v: Variant, w: T.Wheel, now: nat, flat: seq<T.Deadline>, op: T.Op, j: nat, task: T.Task)
    returns (flat': seq<T.Deadline>)
    requires T.WellFormed(w) && T.Returns(v, w, op) && T.Refines(w, now, flat)
    requires Disables(op, T.WheelStep(v, w, op).1, j, task)
    ensures var (w', fired) := T.WheelStep(v, w, op);
            && T.Refines(w', T.Later(now, op), flat') && DeadlinesOf(flat', task) == []
            && (op.Tick? ==> task !in fired[j + 1..])
  {
    T.StepKeepsRefinement(v, w, now, flat, op);
    flat' := T.FlatStep(v, w.interval, now, flat, op).0;
    if op.Tick? {
      T.TickReturnsIffFiringEnds(v, w, now, flat, op.stops);
      var f := T.FirstFiring(flat, now);
      var n: nat :| T.FireMany(v, w.interval, now, op.stops, f, n).due == [];
      T.FlatTickIs(v, w.interval, now, flat, op.stops, n);
      FiringsSilence(v, w.interval, now, op.stops, f, n, j, task);
    } else {
      DisabledIsGone(flat, [], task, {task.id});
    }
  }

  lemma {:induction false} AbsentIsSilent(
    v: Variant, w: T.Wheel, now: nat, flat: seq<T.Deadline>, ops: seq<T.Op>, task: T.Task, i: nat)
    requires T.WellFormed(w) && T.AllReturn(v, w, ops) && T.Refines(w, now, flat) && i < |ops|
    requires DeadlinesOf(flat, task) == [] && T.Add(task) !in ops
    ensures i < |T.WheelLog(v, w, ops)| && task !in T.WheelLog(v, w, ops)[i]
    decreases i
  {
    LogOfRest(v, w, ops, i);
    StepWithout(v, w, now, flat, ops[0], task);
    if i > 0 {
      AbsentIsSilent(v, T.WheelStep(v, w, ops[0]).0, T.Later(now, ops[0]),
                     T.FlatStep(v, w.interval, now, flat, ops[0]).0, ops[1..], task, i - 1);
    }
  }

  lemma {:induction false} DisabledFromHere(
    v: Variant, w: T.Wheel, now: nat, flat: seq<T.Deadline>, ops: seq<T.Op>, k: nat, j: nat, task: T.Task, i: nat)
    requires T.WellFormed(w) && T.AllReturn(v, w, ops) && T.Refines(w, now, flat) && k <= i < |ops|
    requires |T.WheelLog(v, w, ops)| == |ops| && Disables(ops[k], T.WheelLog(v, w, ops)[k], j, task)
    requires T.Add(task) !in ops[k + 1..]
    ensures task !in if i > k then T.WheelLog(v, w, ops)[i]
                     else if ops[k].Tick? then T.WheelLog(v, w, ops)[k][j + 1..] else []
    decreases k
  {
    var w1 := T.WheelStep(v, w, ops[0]).0;
    LogOfRest(v, w, ops, i);
    LogOfRest(v, w, ops, k);
    if k == 0 {
      var flat1 := StepSilences(v, w, now, flat, ops[0], j, task);
      if i > 0 {
        AbsentIsSilent(v, w1, T.Later(now, ops[0]), flat1, ops[1..], task, i - 1);
      }
    } else {
      assert ops[1..][k - 1] == ops[k] && ops[1..][k..] == ops[k + 1..];
      T.StepKeepsRefinement(v, w, now, flat, ops[0]);
      DisabledFromHere(v, w1, T.Later(now, ops[0]), T.FlatStep(v, w.interval, now, flat, ops[0]).0, ops[1..], k - 1, j,
                       task, i - 1);
    }
  }

  /**
   * A disabled timer is silent. Once an operation of any run, or the `j`-th callback that a tick of it calls, has
   * disabled a task, no later operation calls it, nor does that tick after the `j`-th callback, unless it is added
   * again.
   */
  lemma DisabledTimerIsSilent(v: Variant, interval: nat, ops: seq<T.Op>, k: nat, j: nat, task: T.Task)
    requires interval > 0 && T.AllReturn(v, T.EmptyWheel(interval), ops) && k < |ops| && T.Add(task) !in ops[k + 1..]
    requires |T.WheelLog(v, T.EmptyWheel(interval), ops)| == |ops|
    requires Disables(ops[k], T.WheelLog(v, T.EmptyWheel(interval), ops)[k], j, task)
    ensures var log := T.WheelLog(v, T.EmptyWheel(interval), ops);
            && (ops[k].Tick? ==> task !in log[k][j + 1..])
            && forall i :: k < i < |ops| ==> task !in log[i]
  {
    forall i | k <= i < |ops|
      ensures var log := T.WheelLog(v, T.EmptyWheel(interval), ops);
              task !in if i > k then log[i] else if ops[k].Tick? then log[k][j + 1..] else []
    {
      DisabledFromHere(v, T.EmptyWheel(interval), 0, [], ops, k, j, task, i);
    }
  }

  // -------- from the addition on --------

  /**
   * Main result. In any run of a wheel whose `k`-th operation adds a task, and which neither adds it at another time
   * nor disables it afterwards: its callback is called by exactly those ticks, numbered from the start of the wheel,
   * that are a firing time of the task, the first one `Delay` after the addition.
   */
  lemma AddedTaskFires(v: Variant, interval: nat, ops: seq<T.Op>, k: nat, task: T.Task, i: nat)
    requires IsSound(interval, task) && T.AllReturn(v, T.EmptyWheel(interval), ops)
    requires k < |ops| && ops[k] == T.Add(task) && T.Add(task) !in ops[..k] && AllLeaveAlone(ops[k + 1..], task)
    requires k < i < |ops|
    ensures var log, d := T.WheelLog(v, T.EmptyWheel(interval), ops), T.Ticks(task.timeout, interval);
            && |log| == |ops|
            && (task in log[i] <==>
                  && ops[i].Tick?
                  && FiresAt(v, d, task.repeat, Awaiting(NextFiring(v, d, TicksIn(ops[..k]))), TicksIn(ops[..i])))
  {
    var w, flat := RunUpTo(v, T.EmptyWheel(interval), 0, [], ops, k, task);
    TicksConcat(ops[..k], ops[k..][..i - k]);
    assert ops[..i] == ops[..k] + ops[k..][..i - k];
    AddingFires(v, w, TicksIn(ops[..k]), flat, ops[k..], task, i - k,
                Awaiting(NextFiring(v, T.Ticks(task.timeout, interval), TicksIn(ops[..k]))), TicksIn(ops[..i]));
    assert T.WheelLog(v, T.EmptyWheel(interval), ops)[i] == T.WheelLog(v, T.EmptyWheel(interval), ops)[k..][i - k];
  }

  lemma {:induction false} TicksConcat(a: seq<T.Op>, b: seq<T.Op>)
    ensures TicksIn(a + b) == TicksIn(a) + TicksIn(b)
  {
    if a == [] {
      assert a + b == b;
    } else {
      TicksConcat(a[1..], b);
      ConcatSplits(a, b);
    }
  }

  /** A run that begins with the addition. */
  lemma AddingFires(
    v: Variant, w: T.Wheel, now: nat, flat: seq<T.Deadline>, ops: seq<T.Op>, task: T.Task, i: nat, life: Life, t: nat)
    requires T.WellFormed(w) && T.AllReturn(v, w, ops) && T.Refines(w, now, flat) && 0 < i < |ops|
    requires IsSound(w.interval, task) && DeadlinesOf(flat, task) == []
    requires ops[0] == T.Add(task) && AllLeaveAlone(ops[1..], task)
    requires life == Awaiting(NextFiring(v, T.Ticks(task.timeout, w.interval), now)) && t == now + TicksIn(ops[..i])
    ensures var log, d := T.WheelLog(v, w, ops), T.Ticks(task.timeout, w.interval);
            && |log| == |ops|
            && (task in log[i] <==> ops[i].Tick? && FiresAt(v, d, task.repeat, life, t))
  {
    LogOfRest(v, w, ops, i);
    TicksAfterFirst(ops, i);
    var w', flat' := AdditionLives(v, w, now, flat, ops[0], task, life);
    assert T.AllReturn(v, w', ops[1..]) && ops[i] == ops[1..][i - 1];
    RunFiresTask(v, w', now, flat', ops[1..], task, life, i - 1, t);
  }

  lemma AdditionLives(
    v: Variant, w: T.Wheel, now: nat, flat: seq<T.Deadline>, op: T.Op, task: T.Task, life: Life)
    returns (w': T.Wheel, flat': seq<T.Deadline>)
    requires T.WellFormed(w) && T.Refines(w, now, flat) && DeadlinesOf(flat, task) == [] && op == T.Add(task)
    requires life == Awaiting(NextFiring(v, T.Ticks(task.timeout, w.interval), now))
    ensures T.WellFormed(w') && w'.interval == w.interval
    ensures w' == T.WheelStep(v, w, op).0 && T.Refines(w', now, flat') && Lives(flat', task, life)
  {
    var dl := T.NewDeadline(v, w.interval, now, task);
    T.AddKeepsRefinement(v, w, now, flat, task);
    w', flat' := T.WheelStep(v, w, op).0, flat + [dl];
    FilterConcat(T.Where(Is(task)), flat, [dl]);
    assert DeadlinesOf([dl], task) == [dl] && [] + [dl] == [dl];
  }

  /**
   * The repaired wheel, in milliseconds: a one-shot timer fires in the tick that is `d` ticks after its addition, where
   * `d` is the number of whole intervals in its timeout; a repeating one in every `d`-th tick from then on.
   */
  lemma RepairedTimerFires(interval: nat, ops: seq<T.Op>, k: nat, task: T.Task, d: nat, i: nat)
    requires IsSound(interval, task) && T.AllReturn(Repaired, T.EmptyWheel(interval), ops)
    requires k < |ops| && ops[k] == T.Add(task) && T.Add(task) !in ops[..k] && AllLeaveAlone(ops[k + 1..], task)
    requires k < i < |ops| && d * interval <= task.timeout < (d + 1) * interval
    ensures var log := T.WheelLog(Repaired, T.EmptyWheel(interval), ops);
            && |log| == |ops|
            && (task in log[i] <==>
                  && ops[i].Tick?
                  && var since := TicksIn(ops[..i]) - TicksIn(ops[..k]);
                  if task.repeat then exists n: nat :: n >= 1 && since == Times(n, d) else since == d)
  {
    T.TicksAreWholeIntervals(task.timeout, interval, d);
    AddedTaskFires(Repaired, interval, ops, k, task, i);
    ExactFirings(d, task.repeat, TicksIn(ops[..k]), TicksIn(ops[..i]));
  }

  lemma ExactFirings(d: nat, repeat: bool, start: nat, t: nat)
    ensures FiresAt(Repaired, d, repeat, Awaiting(start + d), t)
            <==> if repeat then exists n: nat :: n >= 1 && t - start == Times(n, d) else t - start == d
  {
    var at := start + d;
    ExactFiringTimes(d, at, 0);
    if n: nat :| FireAt(Repaired, d, at, n) == t && (n == 0 || repeat) {
      ExactFiringTimes(d, at, n);
      assert Times(n + 1, d) == d + n * d;
    }
    if n: nat :| n >= 1 && t - start == Times(n, d) {
      ExactFiringTimes(d, at, n - 1);
      assert Times(n, d) == d + (n - 1) * d;
      assert repeat ==> FireAt(Repaired, d, at, n - 1) == t;
    }
  }

  function Times(n: nat, d: nat): nat {
    n * d
  }

  /** The written wheel: a one-shot timer fires in that tick, or 100 ticks later when the cursor and the rest wrap. */
  lemma WrittenTimerFires(interval: nat, ops: seq<T.Op>, k: nat, task: T.Task, d: nat, i: nat)
    requires interval > 0 && !task.repeat && T.AllReturn(AsWritten, T.EmptyWheel(interval), ops)
    requires k < |ops| && ops[k] == T.Add(task) && T.Add(task) !in ops[..k] && AllLeaveAlone(ops[k + 1..], task)
    requires k < i < |ops| && d * interval <= task.timeout < (d + 1) * interval
    ensures var log := T.WheelLog(AsWritten, T.EmptyWheel(interval), ops);
            var start := TicksIn(ops[..k]);
            && |log| == |ops|
            && (task in log[i] <==>
                  && ops[i].Tick?
                  && TicksIn(ops[..i]) - start == d + (if start % 100 + d % 100 >= 100 then 100 else 0))
  {
    T.TicksAreWholeIntervals(task.timeout, interval, d);
    AddedTaskFires(AsWritten, interval, ops, k, task, i);
    var at := NextFiring(AsWritten, d, TicksIn(ops[..k]));
    assert FireAt(AsWritten, d, at, 0) == at;
  }
}
