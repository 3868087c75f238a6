/** The timing wheel and its shared timer entries as objects (src/reactor/Timer.cpp, src/reactor/Timer.h). */
module TimerObjects {
  import opened Common
  import opened TimingWheels

  /** One timer, shared between the wheel and whoever may disable it. Its `id` stands for its identity in logs. */
  class TimerEntry {
    const task: Task
    var round: nat
    var disabled: bool

    constructor (id: nat, ms: nat, repeat: bool)
      ensures Value() == Timer(Task(id, ms, repeat), 0, false)
    {
      task := Task(id, ms, repeat);
      round, disabled := 0, false;
    }

    ghost function Value(): Timer
      reads this
    {
      Timer(task, round, disabled)
    }

    method Disable()
      modifies this`disabled
      ensures Value() == old(Value()).(disabled := true)
    {
      disabled := true;
    }
  }

  ghost function Snap(s: seq<TimerEntry>): seq<Timer>
    reads s
  {
    seq(|s|, i requires 0 <= i < |s| reads s => s[i].Value())
  }

  /** The entries of all slots. */
  ghost function All(slots: seq<seq<TimerEntry>>): set<TimerEntry> {
    set j, e | 0 <= j < |slots| && e in slots[j] :: e
  }

  ghost function SnapAll(slots: seq<seq<TimerEntry>>): seq<seq<Timer>>
    reads All(slots)
  {
    seq(|slots|, j requires 0 <= j < |slots| reads All(slots) =>
      assert forall e :: e in slots[j] ==> e in All(slots);
      Snap(slots[j]))
  }

  /** Every entry is in at most one slot, and there at most once. */
  ghost predicate Distinct(slots: seq<seq<TimerEntry>>) {
    && (forall j, i, k :: 0 <= j < |slots| && 0 <= i < k < |slots[j]| ==> slots[j][i] != slots[j][k])
    && (forall j, k, e :: 0 <= j < k < |slots| && e in slots[j] ==> e !in slots[k])
  }

  lemma PushedAll(slots: seq<seq<TimerEntry>>, slot: nat, ent: TimerEntry)
    requires slot < |slots|
    ensures All(slots[slot := slots[slot] + [ent]]) == All(slots) + {ent}
    ensures ent !in All(slots) && Distinct(slots) ==> Distinct(slots[slot := slots[slot] + [ent]])
  {
    var s' := slots[slot := slots[slot] + [ent]];
    assert forall j :: 0 <= j < |slots| && j != slot ==> s'[j] == slots[j];
    assert ent in s'[slot];
    forall e | e in All(slots)
      ensures e in All(s')
    {
      var j :| 0 <= j < |slots| && e in slots[j];
      assert e in s'[j];
    }
    if ent !in All(slots) {
      assert forall j :: 0 <= j < |slots| ==> ent !in slots[j];
    }
  }

  lemma ErasedAll(slots: seq<seq<TimerEntry>>, slot: nat, i: nat)
    requires slot < |slots| && i < |slots[slot]| && Distinct(slots)
    ensures var s' := slots[slot := slots[slot][..i] + slots[slot][i + 1..]];
            Distinct(s') && All(s') == All(slots) - {slots[slot][i]}
  {
    var e, s' := slots[slot][i], slots[slot := slots[slot][..i] + slots[slot][i + 1..]];
    assert forall x :: x in s'[slot] <==> x in slots[slot] && x != e;
    assert forall j :: 0 <= j < |slots| && j != slot ==> s'[j] == slots[j] && e !in slots[j];
    forall x
      ensures x in All(s') <==> x in All(slots) && x != e
    {
      if x in All(slots) && x != e {
        var j :| 0 <= j < |slots| && x in slots[j];
        assert x in s'[j];
      }
    }
  }

  function Ids(timers: set<TimerEntry>): set<nat> {
    set t | t in timers :: t.task.id
  }

  /** The `k`-th callback of a tick disables the timers in `calls[k]`, and the later ones none. */
  function Effects(calls: seq<set<TimerEntry>>): Callbacks {
    (k: nat) => if k < |calls| then Ids(calls[k]) else {}
  }

  /** Disables each of several timers. */
  method DisableEach(timers: set<TimerEntry>)
    modifies timers`disabled
    ensures forall t :: t in timers ==> t.disabled
  {
    var left := timers;
    while left != {}
      invariant left <= timers && forall t :: t in timers && t !in left ==> t.disabled
      modifies timers`disabled
    {
      var t :| t in left;
      t.Disable();
      left := left - {t};
    }
  }

  class TimingWheel {
    const interval: nat
    var cur: nat
    var slots: seq<seq<TimerEntry>>

    ghost predicate Valid()
      reads this
    {
      interval > 0 && cur < ROUND_SIZE && |slots| == ROUND_SIZE && Distinct(slots)
    }

    ghost function Value(): Wheel
      reads this, All(slots)
    {
      Wheel(interval, cur, SnapAll(slots))
    }

    /** A timer among `timers` is known to the wheel by its id. */
    ghost predicate Identified(timers: set<TimerEntry>)
      reads this
    {
      forall a, b :: a in All(slots) && b in timers && a.task.id == b.task.id ==> a == b
    }

    constructor (interval: nat)
      requires interval > 0
      ensures Valid() && Value() == EmptyWheel(interval) && All(slots) == {}
    {
      this.interval := interval;
      cur := 0;
      slots := seq(ROUND_SIZE, _ => []);
    }

    /** Sets the rounds of an entry and pushes it behind the entries of its slot. */
    method PushEntry(v: Variant, ent: TimerEntry) returns (slot: nat)
      requires interval > 0 && cur < ROUND_SIZE && |slots| == ROUND_SIZE
      modifies this`slots, ent`round
      ensures slot == SlotFor(cur, Ticks(ent.task.timeout, interval)) < ROUND_SIZE
      ensures slots == old(slots)[slot := old(slots)[slot] + [ent]]
      ensures ent.Value() == Rearmed(v, interval, cur, old(ent.Value()))
    {
      var d := Ticks(ent.task.timeout, interval);
      ent.round := (if v.AsWritten? then cur + d else d) / ROUND_SIZE;
      slot := (cur + d) % ROUND_SIZE;
      slots := slots[slot := slots[slot] + [ent]];
    }

    /** The same entry must not be added twice: both copies would share one round counter. */
    method Add(v: Variant, ent: TimerEntry)
      requires Valid() && ent !in All(slots)
      modifies this`slots, ent`round
      ensures Valid() && Value() == AddEntry(v, old(Value()), old(ent.Value()))
      ensures All(slots) == old(All(slots)) + {ent}
    {
      ghost var before, list := slots, SnapAll(slots);
      var slot := PushEntry(v, ent);
      PushedAll(before, slot, ent);
      forall j | 0 <= j < ROUND_SIZE
        ensures Snap(before[j]) == list[j]
      {
        assert forall e :: e in before[j] ==> e in All(before);
      }
      assert Snap(slots[slot]) == list[slot] + [ent.Value()];
      assert SnapAll(slots) == list[slot := list[slot] + [ent.Value()]];
    }

    /** Erases the entry at index `i` of the current slot. */
    method Erase(i: nat)
      requires Valid() && i < |slots[cur]|
      modifies this`slots
      ensures Valid() && Value() == Erased(old(Sweep(Value(), i, []))).w
      ensures All(slots) == old(All(slots)) - {old(slots[cur][i])}
    {
      ghost var before, list := slots, slots[cur];
      slots := slots[cur := slots[cur][..i] + slots[cur][i + 1..]];
      ErasedAll(before, cur, i);
      assert Snap(slots[cur]) == Snap(list[..i]) + Snap(list[i + 1..]);
      assert Snap(list)[..i] == Snap(list[..i]) && Snap(list)[i..][1..] == Snap(list[i + 1..]);
      assert SnapAll(slots) == SnapAll(before)[cur := Snap(slots[cur])];
    }

    /** Takes one round off the entry at index `i` of the current slot. */
    method CountDown(i: nat)
      requires Valid() && i < |slots[cur]| && slots[cur][i].round > 0
      modifies {slots[cur][i]}
      ensures Valid()
      ensures var s := old(Sweep(Value(), i, []));
              Value() == WithCurrent(s.w, Visited(s) + [CountedDown(Pending(s)[0])] + Pending(s)[1..])
    {
      ghost var w := Value();
      var e := slots[cur][i];
      e.round := e.round - 1;
      forall j | 0 <= j < ROUND_SIZE && j != cur
        ensures Snap(slots[j]) == w.slots[j]
      {
        assert e in slots[cur] && e !in slots[j];
      }
      assert Snap(slots[cur]) == w.slots[cur][i := e.Value()];
      assert SnapAll(slots) == w.slots[cur := Snap(slots[cur])];
      assert w.slots[cur][i := e.Value()] == w.slots[cur][..i] + [e.Value()] + w.slots[cur][i..][1..];
    }

    /** A callback, as far as the wheel is concerned: it disables the timers in `stop`, held by the wheel or not. */
    method RunCallback(stop: set<TimerEntry>)
      requires Valid() && Identified(stop)
      modifies stop`disabled
      ensures Valid() && Value() == StopAll(old(Value()), Ids(stop))
      ensures forall t :: t in stop ==> t.disabled
    {
      ghost var w := Value();
      DisableEach(stop);
      forall j | 0 <= j < ROUND_SIZE
        ensures Snap(slots[j]) == Stop(w.slots[j], Ids(stop))
      {
        forall i | 0 <= i < |slots[j]|
          ensures slots[j][i].Value() == Stop(w.slots[j], Ids(stop))[i]
        {
          assert slots[j][i] in slots[j] && slots[j][i] in All(slots);
          assert w.slots[j][i] == old(slots[j][i].Value());
        }
      }
      assert SnapAll(slots) == StopAll(w, Ids(stop)).slots;
    }

    /**
     * Fires the entry at index `i`: its callback disables the timers in `stop`, then it is erased and, if it repeats,
     * inserted again. The source inserts before it erases the old list node, which gives the same list.
     */
    method FireEntry(v: Variant, i: nat, stop: set<TimerEntry>)
      requires Valid() && i < |slots[cur]| && Fires(slots[cur][i].Value()) && Identified(stop)
      modifies this`slots, {slots[cur][i]}, stop`disabled
      ensures Valid()
      ensures Value() == Visit(v, Sweep(old(Value()), i, []), Ids(stop)).w
      ensures var e := old(slots[cur][i]);
              All(slots) == old(All(slots)) || (All(slots) == old(All(slots)) - {e} && !e.task.repeat)
      ensures forall t :: t in stop && old(t.disabled) ==> t.disabled
    {
      var e := slots[cur][i];
      assert e in slots[cur] && e in All(slots);
      StopErased(Sweep(Value(), i, []), Ids(stop));
      RunCallback(stop);
      Erase(i);
      if e.task.repeat {
        Add(v, e);
      }
    }

    /** One iteration of the loop of `Tick`: what happens to the entry at index `i`, and the index to go on from. */
    method VisitEntry(v: Variant, i: nat, fired: seq<Task>, stop: set<TimerEntry>)
      returns (next: nat, fired': seq<Task>)
      requires Valid() && i < |slots[cur]| && Identified(stop)
      modifies this`slots, {slots[cur][i]}, stop`disabled
      ensures Valid()
      ensures Sweep(Value(), next, fired') == Visit(v, Sweep(old(Value()), i, fired), Ids(stop))
      ensures var e := old(slots[cur][i]);
              All(slots) == old(All(slots)) || (All(slots) == old(All(slots)) - {e} && LeavesFor(e, fired'))
      ensures fired <= fired' && forall t :: t in stop && old(t.disabled) ==> t.disabled
    {
      next, fired' := i, fired;
      var e := slots[cur][i];
      assert Value().slots[cur][i..][0] == e.Value();
      assert e in slots[cur] && e in All(slots);
      if e.disabled {
        Erase(i);
      } else if e.round > 0 {
        CountDown(i);
        next := i + 1;
      } else {
        fired' := fired + [e.task];
        FireEntry(v, i, stop);
      }
    }

    /** Every entry of `held` is still in the wheel, or left it for a reason. */
    ghost predicate Accounted(held: set<TimerEntry>, fired: seq<Task>)
      reads this, held
    {
      forall e :: e in held ==> e in All(slots) || LeavesFor(e, fired)
    }

    /** The iteration again, for a tick that began with the entries `held`. */
    method VisitNext(v: Variant, i: nat, fired: seq<Task>, stop: set<TimerEntry>, ghost held: set<TimerEntry>)
      returns (next: nat, fired': seq<Task>)
      requires Valid() && i < |slots[cur]| && Identified(stop) && Accounted(held, fired)
      modifies this`slots, {slots[cur][i]}, stop`disabled
      ensures Valid() && Accounted(held, fired') && All(slots) <= old(All(slots))
      ensures Sweep(Value(), next, fired') == Visit(v, old(Sweep(Value(), i, fired)), Ids(stop))
    {
      ghost var e := slots[cur][i];
      assert e in slots[cur] && e in All(slots);
      next, fired' := VisitEntry(v, i, fired, stop);
      forall x | x in held
        ensures x in All(slots) || LeavesFor(x, fired')
      {
        if x !in All(slots) && x != e {
          assert x !in old(All(slots)) && old(LeavesFor(x, fired));
        }
      }
    }

    /** And once more, with the callback that comes next, on the way to the `end` of the sweep. */
    method VisitWith(
      v: Variant, i: nat, fired: seq<Task>, calls: seq<set<TimerEntry>>, ghost handles: set<TimerEntry>,
      ghost held: set<TimerEntry>, ghost s: Sweep, ghost left: nat, ghost end: Sweep)
      returns (next: nat, fired': seq<Task>, ghost s': Sweep)
      requires Valid() && i < |slots[cur]| && Accounted(held, fired)
      requires Identified(handles) && forall k :: 0 <= k < |calls| ==> calls[k] <= handles
      requires s == Sweep(Value(), i, fired) && Reaches(v, s, Effects(calls), left, end)
      modifies this`slots, All(slots), handles`disabled
      ensures Valid() && Accounted(held, fired') && All(slots) <= old(All(slots))
      ensures left > 0 && s' == Sweep(Value(), next, fired') && Reaches(v, s', Effects(calls), left - 1, end)
    {
      var stop := if |fired| < |calls| then calls[|fired|] else {};
      assert stop <= handles && Identified(stop) && Ids(stop) == Effects(calls)(|fired|);
      OneStepNearer(v, s, Effects(calls), left, end);
      s' := Visit(v, s, Ids(stop));
      assert slots[cur][i] in slots[cur] && slots[cur][i] in All(slots);
      next, fired' := VisitNext(v, i, fired, stop, held);
    }

    /**
     * The loop of `Tick`. It runs over a list that it changes: entries are erased, and fired ones may come back behind
     * the current index. The `k`-th callback disables the timers in `calls[k]`; `fired` lists the callbacks that were
     * run.
     */
    method SweepSlot(v: Variant, calls: seq<set<TimerEntry>>, ghost handles: set<TimerEntry>) returns (fired: seq<Task>)
      requires Valid() && Ends(v, Start(Value()), Effects(calls))
      requires Identified(handles) && forall k :: 0 <= k < |calls| ==> calls[k] <= handles
      modifies this`slots, All(slots), handles`disabled
      ensures Valid() && All(slots) <= old(All(slots))
      ensures var s := Swept(v, Start(old(Value())), Effects(calls)); Value() == s.w && fired == s.fired
      ensures Accounted(old(All(slots)), fired)
    {
      fired := [];
      var i: nat := 0;
      ghost var s := Start(Value());
      ghost var end, left := StepsToEnd(v, s, Effects(calls));
      while i < |slots[cur]|
        invariant Valid() && All(slots) <= old(All(slots)) && Accounted(old(All(slots)), fired)
        invariant s == Sweep(Value(), i, fired) && Reaches(v, s, Effects(calls), left, end)
        decreases left
      {
        i, fired, s := VisitWith(v, i, fired, calls, handles, old(All(slots)), s, left, end);
        left := left - 1;
      }
      EndIsReached(v, s, Effects(calls), left, end);
    }

    method MoveCursor()
      requires Valid()
      modifies this`cur
      ensures Valid() && Value() == old(Value()).(cur := (old(cur) + 1) % ROUND_SIZE)
    {
      cur := (cur + 1) % ROUND_SIZE;
    }

    /**
     * One tick: the current slot is swept and the cursor moves on. Whatever the callbacks disable, only disabled
     * entries and fired one-shot entries leave the wheel; every other entry stays in exactly one slot.
     */
    method Tick(v: Variant, calls: seq<set<TimerEntry>>, ghost handles: set<TimerEntry>) returns (fired: seq<Task>)
      requires Valid() && Ends(v, Start(Value()), Effects(calls))
      requires Identified(handles) && forall k :: 0 <= k < |calls| ==> calls[k] <= handles
      modifies this, All(slots), handles`disabled
      ensures Valid() && All(slots) <= old(All(slots))
      ensures (Value(), fired) == TickSpec(v, old(Value()), Effects(calls))
      ensures Accounted(old(All(slots)), fired)
    {
      fired := SweepSlot(v, calls, handles);
      MoveCursor();
    }
  }

  /** Disabling a shared entry, seen from the wheel that holds it. */
  method DisableThroughHandle(w: TimingWheel, ent: TimerEntry)
    requires w.Valid() && w.Identified({ent})
    modifies ent`disabled
    ensures w.Valid() && w.Value() == StopAll(old(w.Value()), {ent.task.id})
  {
    w.RunCallback({ent});
    assert Ids({ent}) == {ent.task.id};
  }

  /** The sweep ends in `end` after `left` more iterations. */
  ghost predicate Reaches(v: Variant, s: Sweep, stops: Callbacks, left: nat, end: Sweep) {
    InSweep(s) && InSweep(end) && Pending(end) == [] && After(v, s, stops, left) == end
  }

  lemma StepsToEnd(v: Variant, s: Sweep, stops: Callbacks) returns (end: Sweep, left: nat)
    requires InSweep(s) && Ends(v, s, stops)
    ensures Reaches(v, s, stops, left, end) && end == Swept(v, s, stops)
  {
    left :| Pending(After(v, s, stops, left)) == [];
    end := After(v, s, stops, left);
    SweptIs(v, s, stops, left);
  }

  lemma OneStepNearer(v: Variant, s: Sweep, stops: Callbacks, left: nat, end: Sweep)
    requires Reaches(v, s, stops, left, end) && Pending(s) != []
    ensures left > 0 && Reaches(v, Visit(v, s, stops(|s.fired|)), stops, left - 1, end)
  {
    AfterFirst(v, s, stops, left);
  }

  lemma EndIsReached(v: Variant, s: Sweep, stops: Callbacks, left: nat, end: Sweep)
    requires Reaches(v, s, stops, left, end) && Pending(s) == []
    ensures s == end
  {
  }

  /** Why an entry may leave the wheel: it is disabled, or it fires only once and has. */
  ghost predicate LeavesFor(e: TimerEntry, fired: seq<Task>)
    reads e
  {
    e.disabled || (!e.task.repeat && e.task in fired)
  }

  /** Disabling entries and erasing one of them can be done in either order. */
  lemma StopErased(s: Sweep, ids: set<nat>)
    requires InSweep(s) && Pending(s) != []
    ensures var stopped := s.(w := StopAll(s.w, ids));
            InSweep(stopped) && Pending(stopped) != [] && Erased(stopped).w == StopAll(Erased(s).w, ids)
  {
    var stopped, list := s.(w := StopAll(s.w, ids)), s.w.slots[s.w.cur];
    assert Pending(stopped) == Stop(Pending(s), ids) && Visited(stopped) == Stop(Visited(s), ids);
    assert Stop(Visited(s) + Pending(s)[1..], ids) == Visited(stopped) + Pending(stopped)[1..];
  }
}
