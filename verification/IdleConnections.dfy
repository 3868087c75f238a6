/**
 * The idle-connection wheel (src/net/IdleConnections.cpp, src/net/IdleConnections.h): an entry lives as long as some
 * slot refers to it. It refines a map from entries to the ticks since their last activity.
 */
module IdleConnections {
  const SLOT_SIZE: nat := 60

  /** `slots` holds the shared references, by entry; `next` is the identity of the next entry to be created. */
  datatype Wheel = Wheel(slots: seq<seq<nat>>, cur: nat, next: nat)

  ghost predicate WellFormed(w: Wheel) {
    |w.slots| == SLOT_SIZE && w.cur < SLOT_SIZE
  }

  /** Some slot still refers to the entry: a weak pointer to it can be locked. */
  predicate Referenced(slots: seq<seq<nat>>, e: nat) {
    exists j :: 0 <= j < |slots| && e in slots[j]
  }

  function Push(w: Wheel, e: nat): Wheel
    requires WellFormed(w)
  {
    w.(slots := w.slots[w.cur := w.slots[w.cur] + [e]])
  }

  function Advance(cur: nat): nat {
    if cur + 1 >= SLOT_SIZE then 0 else cur + 1
  }

  /** The wheel after a tick: the cursor moves on and the slot it reaches is cleared. */
  function Cleared(w: Wheel): Wheel
    requires WellFormed(w)
  {
    w.(cur := Advance(w.cur), slots := w.slots[Advance(w.cur) := []])
  }

  /** The entries that a tick drops the last reference to, as far as they are in the cleared slot. */
  function Dropped(w: Wheel): set<nat>
    requires WellFormed(w)
  {
    set e | e in w.slots[Advance(w.cur)] && !Referenced(Cleared(w).slots, e)
  }

  // -------- the specification: a last-activity map --------

  /** `ages` maps every live entry to the number of ticks since it was added or last updated. */
  datatype Activity = Activity(ages: map<nat, nat>, next: nat)

  datatype Op = Add | Update(entry: nat) | Tick

  function SpecStep(a: Activity, op: Op): (Activity, set<nat>) {
    match op
    case Add => (Activity(a.ages[a.next := 0], a.next + 1), {})
    case Update(e) => (if e in a.ages then a.(ages := a.ages[e := 0]) else a, {})
    case Tick =>
      (a.(ages := map e | e in a.ages && a.ages[e] + 1 < SLOT_SIZE :: a.ages[e] + 1),
       set e | e in a.ages && a.ages[e] + 1 >= SLOT_SIZE)
  }

  /** One operation on the wheel and the entries it destroys. An update goes through a weak pointer that must lock. */
  function WheelStep(w: Wheel, op: Op): (Wheel, set<nat>)
    requires WellFormed(w)
  {
    match op
    case Add => (Push(w, w.next).(next := w.next + 1), {})
    case Update(e) => (if Referenced(w.slots, e) then Push(w, e) else w, {})
    case Tick => (Cleared(w), Dropped(w))
  }

  // -------- refinement --------

  /** How many ticks ago the cursor was at slot `j`. */
  function Behind(cur: nat, j: nat): int {
    if cur >= j then cur - j else cur - j + SLOT_SIZE
  }

  /** The slot the cursor was at `age` ticks ago. */
  function SlotAt(cur: nat, age: nat): int {
    if cur >= age then cur - age else cur - age + SLOT_SIZE
  }

  /** Every live entry is in the slot of its last activity, and in no more recent one. */
  ghost predicate Refines(w: Wheel, a: Activity)
    requires WellFormed(w)
  {
    && w.next == a.next
    && (forall e :: e in a.ages ==>
          e < a.next && a.ages[e] < SLOT_SIZE && e in w.slots[SlotAt(w.cur, a.ages[e])])
    && (forall j, e :: 0 <= j < SLOT_SIZE && e in w.slots[j] ==> e in a.ages && a.ages[e] <= Behind(w.cur, j))
  }

  lemma ReferencedIffLive(w: Wheel, a: Activity, e: nat)
    requires WellFormed(w) && Refines(w, a)
    ensures Referenced(w.slots, e) <==> e in a.ages
  {
    if e in a.ages {
      assert e in w.slots[SlotAt(w.cur, a.ages[e])];
    }
  }

  lemma PushKeepsRefinement(w: Wheel, a: Activity, e: nat)
    requires WellFormed(w) && Refines(w, a) && e < a.next
    ensures Refines(Push(w, e), a.(ages := a.ages[e := 0]))
  {
    var w' := Push(w, e);
    assert forall j, x :: 0 <= j < SLOT_SIZE && x in w.slots[j] ==> x in w'.slots[j];
    assert forall j, x :: 0 <= j < SLOT_SIZE && x in w'.slots[j] && x != e ==> x in w.slots[j];
  }

  lemma TickKeepsRefinement(w: Wheel, a: Activity)
    requires WellFormed(w) && Refines(w, a)
    ensures Refines(Cleared(w), SpecStep(a, Tick).0)
  {
    var w', a' := Cleared(w), SpecStep(a, Tick).0;
    forall e | e in a'.ages
      ensures e in w'.slots[SlotAt(w'.cur, a'.ages[e])]
    {
      assert SlotAt(w'.cur, a'.ages[e]) == SlotAt(w.cur, a.ages[e]) != w'.cur;
    }
    forall j, e | 0 <= j < SLOT_SIZE && e in w'.slots[j]
      ensures e in a'.ages && a'.ages[e] <= Behind(w'.cur, j)
    {
      assert e in w.slots[j] && Behind(w'.cur, j) == Behind(w.cur, j) + 1;
    }
  }

  lemma TickDropsOldest(w: Wheel, a: Activity)
    requires WellFormed(w) && Refines(w, a)
    ensures Dropped(w) == SpecStep(a, Tick).1
  {
    TickKeepsRefinement(w, a);
    forall e
      ensures e in Dropped(w) <==> e in SpecStep(a, Tick).1
    {
      ReferencedIffLive(Cleared(w), SpecStep(a, Tick).0, e);
      if e in a.ages {
        assert e in w.slots[SlotAt(w.cur, a.ages[e])];
      }
    }
  }

  lemma StepKeepsRefinement(w: Wheel, a: Activity, op: Op)
    requires WellFormed(w) && Refines(w, a)
    ensures var (w', dead) := WheelStep(w, op);
            var (a', expired) := SpecStep(a, op);
            WellFormed(w') && Refines(w', a') && dead == expired
  {
    match op
    case Add =>
      var grown := a.(next := a.next + 1);
      PushKeepsRefinement(w.(next := w.next + 1), grown, w.next);
    case Update(e) =>
      ReferencedIffLive(w, a, e);
      if e in a.ages {
        PushKeepsRefinement(w, a, e);
      }
    case Tick =>
      TickKeepsRefinement(w, a);
      TickDropsOldest(w, a);
  }

  // -------- whole runs --------

  function WheelRun(w: Wheel, ops: seq<Op>): (r: Wheel)
    requires WellFormed(w)
    ensures WellFormed(r)
    decreases |ops|
  {
    if ops == [] then w else WheelRun(WheelStep(w, ops[0]).0, ops[1..])
  }

  function SpecRun(a: Activity, ops: seq<Op>): Activity
    decreases |ops|
  {
    if ops == [] then a else SpecRun(SpecStep(a, ops[0]).0, ops[1..])
  }

  /** The entries destroyed by each operation. */
  function WheelLog(w: Wheel, ops: seq<Op>): seq<set<nat>>
    requires WellFormed(w)
    decreases |ops|
  {
    if ops == [] then [] else [WheelStep(w, ops[0]).1] + WheelLog(WheelStep(w, ops[0]).0, ops[1..])
  }

  function SpecLog(a: Activity, ops: seq<Op>): seq<set<nat>>
    decreases |ops|
  {
    if ops == [] then [] else [SpecStep(a, ops[0]).1] + SpecLog(SpecStep(a, ops[0]).0, ops[1..])
  }

  lemma {:induction false} RunKeepsRefinement(w: Wheel, a: Activity, ops: seq<Op>)
    requires WellFormed(w) && Refines(w, a)
    ensures Refines(WheelRun(w, ops), SpecRun(a, ops)) && WheelLog(w, ops) == SpecLog(a, ops)
    decreases |ops|
  {
    if ops != [] {
      StepKeepsRefinement(w, a, ops[0]);
      RunKeepsRefinement(WheelStep(w, ops[0]).0, SpecStep(a, ops[0]).0, ops[1..]);
    }
  }

  function EmptyWheel(): Wheel {
    Wheel(seq(SLOT_SIZE, _ => []), 0, 0)
  }

  /**
   * Main result. After any sequence of operations an entry is still referenced exactly when the last-activity map holds
   * it, and the destructors run by each operation are those of the entries whose age reaches the number of slots.
   */
  lemma WheelRefinesActivity(ops: seq<Op>, e: nat)
    ensures WheelLog(EmptyWheel(), ops) == SpecLog(Activity(map[], 0), ops)
    ensures Referenced(WheelRun(EmptyWheel(), ops).slots, e) <==> e in SpecRun(Activity(map[], 0), ops).ages
  {
    RunKeepsRefinement(EmptyWheel(), Activity(map[], 0), ops);
    ReferencedIffLive(WheelRun(EmptyWheel(), ops), SpecRun(Activity(map[], 0), ops), e);
  }

  function TicksIn(ops: seq<Op>): nat {
    if ops == [] then 0 else (if ops[0].Tick? then 1 else 0) + TicksIn(ops[1..])
  }

  /**
   * An entry that was active `age` ticks ago and is not updated any more stays referenced for fewer than 60 ticks since
   * then, and is destroyed by exactly the 60th.
   */
  lemma {:induction false} QuietEntryExpires(w: Wheel, a: Activity, ops: seq<Op>, e: nat, i: nat)
    requires WellFormed(w) && Refines(w, a) && e in a.ages && Update(e) !in ops && i < |ops|
    ensures |WheelLog(w, ops)| == |ops|
    ensures e in WheelLog(w, ops)[i] <==> ops[i].Tick? && a.ages[e] + TicksIn(ops[..i]) == 59
    ensures Referenced(WheelRun(w, ops).slots, e) <==> a.ages[e] + TicksIn(ops) < 60
    decreases |ops|
  {
    var (w', a') := (WheelStep(w, ops[0]).0, SpecStep(a, ops[0]).0);
    StepKeepsRefinement(w, a, ops[0]);
    assert ops[0] != Update(e) && Update(e) !in ops[1..];
    if i > 0 {
      assert ops[..i][0] == ops[0] && ops[..i][1..] == ops[1..][..i - 1];
    }
    if |ops| == 1 {
      ReferencedIffLive(w', a', e);
    } else if e in a'.ages {
      QuietEntryExpires(w', a', ops[1..], e, if i == 0 then 0 else i - 1);
    } else {
      DeadEntryStaysDead(w', a', ops[1..], e, if i == 0 then 0 else i - 1);
    }
  }

  /** A destroyed entry is never referenced or destroyed again: its weak pointer no longer locks. */
  lemma {:induction false} DeadEntryStaysDead(w: Wheel, a: Activity, ops: seq<Op>, e: nat, i: nat)
    requires WellFormed(w) && Refines(w, a) && e < a.next && e !in a.ages && i < |ops|
    ensures |WheelLog(w, ops)| == |ops| && e !in WheelLog(w, ops)[i]
    ensures !Referenced(WheelRun(w, ops).slots, e)
    decreases |ops|
  {
    var (w', a') := (WheelStep(w, ops[0]).0, SpecStep(a, ops[0]).0);
    StepKeepsRefinement(w, a, ops[0]);
    if |ops| == 1 {
      ReferencedIffLive(w', a', e);
    } else {
      DeadEntryStaysDead(w', a', ops[1..], e, if i == 0 then 0 else i - 1);
    }
  }

  // -------- the class --------

  class IdleConnectionWheel {
    var slots: seq<seq<nat>>
    var cur: nat
    /** Allocator of entry identities. */
    var next: nat

    ghost function Value(): Wheel
      reads this
    {
      Wheel(slots, cur, next)
    }

    ghost predicate Valid()
      reads this
    {
      WellFormed(Value())
    }

    constructor ()
      ensures Valid() && Value() == EmptyWheel()
    {
      slots := seq(SLOT_SIZE, _ => []);
      cur, next := 0, 0;
    }

    /** Creates an entry and returns a weak reference to it. */
    method Add() returns (e: nat)
      requires Valid()
      modifies this
      ensures Valid() && Value() == WheelStep(old(Value()), Op.Add).0 && e == old(next)
    {
      e := next;
      next := next + 1;
      slots := slots[cur := slots[cur] + [e]];
    }

    /** Locks a weak reference. */
    method Lock(e: nat) returns (live: bool)
      requires Valid()
      ensures live <==> Referenced(slots, e)
    {
      live := Referenced(slots, e);
    }

    /** The caller holds a shared reference. */
    method Update(e: nat)
      requires Valid() && Referenced(slots, e)
      modifies this`slots
      ensures Valid() && Value() == WheelStep(old(Value()), Op.Update(e)).0
    {
      slots := slots[cur := slots[cur] + [e]];
    }

    /** The guard every caller puts around `Update`: a message on an expired connection changes nothing. */
    method UpdateIdleConn(e: nat)
      requires Valid()
      modifies this`slots
      ensures Valid() && Value() == WheelStep(old(Value()), Op.Update(e)).0
    {
      var live := Lock(e);
      if live {
        Update(e);
      }
    }

    /** Clears one slot reference by reference; an entry is destroyed with its last one. */
    method Tick() returns (expired: seq<nat>)
      requires Valid()
      modifies this`slots, this`cur
      ensures Valid() && Value() == WheelStep(old(Value()), Op.Tick).0
      ensures forall e :: e in expired <==> e in WheelStep(old(Value()), Op.Tick).1
      ensures forall i, j :: 0 <= i < j < |expired| ==> expired[i] != expired[j]
    {
      ghost var w := Value();
      cur := cur + 1;
      if cur >= SLOT_SIZE {
        cur := 0;
      }
      expired := [];
      while slots[cur] != []
        invariant cur == Advance(w.cur) && |slots| == SLOT_SIZE
        invariant slots == w.slots[cur := slots[cur]] && forall e :: e in slots[cur] ==> e in w.slots[cur]
        invariant forall e :: e in w.slots[cur] ==> e in slots[cur] || e in expired || Referenced(Cleared(w).slots, e)
        invariant forall e :: e in expired ==> e in w.slots[cur] && !Referenced(slots, e)
        invariant forall i, j :: 0 <= i < j < |expired| ==> expired[i] != expired[j]
        decreases |slots[cur]|
      {
        var e := slots[cur][0];
        ghost var before := slots;
        assert Referenced(before, e);
        slots := slots[cur := slots[cur][1..]];
        assert forall x :: x in before[cur] ==> x == e || x in slots[cur];
        FewerReferences(before, slots);
        FewerReferences(slots, Cleared(w).slots);
        var live := Lock(e);
        if !live {
          expired := expired + [e];
        } else if e !in slots[cur] {
          ElsewhereReferenced(w, slots, e);
        }
      }
      assert slots == Cleared(w).slots;
    }
  }

  lemma FewerReferences(more: seq<seq<nat>>, fewer: seq<seq<nat>>)
    requires |more| == |fewer| && forall j, e :: 0 <= j < |fewer| && e in fewer[j] ==> e in more[j]
    ensures forall e :: Referenced(fewer, e) ==> Referenced(more, e)
  {
    forall e | Referenced(fewer, e)
      ensures Referenced(more, e)
    {
      var j :| 0 <= j < |fewer| && e in fewer[j];
      assert e in more[j];
    }
  }

  lemma ElsewhereReferenced(w: Wheel, slots: seq<seq<nat>>, e: nat)
    requires WellFormed(w) && |slots| == SLOT_SIZE && slots == w.slots[Advance(w.cur) := slots[Advance(w.cur)]]
    requires Referenced(slots, e) && e !in slots[Advance(w.cur)]
    ensures Referenced(Cleared(w).slots, e)
  {
    var j :| 0 <= j < |slots| && e in slots[j];
    assert e in Cleared(w).slots[j];
  }
}
