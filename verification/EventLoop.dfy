/**
 * Handing work to a loop thread (src/reactor/EventLoop.cpp): foreign threads queue functors and then write an eventfd;
 * the loop thread polls, dispatches, and drains the queue under its lock.
 */
module EventLoops {
  import opened Common
  import opened Events

  // -------- registration --------

  /** `registered` is the kernel's interest list, `polling` the events with `m_polling` set, `wanted` their masks. */
  datatype Poller = Poller(registered: map<nat, Mask>, polling: set<nat>, wanted: map<nat, Mask>)

  /**
   * A request to the loop thread; `User` stands for any functor that leaves the registrations alone. `SetMask` is a
   * change of an event's own mask (`enableRead`, `enableWrite`), which any thread makes in place.
   */
  datatype Functor =
    | AddEvent(e: nat)
    | ModifyEvent(e: nat)
    | RemoveEvent(e: nat)
    | SetMask(e: nat, mask: Mask)
    | User(id: nat)

  function Wanted(p: Poller, e: nat): Mask {
    if e in p.wanted then p.wanted[e] else {}
  }

  /**
   * What a request does when the loop thread runs it; the kernel refuses a second ADD and a MOD of an unknown event.
   */
  function Execute(p: Poller, f: Functor): Poller {
    match f
    case AddEvent(e) =>
      p.(registered := if e in p.registered then p.registered else p.registered[e := Wanted(p, e)],
         polling := p.polling + {e})
    case ModifyEvent(e) =>
      if e in p.registered then p.(registered := p.registered[e := Wanted(p, e)]) else p
    case RemoveEvent(e) =>
      if e in p.polling then p.(registered := p.registered - {e}, polling := p.polling - {e}) else p
    case SetMask(e, mask) => p.(wanted := p.wanted[e := mask])
    case User(_) => p
  }

  function ExecuteAll(p: Poller, fs: seq<Functor>): Poller
    decreases |fs|
  {
    if fs == [] then p else ExecuteAll(Execute(p, fs[0]), fs[1..])
  }

  /** The kernel polls exactly the events that are marked as polling. */
  ghost predicate InSync(p: Poller) {
    p.registered.Keys == p.polling
  }

  lemma {:induction false} ExecuteAllConcat(p: Poller, a: seq<Functor>, b: seq<Functor>)
    ensures ExecuteAll(p, a + b) == ExecuteAll(ExecuteAll(p, a), b)
    decreases |a|
  {
    if a == [] {
      assert a + b == b;
    } else {
      ExecuteAllConcat(Execute(p, a[0]), a[1..], b);
      assert (a + b)[0] == a[0] && (a + b)[1..] == a[1..] + b;
    }
  }

  lemma ExecuteKeepsSync(p: Poller, f: Functor)
    ensures InSync(p) ==> InSync(Execute(p, f))
  {
    if InSync(p) {
      assert Execute(p, f).registered.Keys == Execute(p, f).polling;
    }
  }

  /** Any mix of requests, however it was delivered, keeps kernel and flags in step. */
  lemma {:induction false} ExecuteAllKeepsSync(p: Poller, fs: seq<Functor>)
    requires InSync(p)
    ensures InSync(ExecuteAll(p, fs))
    decreases |fs|
  {
    if fs != [] {
      ExecuteKeepsSync(p, fs[0]);
      ExecuteAllKeepsSync(Execute(p, fs[0]), fs[1..]);
    }
  }

  /** The last request about an event decides whether it is polled. */
  ghost function LastWord(fs: seq<Functor>, e: nat, before: bool): bool {
    if fs == [] then before
    else LastWord(fs[1..], e, if fs[0] == AddEvent(e) then true else if fs[0] == RemoveEvent(e) then false else before)
  }

  lemma {:induction false} LastRequestWins(p: Poller, fs: seq<Functor>, e: nat)
    requires InSync(p)
    ensures e in ExecuteAll(p, fs).registered <==> LastWord(fs, e, e in p.polling)
    decreases |fs|
  {
    if fs != [] {
      ExecuteKeepsSync(p, fs[0]);
      LastRequestWins(Execute(p, fs[0]), fs[1..], e);
    }
  }

  /** The two pollers do not differ in anything about event `x`. */
  ghost predicate SameFor(p: Poller, q: Poller, x: nat) {
    && (x in p.registered <==> x in q.registered)
    && (x in p.registered ==> p.registered[x] == q.registered[x])
    && (x in p.polling <==> x in q.polling)
    && Wanted(p, x) == Wanted(q, x)
  }

  predicate Concerns(f: Functor, x: nat) {
    !f.User? && f.e == x
  }

  /** A request about one event leaves every other event as it is: registration, mask in the kernel and wanted mask. */
  lemma OthersAreLeftAlone(p: Poller, f: Functor, x: nat)
    requires !Concerns(f, x)
    ensures SameFor(Execute(p, f), p, x)
  {
  }

  function About(fs: seq<Functor>, x: nat): seq<Functor> {
    if fs == [] then [] else (if Concerns(fs[0], x) then [fs[0]] else []) + About(fs[1..], x)
  }

  /** What becomes of an event depends on the requests about it alone. */
  lemma {:induction false} EventsAreIndependent(p: Poller, q: Poller, fs: seq<Functor>, x: nat)
    requires SameFor(p, q, x)
    ensures SameFor(ExecuteAll(p, fs), ExecuteAll(q, About(fs, x)), x)
    decreases |fs|
  {
    if fs != [] {
      if Concerns(fs[0], x) {
        assert ([fs[0]] + About(fs[1..], x))[1..] == About(fs[1..], x);
        EventsAreIndependent(Execute(p, fs[0]), Execute(q, fs[0]), fs[1..], x);
      } else {
        OthersAreLeftAlone(p, fs[0], x);
        assert [] + About(fs[1..], x) == About(fs[1..], x);
        EventsAreIndependent(Execute(p, fs[0]), q, fs[1..], x);
      }
    }
  }

  lemma {:induction false} MaskStays(p: Poller, fs: seq<Functor>, e: nat)
    requires e in p.registered && e in p.polling
    requires forall i :: 0 <= i < |fs| ==> fs[i] != ModifyEvent(e) && fs[i] != RemoveEvent(e)
    ensures e in ExecuteAll(p, fs).registered && ExecuteAll(p, fs).registered[e] == p.registered[e]
    decreases |fs|
  {
    if fs != [] {
      MaskStays(Execute(p, fs[0]), fs[1..], e);
    }
  }

  /**
   * The kernel has the mask which the event wanted at the last request that reached it: the addition that began its
   * polling, or a modification since. No later request about it, nor a change of its own mask, makes a difference.
   */
  lemma MaskOfLastRequest(p: Poller, before: seq<Functor>, f: Functor, after: seq<Functor>, e: nat)
    requires InSync(p)
    requires var polled := e in ExecuteAll(p, before).polling;
             (f == AddEvent(e) && !polled) || (f == ModifyEvent(e) && polled)
    requires forall i :: 0 <= i < |after| ==> after[i] != ModifyEvent(e) && after[i] != RemoveEvent(e)
    ensures var p' := ExecuteAll(p, before + ([f] + after));
            e in p'.registered && p'.registered[e] == Wanted(ExecuteAll(p, before), e)
  {
    ExecuteAllKeepsSync(p, before);
    ExecuteAllConcat(p, before, [f] + after);
    assert ([f] + after)[1..] == after;
    MaskStays(Execute(ExecuteAll(p, before), f), after, e);
  }

  /** The mask an event wants is the one it was last set to. */
  lemma {:induction false} LastMaskIsWanted(p: Poller, before: seq<Functor>, mask: Mask, after: seq<Functor>, e: nat)
    requires forall i :: 0 <= i < |after| ==> !(after[i].SetMask? && after[i].e == e)
    ensures Wanted(ExecuteAll(p, before + ([SetMask(e, mask)] + after)), e) == mask
  {
    ExecuteAllConcat(p, before, [SetMask(e, mask)] + after);
    assert ([SetMask(e, mask)] + after)[1..] == after;
    WantedStays(Execute(ExecuteAll(p, before), SetMask(e, mask)), after, e);
  }

  lemma {:induction false} WantedStays(p: Poller, fs: seq<Functor>, e: nat)
    requires forall i :: 0 <= i < |fs| ==> !(fs[i].SetMask? && fs[i].e == e)
    ensures Wanted(ExecuteAll(p, fs), e) == Wanted(p, e)
    decreases |fs|
  {
    if fs != [] {
      WantedStays(Execute(p, fs[0]), fs[1..], e);
    }
  }

  // -------- the hand-off protocol --------

  /** The kernel has the mask that the event wants, if it polls the event at all. */
  ghost predicate MaskApplied(p: Poller, e: nat) {
    e in p.registered ==> p.registered[e] == Wanted(p, e)
  }

  /** Events whose mask was changed after the last modify request for them. */
  function Changed(before: set<nat>, f: Functor): set<nat> {
    match f
    case SetMask(e, _) => before + {e}
    case ModifyEvent(e) => before - {e}
    case _ => before
  }

  lemma ExecuteKeepsMask(p: Poller, f: Functor, e: nat)
    ensures f == ModifyEvent(e) ==> MaskApplied(Execute(p, f), e)
    ensures MaskApplied(p, e) && !(f.SetMask? && f.e == e) ==> MaskApplied(Execute(p, f), e)
  {
  }

  /**
   * Where the loop thread is: blocked in or about to enter the poll, handling events, or draining with the lock held.
   */
  datatype Pc = AtPoll | Dispatching(wakeup: bool) | Draining(k: nat)

  /**
   * `between` holds the foreign threads that have pushed and not yet written the eventfd. History: `pushed` lists the
   * functors in the order in which they were queued, `drained` those of them that ran, `executed` everything that was
   * done to the poller, and `changed` the events whose mask was changed without a modify request since.
   */
  datatype State = State(
    pending: seq<Functor>, eventfd: nat, between: set<nat>, pc: Pc, poller: Poller,
    pushed: seq<Functor>, drained: seq<Functor>, executed: seq<Functor>, changed: set<nat>)

  datatype Action =
    | Push(t: nat, f: Functor)
    | WriteEventfd(t: nat)
    | Poll(wakeup: bool)
    | HandleWakeup
    | LoopPush(f: Functor)
    | Direct(f: Functor)
    | EnableMask(e: nat, mask: Mask)
    | Lock
    | RunNext
    | Unlock

  /**
   * A foreign push needs the lock. The poll reports the eventfd only when its counter is positive, and may leave it
   * out. Functors run by the drain do not themselves push. Any thread may change an event's mask at any time.
   */
  predicate Enabled(s: State, a: Action) {
    match a
    case Push(t, f) => t !in s.between && !s.pc.Draining? && !f.SetMask?
    case WriteEventfd(t) => t in s.between
    case Poll(wakeup) => s.pc.AtPoll? && (wakeup ==> s.eventfd > 0)
    case HandleWakeup => s.pc == Dispatching(true)
    case LoopPush(f) => s.pc.Dispatching? && !f.SetMask?
    case Direct(f) => s.pc.Dispatching? && !f.SetMask?
    case EnableMask(_, _) => true
    case Lock => s.pc == Dispatching(false)
    case RunNext => s.pc.Draining? && s.pc.k < |s.pending|
    case Unlock => s.pc.Draining? && s.pc.k >= |s.pending|
  }

  function Apply(s: State, a: Action): State
    requires Enabled(s, a)
  {
    match a
    case Push(t, f) => Queued(s, f).(between := s.between + {t})
    case WriteEventfd(t) => s.(eventfd := s.eventfd + 1, between := s.between - {t})
    case Poll(wakeup) => s.(pc := Dispatching(wakeup))
    case HandleWakeup => s.(eventfd := 0, pc := Dispatching(false))
    case LoopPush(f) => Queued(s, f)
    case Direct(f) => Executed(s, f).(changed := Changed(s.changed, f))
    case EnableMask(e, mask) => Executed(s, SetMask(e, mask)).(changed := Changed(s.changed, SetMask(e, mask)))
    case Lock => s.(pc := Draining(0))
    case RunNext =>
      var f := s.pending[s.pc.k];
      Executed(s, f).(drained := s.drained + [f], pc := Draining(s.pc.k + 1))
    case Unlock => s.(pending := [], pc := AtPoll)
  }

  function Queued(s: State, f: Functor): State {
    s.(pending := s.pending + [f], pushed := s.pushed + [f], changed := Changed(s.changed, f))
  }

  function Executed(s: State, f: Functor): State {
    s.(poller := Execute(s.poller, f), executed := s.executed + [f])
  }

  function Initial(wanted: map<nat, Mask>): State {
    State([], 0, {}, AtPoll, Poller(map[], {}, wanted), [], [], [], {})
  }

  /**
   * Work is waiting while the loop is at its poll only if the poll will be woken, or a thread is about to see to it.
   */
  ghost predicate NoLostWakeup(s: State) {
    s.pc.AtPoll? && s.pending != [] ==> s.eventfd > 0 || s.between != {}
  }

  /** Every pushed functor has run or is still queued, once and in order. */
  ghost predicate OnceInOrder(s: State) {
    match s.pc
    case Draining(k) => k <= |s.pending| && s.pushed == s.drained + s.pending[k..]
    case _ => s.pushed == s.drained + s.pending
  }

  /** The queued functors that have not run yet. */
  function Remaining(s: State): seq<Functor> {
    if s.pc.Draining? && s.pc.k <= |s.pending| then s.pending[s.pc.k..] else s.pending
  }

  /** A mask the kernel does not have yet is one for which the request is queued or still to be made. */
  ghost predicate NoLostMask(s: State) {
    && (forall e :: e in s.poller.registered ==>
          MaskApplied(s.poller, e) || e in s.changed || ModifyEvent(e) in Remaining(s))
    && (forall f :: f in Remaining(s) ==> !f.SetMask?)
  }

  ghost predicate Inv(s: State, start: Poller) {
    && NoLostWakeup(s) && OnceInOrder(s) && NoLostMask(s)
    && s.poller == ExecuteAll(start, s.executed)
  }

  lemma StepKeepsOrder(s: State, a: Action)
    requires OnceInOrder(s) && Enabled(s, a)
    ensures OnceInOrder(Apply(s, a))
  {
    match a
    case Push(_, f) => ConcatAssociates(s.drained, s.pending, [f]);
    case LoopPush(f) => ConcatAssociates(s.drained, s.pending, [f]);
    case RunNext =>
      var f := s.pending[s.pc.k];
      assert s.pending[s.pc.k..] == [f] + s.pending[s.pc.k + 1..];
      ConcatAssociates(s.drained, [f], s.pending[s.pc.k + 1..]);
    case _ =>
  }

  lemma StepKeepsMasks(s: State, a: Action)
    requires OnceInOrder(s) && NoLostMask(s) && Enabled(s, a)
    ensures NoLostMask(Apply(s, a))
  {
    match a
    case Push(_, f) => QueueingKeepsMasks(s, f);
    case LoopPush(f) => QueueingKeepsMasks(s, f);
    case Direct(f) => RunningKeepsMasks(s, f);
    case EnableMask(e, mask) => RunningKeepsMasks(s, SetMask(e, mask));
    case RunNext => DrainingKeepsMasks(s);
    case Lock => assert s.pending[0..] == s.pending;
    case Unlock => assert Remaining(s) == [];
    case _ =>
  }

  lemma QueueingKeepsMasks(s: State, f: Functor)
    requires NoLostMask(s) && !s.pc.Draining? && !f.SetMask?
    ensures NoLostMask(Queued(s, f))
  {
    assert Remaining(Queued(s, f)) == Remaining(s) + [f];
  }

  lemma RunningKeepsMasks(s: State, f: Functor)
    requires NoLostMask(s)
    ensures NoLostMask(Executed(s, f).(changed := Changed(s.changed, f)))
  {
    forall e
      ensures f == ModifyEvent(e) ==> MaskApplied(Execute(s.poller, f), e)
      ensures MaskApplied(s.poller, e) && !(f.SetMask? && f.e == e) ==> MaskApplied(Execute(s.poller, f), e)
    {
      ExecuteKeepsMask(s.poller, f, e);
    }
  }

  lemma DrainingKeepsMasks(s: State)
    requires NoLostMask(s) && s.pc.Draining? && s.pc.k < |s.pending|
    ensures NoLostMask(Apply(s, RunNext))
  {
    var f := s.pending[s.pc.k];
    assert Remaining(s) == [f] + s.pending[s.pc.k + 1..];
    forall e
      ensures f == ModifyEvent(e) ==> MaskApplied(Execute(s.poller, f), e)
      ensures MaskApplied(s.poller, e) ==> MaskApplied(Execute(s.poller, f), e)
    {
      assert f in Remaining(s);
      ExecuteKeepsMask(s.poller, f, e);
    }
  }

  lemma StepKeepsInv(s: State, start: Poller, a: Action)
    requires Inv(s, start) && Enabled(s, a)
    ensures Inv(Apply(s, a), start)
  {
    StepKeepsOrder(s, a);
    StepKeepsMasks(s, a);
    match a
    case Push(t, _) => assert t in Apply(s, a).between;
    case Direct(f) => ExecutedOneMore(s, start, f);
    case EnableMask(e, mask) => ExecutedOneMore(s, start, SetMask(e, mask));
    case RunNext => ExecutedOneMore(s, start, s.pending[s.pc.k]);
    case _ =>
  }

  lemma ExecutedOneMore(s: State, start: Poller, f: Functor)
    requires s.poller == ExecuteAll(start, s.executed)
    ensures Execute(s.poller, f) == ExecuteAll(start, s.executed + [f])
  {
    ExecuteAllConcat(start, s.executed, [f]);
    assert [f][1..] == [];
  }

  predicate Runnable(s: State, acts: seq<Action>)
    decreases |acts|
  {
    acts == [] || (Enabled(s, acts[0]) && Runnable(Apply(s, acts[0]), acts[1..]))
  }

  function Run(s: State, acts: seq<Action>): State
    requires Runnable(s, acts)
    decreases |acts|
  {
    if acts == [] then s else Run(Apply(s, acts[0]), acts[1..])
  }

  lemma {:induction false} RunKeepsInv(s: State, start: Poller, acts: seq<Action>)
    requires Inv(s, start) && Runnable(s, acts)
    ensures Inv(Run(s, acts), start)
    decreases |acts|
  {
    if acts != [] {
      StepKeepsInv(s, start, acts[0]);
      RunKeepsInv(Apply(s, acts[0]), start, acts[1..]);
    }
  }

  /**
   * Main result, for every interleaving of any number of foreign threads and the loop: no wakeup is lost; the functors
   * drained so far are a prefix of those pushed, so each runs once and in push order; after every request, direct or
   * deferred, the kernel's interest list is the set of events marked as polling, and it has the mask each of them wants
   * unless a modify request for it is queued or still to be made.
   */
  lemma HandOffIsCorrect(wanted: map<nat, Mask>, acts: seq<Action>)
    requires Runnable(Initial(wanted), acts)
    ensures var s := Run(Initial(wanted), acts);
            && NoLostWakeup(s)
            && s.drained <= s.pushed
            && (!s.pc.Draining? ==> s.pushed == s.drained + s.pending)
            && InSync(s.poller)
            && NoLostMask(s)
  {
    var start := Initial(wanted).poller;
    RunKeepsInv(Initial(wanted), start, acts);
    ExecuteAllKeepsSync(start, Run(Initial(wanted), acts).executed);
  }

  /**
   * When a drain releases its lock, everything pushed before has run, and the kernel has the wanted mask of every
   * polled event whose last mask change was followed by a modify request.
   */
  lemma DrainLeavesNothing(wanted: map<nat, Mask>, acts: seq<Action>)
    requires Runnable(Initial(wanted), acts) && Enabled(Run(Initial(wanted), acts), Unlock)
    ensures var s := Apply(Run(Initial(wanted), acts), Unlock);
            && s.pending == [] && s.drained == s.pushed
            && forall e :: e in s.poller.polling && e !in s.changed ==>
                 e in s.poller.registered && s.poller.registered[e] == Wanted(s.poller, e)
  {
    HandOffIsCorrect(wanted, acts);
    RunKeepsInv(Initial(wanted), Initial(wanted).poller, acts);
    assert Remaining(Run(Initial(wanted), acts)) == [];
  }

  /** The ways in which a modify request is made: queued by any thread, or run at once by the loop thread. */
  predicate Asks(a: Action, e: nat) {
    (a.Push? || a.LoopPush? || a.Direct?) && a.f == ModifyEvent(e)
  }

  lemma {:induction false} StaysSettled(s: State, acts: seq<Action>, e: nat)
    requires Runnable(s, acts) && e !in s.changed
    requires forall i :: 0 <= i < |acts| ==> !(acts[i].EnableMask? && acts[i].e == e)
    ensures e !in Run(s, acts).changed
    decreases |acts|
  {
    if acts != [] {
      StaysSettled(Apply(s, acts[0]), acts[1..], e);
    }
  }

  /**
   * A mask that was asked for arrives: if its event is not changed after the modify request, the kernel has it at the
   * end of the next drain, as long as the event is polled at all.
   */
  lemma RequestedMaskArrives(wanted: map<nat, Mask>, before: seq<Action>, a: Action, after: seq<Action>, e: nat)
    requires Runnable(Initial(wanted), before) && Asks(a, e) && Enabled(Run(Initial(wanted), before), a)
    requires Runnable(Apply(Run(Initial(wanted), before), a), after)
    requires forall i :: 0 <= i < |after| ==> !(after[i].EnableMask? && after[i].e == e)
    requires Enabled(Run(Apply(Run(Initial(wanted), before), a), after), Unlock)
    ensures var p := Apply(Run(Apply(Run(Initial(wanted), before), a), after), Unlock).poller;
            e in p.polling ==> e in p.registered && p.registered[e] == Wanted(p, e)
  {
    var start, s := Initial(wanted).poller, Run(Initial(wanted), before);
    RunKeepsInv(Initial(wanted), start, before);
    StepKeepsInv(s, start, a);
    RunKeepsInv(Apply(s, a), start, after);
    StaysSettled(Apply(s, a), after, e);
    EndOfDrain(Run(Apply(s, a), after), start, e);
  }

  lemma EndOfDrain(s: State, start: Poller, e: nat)
    requires Inv(s, start) && InSync(start) && Enabled(s, Unlock) && e !in s.changed
    ensures e in s.poller.polling ==> e in s.poller.registered && MaskApplied(s.poller, e)
  {
    ExecuteAllKeepsSync(start, s.executed);
    assert Remaining(s) == [];
  }

  // -------- wakeups and progress --------

  /** The eventfd's counter: the writes since the loop last read it. */
  function Count(acts: seq<Action>, before: nat): nat {
    if acts == [] then before
    else Count(acts[1..], if acts[0].WriteEventfd? then before + 1 else if acts[0].HandleWakeup? then 0 else before)
  }

  /** Whether the thread's last action was a push. */
  function JustPushed(acts: seq<Action>, t: nat, before: bool): bool {
    if acts == [] then before
    else JustPushed(acts[1..], t, match acts[0]
                                  case Push(u, _) => u == t || before
                                  case WriteEventfd(u) => u != t && before
                                  case _ => before)
  }

  /** Every push is followed by one write of the eventfd, and every write is counted until the loop reads it. */
  lemma {:induction false} WritesAreCounted(s: State, acts: seq<Action>, t: nat)
    requires Runnable(s, acts)
    ensures Run(s, acts).eventfd == Count(acts, s.eventfd)
    ensures t in Run(s, acts).between <==> JustPushed(acts, t, t in s.between)
    decreases |acts|
  {
    if acts != [] {
      WritesAreCounted(Apply(s, acts[0]), acts[1..], t);
    }
  }

  /** What happens without new work: pending writes of the eventfd, a poll that reports it, and the loop's own steps. */
  predicate GoesOn(a: Action) {
    a.WriteEventfd? || a == Poll(true) || a.HandleWakeup? || a.Lock? || a.RunNext? || a.Unlock?
  }

  lemma OneMore(s: State, a: Action, rest: seq<Action>)
    requires Enabled(s, a) && GoesOn(a) && Runnable(Apply(s, a), rest)
    requires forall i :: 0 <= i < |rest| ==> GoesOn(rest[i])
    ensures Runnable(s, [a] + rest) && Run(s, [a] + rest) == Run(Apply(s, a), rest)
    ensures forall i :: 0 <= i < |rest| + 1 ==> GoesOn(([a] + rest)[i])
  {
    assert ([a] + rest)[1..] == rest;
  }

  /** The step the loop takes next when there is work for it. */
  function NextStep(s: State): Action {
    match s.pc
    case AtPoll => Poll(true)
    case Dispatching(wakeup) => if wakeup then HandleWakeup else Lock
    case Draining(k) => if k < |s.pending| then RunNext else Unlock
  }

  /** From every state of every run the loop comes to run everything pushed so far, woken by the eventfd alone. */
  lemma {:induction false} WorkGetsDone(s: State, start: Poller) returns (acts: seq<Action>)
    requires Inv(s, start)
    ensures Runnable(s, acts) && forall i :: 0 <= i < |acts| ==> GoesOn(acts[i])
    ensures var s' := Run(s, acts); s'.pc.AtPoll? && s'.pending == [] && s'.drained == s'.pushed == s.pushed
    decreases match s.pc
              case AtPoll => if s.pending == [] then 0 else |s.pending| + (if s.eventfd > 0 then 5 else 6)
              case Dispatching(wakeup) => |s.pending| + (if wakeup then 4 else 3)
              case Draining(k) => |s.pending| - k + 1
  {
    acts := [];
    if s.pc.AtPoll? && s.pending == [] {
      assert s.drained + [] == s.drained;
    } else {
      var a := NextStep(s);
      if s.pc.AtPoll? && s.eventfd == 0 {
        var t :| t in s.between;
        a := WriteEventfd(t);
      }
      StepKeepsInv(s, start, a);
      var rest := WorkGetsDone(Apply(s, a), start);
      OneMore(s, a, rest);
      acts := [a] + rest;
    }
  }

  // -------- the class --------

  class EventLoop {
    var pending: seq<Functor>
    var eventfd: nat
    var poller: Poller
    /** History: every functor that ran. */
    ghost var executed: seq<Functor>

    constructor (wanted: map<nat, Mask>)
      ensures Valid() && pending == [] && eventfd == 0 && executed == [] && poller == Poller(map[], {}, wanted)
    {
      pending, eventfd, executed := [], 0, [];
      poller := Poller(map[], {}, wanted);
    }

    /** Kernel and flags agree, and a queued functor has raised the eventfd. */
    ghost predicate Valid()
      reads this
    {
      InSync(poller) && (pending != [] ==> eventfd > 0)
    }

    /** `enableRead` and `enableWrite`: the event's own mask, which the kernel learns of with the next request. */
    method SetEventMask(e: nat, mask: Mask)
      modifies this`poller, this`executed
      ensures poller == Execute(old(poller), SetMask(e, mask)) && executed == old(executed) + [SetMask(e, mask)]
      ensures poller.registered == old(poller).registered && Wanted(poller, e) == mask
      ensures old(Valid()) ==> Valid()
    {
      poller := poller.(wanted := poller.wanted[e := mask]);
      executed := executed + [SetMask(e, mask)];
    }

    /**
     * `runInLoop`, and with it every request: run here when this is the loop thread, otherwise queue it and wake the
     * loop.
     */
    method RunInLoop(inLoop: bool, f: Functor)
      modifies this
      ensures inLoop ==> poller == Execute(old(poller), f) && executed == old(executed) + [f]
                         && pending == old(pending) && eventfd == old(eventfd)
      ensures forall x :: !inLoop || !Concerns(f, x) ==> SameFor(poller, old(poller), x)
      ensures !inLoop ==> pending == old(pending) + [f] && eventfd == old(eventfd) + 1
                          && poller == old(poller) && executed == old(executed)
      ensures old(Valid()) ==> Valid()
    {
      if !inLoop {
        pending := pending + [f];
        eventfd := eventfd + 1;
      } else {
        ExecuteKeepsSync(poller, f);
        forall x | !Concerns(f, x)
          ensures SameFor(Execute(poller, f), poller, x)
        {
          OthersAreLeftAlone(poller, f, x);
        }
        poller := Execute(poller, f);
        executed := executed + [f];
      }
    }

    method Add(inLoop: bool, e: nat)
      requires Valid() && e !in poller.polling
      modifies this
      ensures Valid() && forall x :: x != e ==> SameFor(poller, old(poller), x)
      ensures inLoop ==> && poller == Execute(old(poller), AddEvent(e)) && pending == old(pending)
                         && e in poller.polling && e in poller.registered && MaskApplied(poller, e)
      ensures !inLoop ==> pending == old(pending) + [AddEvent(e)] && eventfd > 0 && poller == old(poller)
    {
      RunInLoop(inLoop, AddEvent(e));
    }

    method Modify(inLoop: bool, e: nat)
      requires Valid() && e in poller.polling
      modifies this
      ensures Valid() && forall x :: x != e ==> SameFor(poller, old(poller), x)
      ensures inLoop ==> && poller == Execute(old(poller), ModifyEvent(e)) && pending == old(pending)
                         && poller.polling == old(poller).polling
                         && e in poller.registered && MaskApplied(poller, e)
      ensures !inLoop ==> pending == old(pending) + [ModifyEvent(e)] && eventfd > 0 && poller == old(poller)
    {
      RunInLoop(inLoop, ModifyEvent(e));
    }

    method Remove(inLoop: bool, e: nat)
      requires Valid()
      modifies this
      ensures Valid() && forall x :: x != e ==> SameFor(poller, old(poller), x)
      ensures inLoop ==> && poller == Execute(old(poller), RemoveEvent(e)) && pending == old(pending)
                         && e !in poller.polling && e !in poller.registered
      ensures !inLoop ==> pending == old(pending) + [RemoveEvent(e)] && eventfd > 0 && poller == old(poller)
    {
      RunInLoop(inLoop, RemoveEvent(e));
    }

    /** Reading the eventfd takes its whole count. */
    method HandleWakeup() returns (count: nat)
      modifies this`eventfd
      ensures count + eventfd == old(eventfd) && eventfd == 0
    {
      count, eventfd := eventfd, 0;
    }

    /**
     * One turn of `loop` after its poll: the eventfd if it was reported, the requests `direct` that the callbacks of
     * the other events make in the loop thread, then the queue. Nothing that was queued is left, everything ran once,
     * the queued functors behind the direct ones, and a new turn is only needed for what is queued from now on.
     */
    method Turn(wakeup: bool, direct: seq<Functor>)
      requires Valid() && (wakeup ==> eventfd > 0)
      modifies this
      ensures Valid() && pending == [] && eventfd == (if wakeup then 0 else old(eventfd))
      ensures executed == old(executed) + direct + old(pending)
      ensures poller == ExecuteAll(old(poller), direct + old(pending))
    {
      if wakeup {
        var _ := HandleWakeup();
      }
      for k := 0 to |direct|
        invariant InSync(poller) && pending == old(pending) && eventfd == (if wakeup then 0 else old(eventfd))
        invariant executed == old(executed) + direct[..k] && poller == ExecuteAll(old(poller), direct[..k])
      {
        assert direct[..k + 1] == direct[..k] + [direct[k]] && [direct[k]][1..] == [];
        ExecuteAllConcat(old(poller), direct[..k], [direct[k]]);
        ExecuteAllKeepsSync(old(poller), direct[..k + 1]);
        RunInLoop(true, direct[k]);
      }
      assert direct[..|direct|] == direct;
      ExecuteAllConcat(old(poller), direct, pending);
      ExecuteAllKeepsSync(poller, pending);
      DoPending();
    }

    /** Runs the queued functors in order and empties the queue. */
    method DoPending()
      modifies this`pending, this`poller, this`executed
      ensures pending == [] && executed == old(executed) + old(pending)
      ensures poller == ExecuteAll(old(poller), old(pending))
    {
      for k := 0 to |pending|
        invariant pending == old(pending)
        invariant executed == old(executed) + pending[..k]
        invariant ExecuteAll(old(poller), pending) == ExecuteAll(poller, pending[k..])
      {
        assert pending[k..][0] == pending[k] && pending[k..][1..] == pending[k + 1..];
        assert pending[..k + 1] == pending[..k] + [pending[k]];
        poller := Execute(poller, pending[k]);
        executed := executed + [pending[k]];
      }
      assert pending[..|pending|] == pending;
      pending := [];
    }
  }

  /** Deferring requests to the loop thread and draining once is the same as running them there directly. */
  method DeferredEqualsDirect(deferred: EventLoop, direct: EventLoop, fs: seq<Functor>)
    requires deferred != direct && deferred.pending == direct.pending == [] && deferred.poller == direct.poller
    modifies deferred, direct
    ensures deferred.poller == direct.poller == ExecuteAll(old(direct.poller), fs)
    ensures deferred.pending == direct.pending == []
  {
    for k := 0 to |fs|
      invariant deferred.pending == fs[..k] && direct.pending == []
      invariant deferred.poller == old(deferred.poller)
      invariant direct.poller == ExecuteAll(old(direct.poller), fs[..k])
    {
      ExecuteAllConcat(old(direct.poller), fs[..k], [fs[k]]);
      assert [fs[k]][1..] == [] && fs[..k + 1] == fs[..k] + [fs[k]];
      deferred.RunInLoop(false, fs[k]);
      direct.RunInLoop(true, fs[k]);
    }
    assert fs[..|fs|] == fs;
    deferred.DoPending();
  }
}
