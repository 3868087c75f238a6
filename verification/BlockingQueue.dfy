/**
 * The condition-variable protocol of the blocking queue (src/BlockingQueue.cpp): producers push and notify one waiter
 * under the lock; consumers wait in a loop while the queue is empty. Wake-ups may be spurious, and consumers that never
 * slept may take an item first.
 */
module BlockingQueues {
  import opened Common

  /** Who holds the mutex: a producer before its push, between push and notify, or after it; a consumer at its test. */
  datatype Holder<T> = Free | Putting(item: T) | Pushed | Notified | Taking(c: nat)

  /**
   * `sleeping` consumers wait for the condition; `woken` ones were released from it and have not reacquired the mutex.
   * History: `put` and `taken` list the items in the order in which they entered and left.
   */
  datatype State<T> = State(
    queue: seq<T>, holder: Holder<T>, sleeping: set<nat>, woken: set<nat>, put: seq<T>, taken: seq<T>)

  datatype Action<T> =
    | LockToPut(item: T)
    | PushBack
    | NotifyOne(c: nat)
    | NotifyNobody
    | UnlockAfterPut
    | LockToTake(c: nat)
    | Reacquire(c: nat)
    | Wait
    | PopFront
    | SpuriousWakeup(c: nat)

  predicate Enabled<T>(s: State<T>, a: Action<T>) {
    match a
    case LockToPut(_) => s.holder.Free?
    case PushBack => s.holder.Putting?
    case NotifyOne(c) => s.holder.Pushed? && c in s.sleeping
    case NotifyNobody => s.holder.Pushed? && |s.sleeping| == 0
    case UnlockAfterPut => s.holder.Notified?
    case LockToTake(c) => s.holder.Free? && c !in s.sleeping && c !in s.woken
    case Reacquire(c) => s.holder.Free? && c in s.woken
    case Wait => s.holder.Taking? && |s.queue| == 0
    case PopFront => s.holder.Taking? && |s.queue| > 0
    case SpuriousWakeup(c) => c in s.sleeping
  }

  function Wake<T>(s: State<T>, c: nat): State<T> {
    s.(sleeping := s.sleeping - {c}, woken := s.woken + {c})
  }

  function Apply<T>(s: State<T>, a: Action<T>): State<T>
    requires Enabled(s, a)
  {
    match a
    case LockToPut(item) => s.(holder := Putting(item))
    case PushBack => s.(queue := s.queue + [s.holder.item], put := s.put + [s.holder.item], holder := Pushed)
    case NotifyOne(c) => Wake(s, c).(holder := Notified)
    case NotifyNobody => s.(holder := Notified)
    case UnlockAfterPut => s.(holder := Free)
    case LockToTake(c) => s.(holder := Taking(c))
    case Reacquire(c) => s.(holder := Taking(c), woken := s.woken - {c})
    case Wait => s.(holder := Free, sleeping := s.sleeping + {s.holder.c})
    case PopFront => s.(holder := Free, taken := s.taken + [s.queue[0]], queue := s.queue[1..])
    case SpuriousWakeup(c) => Wake(s, c)
  }

  function Initial<T>(): State<T> {
    State([], Free, {}, {}, [], [])
  }

  /** One while a pushed item is still to be notified or a consumer holds the mutex at its test, else none. */
  function InHand<T>(s: State<T>): nat {
    if s.holder.Pushed? || s.holder.Taking? then 1 else 0
  }

  ghost predicate Inv<T>(s: State<T>) {
    && s.sleeping !! s.woken
    && (s.holder.Taking? ==> s.holder.c !in s.sleeping && s.holder.c !in s.woken)
    && (s.sleeping != {} ==> |s.queue| <= |s.woken| + InHand(s))
    && s.put == s.taken + s.queue
  }

  lemma StepKeepsInv<T>(s: State<T>, a: Action<T>)
    requires Inv(s) && Enabled(s, a)
    ensures Inv(Apply(s, a))
  {
    match a
    case PushBack => ConcatAssociates(s.taken, s.queue, [s.holder.item]);
    case NotifyOne(c) => assert |s.woken + {c}| == |s.woken| + 1;
    case SpuriousWakeup(c) => assert |s.woken + {c}| == |s.woken| + 1;
    case Reacquire(c) => assert |s.woken - {c}| == |s.woken| - 1;
    case PopFront =>
      assert s.queue == [s.queue[0]] + s.queue[1..];
      ConcatAssociates(s.taken, [s.queue[0]], s.queue[1..]);
    case _ =>
  }

  predicate Runnable<T>(s: State<T>, acts: seq<Action<T>>)
    decreases |acts|
  {
    acts == [] || (Enabled(s, acts[0]) && Runnable(Apply(s, acts[0]), acts[1..]))
  }

  function Run<T>(s: State<T>, acts: seq<Action<T>>): State<T>
    requires Runnable(s, acts)
    decreases |acts|
  {
    if acts == [] then s else Run(Apply(s, acts[0]), acts[1..])
  }

  lemma {:induction false} RunKeepsInv<T>(s: State<T>, acts: seq<Action<T>>)
    requires Inv(s) && Runnable(s, acts)
    ensures Inv(Run(s, acts))
    decreases |acts|
  {
    if acts != [] {
      StepKeepsInv(s, acts[0]);
      RunKeepsInv(Apply(s, acts[0]), acts[1..]);
    }
  }

  /**
   * Main result, for any number of producers and consumers. While a consumer sleeps, every queued item has a woken
   * consumer of its own on the way to it, except for one item when the mutex is held by a consumer at its test or by a
   * producer about to notify; so nobody sleeps through an item that nobody else will take. Items leave in the order in
   * which they were put, each once.
   */
  lemma NoLostWakeup<T>(acts: seq<Action<T>>)
    requires Runnable(Initial<T>(), acts)
    ensures var s := Run(Initial<T>(), acts);
            && (s.sleeping != {} ==> |s.queue| <= |s.woken| + InHand(s))
            && (s.sleeping != {} && s.holder.Free? && s.queue != [] ==> exists c :: Enabled(s, Reacquire(c)))
            && s.put == s.taken + s.queue
  {
    RunKeepsInv(Initial<T>(), acts);
    var s := Run(Initial<T>(), acts);
    if s.sleeping != {} && s.holder.Free? && s.queue != [] {
      var c :| c in s.woken;
      assert Enabled(s, Reacquire(c));
    }
  }

  /**
   * A consumer that gets the mutex returns with the oldest item, or sleeps because there is none: it never returns
   * empty.
   */
  lemma TakeReturnsOldest<T>(s: State<T>)
    requires Inv(s) && s.holder.Taking?
    ensures Enabled(s, PopFront) <==> s.put != s.taken
    ensures Enabled(s, PopFront) ==> Apply(s, PopFront).taken == s.put[..|s.taken| + 1]
    ensures Enabled(s, Wait) <==> s.put == s.taken
  {
    if s.queue != [] {
      assert s.put[..|s.taken| + 1] == s.taken + [s.queue[0]];
    }
  }

  // -------- where a consumer is --------

  datatype Place = Away | AtTest | Sleeping | Woken

  function PlaceOf<T>(s: State<T>, c: nat): Place {
    if s.holder == Taking(c) then AtTest
    else if c in s.sleeping then Sleeping
    else if c in s.woken then Woken
    else Away
  }

  /** Where an action takes a consumer: its own, or its wake-up. */
  function PlaceAfter<T>(a: Action<T>, c: nat, before: Place): Place {
    match a
    case LockToTake(d) => if d == c then AtTest else before
    case Reacquire(d) => if d == c then AtTest else before
    case Wait => if before.AtTest? then Sleeping else before
    case PopFront => if before.AtTest? then Away else before
    case NotifyOne(d) => if d == c then Woken else before
    case SpuriousWakeup(d) => if d == c then Woken else before
    case _ => before
  }

  function PlaceAtEnd<T>(acts: seq<Action<T>>, c: nat, before: Place): Place {
    if acts == [] then before else PlaceAtEnd(acts[1..], c, PlaceAfter(acts[0], c, before))
  }

  lemma StepMovesConsumer<T>(s: State<T>, a: Action<T>, c: nat)
    requires Inv(s) && Enabled(s, a)
    ensures PlaceOf(Apply(s, a), c) == PlaceAfter(a, c, PlaceOf(s, c))
  {
  }

  /** A consumer sleeps from its wait until it is woken, and holds the mutex only from its test to its pop or wait. */
  lemma {:induction false} ConsumersMove<T>(s: State<T>, acts: seq<Action<T>>, c: nat)
    requires Inv(s) && Runnable(s, acts)
    ensures PlaceOf(Run(s, acts), c) == PlaceAtEnd(acts, c, PlaceOf(s, c))
    decreases |acts|
  {
    if acts != [] {
      StepKeepsInv(s, acts[0]);
      StepMovesConsumer(s, acts[0], c);
      ConsumersMove(Apply(s, acts[0]), acts[1..], c);
    }
  }

  /** Neither a new item nor a consumer that was not waiting. */
  predicate NoNewcomer<T>(a: Action<T>) {
    !a.LockToPut? && !a.LockToTake? && !a.SpuriousWakeup?
  }

  /** The next step on the way of the oldest item to a consumer `c` that waits for it. */
  function NextStep<T>(s: State<T>, c: nat): Action<T> {
    match s.holder
    case Putting(_) => PushBack
    case Pushed => if |s.sleeping| == 0 then NotifyNobody else NotifyOne(c)
    case Notified => UnlockAfterPut
    case Free => Reacquire(c)
    case Taking(_) => PopFront
  }

  lemma ItemMovesOn<T>(s: State<T>) returns (a: Action<T>)
    requires Inv(s) && s.put != s.taken
    requires s.sleeping != {} || s.woken != {} || s.holder.Taking?
    ensures Enabled(s, a) && NoNewcomer(a)
    ensures if s.holder.Taking? then a.PopFront?
            else var s' := Apply(s, a);
                 && s'.taken == s.taken && s'.put[..|s.taken| + 1] == s.put[..|s.taken| + 1]
                 && (s'.sleeping != {} || s'.woken != {} || s'.holder.Taking?)
                 && (match s.holder
                     case Putting(_) => s'.holder.Pushed?
                     case Pushed => s'.holder.Notified?
                     case Notified => s'.holder.Free?
                     case _ => s'.holder.Taking?)
  {
    var c: nat := 0;
    if s.holder.Pushed? && s.sleeping != {} {
      c :| c in s.sleeping;
    } else if s.holder.Free? {
      c :| c in s.woken;
    }
    a := NextStep(s, c);
  }

  /**
   * From every state of every run, an item that is queued while a consumer waits gets to one, through the threads that
   * are already at it: no further item, newcomer or spurious wake-up is needed.
   */
  lemma {:induction false} WaitingConsumerGetsItem<T>(s: State<T>) returns (acts: seq<Action<T>>)
    requires Inv(s) && s.put != s.taken
    requires s.sleeping != {} || s.woken != {} || s.holder.Taking?
    ensures Runnable(s, acts) && forall i :: 0 <= i < |acts| ==> NoNewcomer(acts[i])
    ensures Run(s, acts).taken == s.put[..|s.taken| + 1]
    decreases match s.holder
              case Putting(_) => 4
              case Pushed => 3
              case Notified => 2
              case Free => 1
              case Taking(_) => 0
  {
    var a := ItemMovesOn(s);
    StepKeepsInv(s, a);
    if s.holder.Taking? {
      TakeReturnsOldest(s);
      acts := [a];
      assert acts[1..] == [];
    } else {
      var rest := WaitingConsumerGetsItem(Apply(s, a));
      acts := [a] + rest;
      assert acts[1..] == rest;
    }
  }
}
