/**
 * The write path of a connection (src/net/TCPConnection.cpp:67-134, src/reactor/EventLoop.cpp:130-145): any number of
 * senders append under the write lock, arm EPOLLOUT and ask the loop thread to apply the mask, while the loop thread
 * sends and disarms. Reading and writing the plain field `m_events` are separate steps, so updates can overlap.
 */
module WritePath {
  import opened Common
  import opened Events
  import B = Buffers

  /**
   * Where a sending thread is inside `sendMsg`: not in it; past its append; having read the event mask; having written
   * the mask back with EPOLLOUT. Leaving the last state hands over the modify request.
   */
  datatype Sender = Outside | Appended | SawMask(seen: Mask) | Armed

  /**
   * Where the loop thread is inside `handleWrite`, and it holds the write lock unless it is LoopIdle: about to read the
   * mask, having read it, having written it back without EPOLLOUT.
   */
  datatype Loop = LoopIdle | Disarming | DisarmSaw(seen: Mask) | Disarmed

  /**
   * `requests` counts the queued modify requests of this event. Thread 0 is the loop thread itself, which sends from
   * its message callbacks. History: `accepted` holds the bytes taken into the buffer and `handed` those given to the
   * kernel.
   */
  datatype State = State(
    buf: B.Buffer, events: Mask, kernel: Mask, requests: nat, senders: map<nat, Sender>, loop: Loop,
    accepted: seq<byte>, handed: seq<byte>)

  const LOOP_THREAD: nat := 0

  datatype Action =
    | AppendMsg(t: nat, msg: seq<byte>)
    | ReadMask(t: nat)
    | Arm(t: nat)
    | Request(t: nat)
    | ApplyRequest
    | HandleWrite(result: int)
    | LoopReadMask
    | LoopDisarm
    | LoopApply

  function At(s: State, t: nat): Sender {
    if t in s.senders then s.senders[t] else Outside
  }

  /** The loop thread runs one thing at a time: it does not send while it is inside `handleWrite`. */
  predicate MayRun(s: State, t: nat) {
    t == LOOP_THREAD ==> s.loop.LoopIdle?
  }

  predicate Enabled(s: State, a: Action) {
    match a
    case AppendMsg(t, _) => At(s, t).Outside? && s.loop.LoopIdle?
    case ReadMask(t) => At(s, t).Appended? && MayRun(s, t)
    case Arm(t) => At(s, t).SawMask? && MayRun(s, t)
    case Request(t) => At(s, t).Armed? && MayRun(s, t)
    case ApplyRequest => s.requests > 0 && s.loop.LoopIdle? && At(s, LOOP_THREAD).Outside?
    case HandleWrite(result) => s.loop.LoopIdle? && At(s, LOOP_THREAD).Outside? && result <= |s.buf.data|
    case LoopReadMask => s.loop.Disarming?
    case LoopDisarm => s.loop.DisarmSaw?
    case LoopApply => s.loop.Disarmed?
  }

  /**
   * Whether `handleWrite` goes on to disarm EPOLLOUT, from what was buffered and what the send returned. The written
   * code stays armed only after a partial send; the repaired code whenever something is left to send.
   */
  predicate Disarms(v: Variant, size: nat, result: int) {
    if size == 0 then true
    else if v.AsWritten? then !(0 < result < size)
    else result == size
  }

  function Apply(v: Variant, s: State, a: Action): State
    requires Enabled(s, a)
  {
    match a
    case AppendMsg(t, msg) =>
      var (buf, n) := B.AppendSpec(s.buf, msg);
      s.(buf := buf, accepted := s.accepted + msg[..n], senders := s.senders[t := Appended])
    case ReadMask(t) => s.(senders := s.senders[t := SawMask(s.events)])
    case Arm(t) => s.(events := WithWrite(s.senders[t].seen, true), senders := s.senders[t := Armed])
    case Request(t) =>
      if t == LOOP_THREAD then s.(kernel := s.events, senders := s.senders[t := Outside])
      else s.(requests := s.requests + 1, senders := s.senders[t := Outside])
    case ApplyRequest => s.(kernel := s.events, requests := s.requests - 1)
    case HandleWrite(result) =>
      s.(buf := B.WriteSpec(s.buf, result),
         handed := s.handed + B.Handed(s.buf, B.WriteOut(result)),
         loop := if Disarms(v, |s.buf.data|, result) then Disarming else LoopIdle)
    case LoopReadMask => s.(loop := DisarmSaw(s.events))
    case LoopDisarm => s.(events := WithWrite(s.loop.seen, false), loop := Disarmed)
    case LoopApply => s.(kernel := s.events, loop := LoopIdle)
  }

  function Initial(total: nat): State {
    State(B.Buffer(0, [], total), {In, Pri}, {In, Pri}, 0, map[], LoopIdle, [], [])
  }

  // -------- byte conservation --------

  ghost predicate Conserved(s: State) {
    B.WellFormed(s.buf) && s.accepted == s.handed + s.buf.data
  }

  lemma StepConserves(v: Variant, s: State, a: Action)
    requires Conserved(s) && Enabled(s, a)
    ensures Conserved(Apply(v, s, a))
  {
    if a.AppendMsg? {
      B.StepConserves(s.buf, B.Append(a.msg));
      ConcatAssociates(s.handed, s.buf.data, B.Accepted(s.buf, B.Append(a.msg)));
      assert [] + Apply(v, s, a).buf.data == Apply(v, s, a).buf.data;
    } else if a.HandleWrite? {
      var op := B.WriteOut(a.result);
      B.StepConserves(s.buf, op);
      assert s.buf.data + [] == s.buf.data;
      ConcatAssociates(s.handed, B.Handed(s.buf, op), Apply(v, s, a).buf.data);
    }
  }

  /** What a step does to the buffer, if anything. */
  function BufferOp(a: Action): seq<B.Op> {
    match a
    case AppendMsg(_, msg) => [B.Append(msg)]
    case HandleWrite(result) => [B.WriteOut(result)]
    case _ => []
  }

  function BufferOps(acts: seq<Action>): seq<B.Op> {
    if acts == [] then [] else BufferOp(acts[0]) + BufferOps(acts[1..])
  }

  lemma StepIsBufferStep(v: Variant, s: State, a: Action, rest: seq<B.Op>)
    requires Enabled(s, a) && B.AllPossible(Apply(v, s, a).buf, rest)
    ensures B.AllPossible(s.buf, BufferOp(a) + rest)
    ensures var s1, ops := Apply(v, s, a), BufferOp(a) + rest;
            var (buf, accepted, handed) := B.Run(s1.buf, rest);
            && B.Run(s.buf, ops).0 == buf
            && s.accepted + B.Run(s.buf, ops).1 == s1.accepted + accepted
            && s.handed + B.Run(s.buf, ops).2 == s1.handed + handed
  {
    var (_, accepted, handed) := B.Run(Apply(v, s, a).buf, rest);
    if a.AppendMsg? || a.HandleWrite? {
      var op := BufferOp(a)[0];
      assert ([op] + rest)[1..] == rest;
      ConcatAssociates(s.accepted, B.Accepted(s.buf, op), accepted);
      ConcatAssociates(s.handed, B.Handed(s.buf, op), handed);
      assert s.accepted + [] == s.accepted && s.handed + [] == s.handed;
    } else {
      assert [] + rest == rest;
    }
  }

  /** Behind every run is one of the buffer on its own, with the same bytes accepted and handed over. */
  lemma {:induction false} RunIsBufferRun(v: Variant, s: State, acts: seq<Action>)
    requires Possible(v, s, acts)
    ensures B.AllPossible(s.buf, BufferOps(acts))
    ensures var s', (buf, accepted, handed) := Run(v, s, acts), B.Run(s.buf, BufferOps(acts));
            s'.buf == buf && s'.accepted == s.accepted + accepted && s'.handed == s.handed + handed
    decreases |acts|
  {
    if acts != [] {
      RunIsBufferRun(v, Apply(v, s, acts[0]), acts[1..]);
      StepIsBufferStep(v, s, acts[0], BufferOps(acts[1..]));
    }
  }

  /**
   * A connection never loses room for good. In every run a message is taken up to what was not used since the buffer
   * was last empty, and up to the whole buffer when nothing is held.
   */
  lemma MessageIsTakenAsFarAsItFits(v: Variant, total: nat, acts: seq<Action>, t: nat, msg: seq<byte>)
    requires Possible(v, Initial(total), acts) && Enabled(Run(v, Initial(total), acts), AppendMsg(t, msg))
    ensures B.AllPossible(B.Buffer(0, [], total), BufferOps(acts))
    ensures var s := Run(v, Initial(total), acts);
            var room := total - B.SinceEmpty(B.Buffer(0, [], total), BufferOps(acts), 0);
            && room >= 0 && (s.buf.data == [] ==> room == total)
            && Apply(v, s, AppendMsg(t, msg)).accepted == s.accepted + msg[..Min(|msg|, room)]
            && Apply(v, s, AppendMsg(t, msg)).buf.data == s.buf.data + msg[..Min(|msg|, room)]
  {
    RunIsBufferRun(v, Initial(total), acts);
    B.RoomComesBack(total, BufferOps(acts), msg);
  }

  /** The kernel was handed as many bytes as its answers say. */
  lemma HandedIsWhatWasTaken(v: Variant, total: nat, acts: seq<Action>)
    requires Possible(v, Initial(total), acts)
    ensures |Run(v, Initial(total), acts).handed| == B.Taken(BufferOps(acts))
  {
    RunIsBufferRun(v, Initial(total), acts);
    B.RunHandsWhatIsTaken(B.Buffer(0, [], total), BufferOps(acts));
  }

  // -------- masks, requests and senders over any run --------

  /** Whether the last thread that wrote the mask was a sender. */
  function ArmedLast(acts: seq<Action>, before: bool): bool {
    if acts == [] then before
    else ArmedLast(acts[1..], if acts[0].Arm? then true else if acts[0].LoopDisarm? then false else before)
  }

  /** Reading stays enabled: every mask in use is {In, Pri}, and Out besides. */
  ghost predicate Reads(mask: Mask) {
    mask - {Out} == {In, Pri}
  }

  ghost predicate AllRead(s: State) {
    && Reads(s.events) && Reads(s.kernel) && (s.loop.DisarmSaw? ==> Reads(s.loop.seen))
    && forall t :: t in s.senders && s.senders[t].SawMask? ==> Reads(s.senders[t].seen)
  }

  lemma {:induction false} RunKeepsReading(v: Variant, s: State, acts: seq<Action>)
    requires AllRead(s) && Possible(v, s, acts)
    ensures AllRead(Run(v, s, acts))
    decreases |acts|
  {
    if acts != [] {
      RunKeepsReading(v, Apply(v, s, acts[0]), acts[1..]);
    }
  }

  lemma {:induction false} LastWriterDecides(v: Variant, s: State, acts: seq<Action>)
    requires Possible(v, s, acts)
    ensures Out in Run(v, s, acts).events <==> ArmedLast(acts, Out in s.events)
    decreases |acts|
  {
    if acts != [] {
      LastWriterDecides(v, Apply(v, s, acts[0]), acts[1..]);
    }
  }

  /** The kernel has the event's mask, or somebody is still going to hand it over. */
  ghost predicate KernelFollows(s: State) {
    s.kernel == s.events || s.requests > 0 || SomeoneWillRequest(s) || s.loop.Disarmed?
  }

  lemma StepKeepsKernel(v: Variant, s: State, a: Action)
    requires KernelFollows(s) && Enabled(s, a)
    ensures KernelFollows(Apply(v, s, a))
  {
    var s' := Apply(v, s, a);
    if a.Arm? {
      assert s'.senders[a.t].Armed?;
    } else if SomeoneWillRequest(s) {
      var t :| t in s.senders && s.senders[t].Armed?;
      assert s'.kernel == s'.events || s'.requests > 0 || s'.senders[t].Armed?;
    }
  }

  lemma {:induction false} RunKeepsKernel(v: Variant, s: State, acts: seq<Action>)
    requires KernelFollows(s) && Possible(v, s, acts)
    ensures KernelFollows(Run(v, s, acts))
    decreases |acts|
  {
    if acts != [] {
      StepKeepsKernel(v, s, acts[0]);
      RunKeepsKernel(v, Apply(v, s, acts[0]), acts[1..]);
    }
  }

  /**
   * Both masks over every run: the event's is {In, Pri}, with Out exactly if a sender was the last to write it, and the
   * kernel has the same unless somebody is still going to hand it over.
   */
  lemma MasksFollowLastWriter(v: Variant, total: nat, acts: seq<Action>)
    requires Possible(v, Initial(total), acts)
    ensures var s := Run(v, Initial(total), acts);
            && s.events == (if ArmedLast(acts, false) then {In, Pri, Out} else {In, Pri})
            && (s.kernel == {In, Pri} || s.kernel == {In, Pri, Out})
            && (s.kernel == s.events || s.requests > 0 || SomeoneWillRequest(s) || s.loop.Disarmed?)
  {
    var s := Run(v, Initial(total), acts);
    RunKeepsReading(v, Initial(total), acts);
    LastWriterDecides(v, Initial(total), acts);
    RunKeepsKernel(v, Initial(total), acts);
    OutOrNot(s.events);
    OutOrNot(s.kernel);
  }

  lemma OutOrNot(mask: Mask)
    requires Reads(mask)
    ensures mask == if Out in mask then {In, Pri, Out} else {In, Pri}
  {
    assert mask == mask - {Out} + (if Out in mask then {Out} else {});
  }

  /** How far a thread is in `sendMsg`: 0 outside, then append, read of the mask, write of it. */
  function Progress(x: Sender): nat {
    match x
    case Outside => 0
    case Appended => 1
    case SawMask(_) => 2
    case Armed => 3
  }

  /** The same from the thread's actions: the last one decides. */
  function LastDone(acts: seq<Action>, t: nat, before: nat): nat {
    if acts == [] then before
    else LastDone(acts[1..], t, match acts[0]
                                case AppendMsg(u, _) => if u == t then 1 else before
                                case ReadMask(u) => if u == t then 2 else before
                                case Arm(u) => if u == t then 3 else before
                                case Request(u) => if u == t then 0 else before
                                case _ => before)
  }

  /** What the queue of modify requests gains. */
  function Balance(acts: seq<Action>): int {
    if acts == [] then 0
    else (if acts[0].Request? && acts[0].t != LOOP_THREAD then 1 else if acts[0].ApplyRequest? then -1 else 0)
         + Balance(acts[1..])
  }

  /** Every request of a foreign thread is applied once, and every thread is where its last action left it. */
  lemma {:induction false} RunKeepsCount(v: Variant, s: State, acts: seq<Action>, t: nat)
    requires Possible(v, s, acts)
    ensures var s' := Run(v, s, acts);
            && s'.requests == s.requests + Balance(acts)
            && Progress(At(s', t)) == LastDone(acts, t, Progress(At(s, t)))
    decreases |acts|
  {
    if acts != [] {
      RunKeepsCount(v, Apply(v, s, acts[0]), acts[1..], t);
    }
  }

  // -------- liveness of the write path --------

  /** A sender has appended but not yet armed EPOLLOUT. */
  ghost predicate SomeoneWillArm(s: State) {
    exists t :: t in s.senders && (s.senders[t].Appended? || s.senders[t].SawMask?)
  }

  /** A sender has armed EPOLLOUT but not yet handed over its modify request. */
  ghost predicate SomeoneWillRequest(s: State) {
    exists t :: t in s.senders && s.senders[t].Armed?
  }

  /**
   * Buffered bytes are never forgotten: some sender is still going to arm EPOLLOUT, or the event's mask carries it and
   * is in the kernel, queued in a modify request, or about to be requested by a sender.
   */
  ghost predicate Live(s: State) {
    s.buf.data != [] ==>
      || SomeoneWillArm(s)
      || (Out in s.events && (Out in s.kernel || s.requests > 0 || SomeoneWillRequest(s)))
  }

  /** Disarming only happens with nothing buffered. */
  ghost predicate Inv(s: State) {
    Live(s) && (!s.loop.LoopIdle? ==> s.buf.data == [])
  }

  /** The runs the written code is right for: every send accepts at least one byte. */
  predicate Fair(v: Variant, s: State, a: Action) {
    v.AsWritten? && a.HandleWrite? && s.buf.data != [] ==> a.result > 0
  }

  lemma SenderStepKeepsInv(v: Variant, s: State, a: Action)
    requires Inv(s) && Enabled(s, a) && (a.AppendMsg? || a.ReadMask? || a.Arm? || a.Request?)
    ensures Inv(Apply(v, s, a))
  {
    SenderStepKeepsLive(v, s, a);
  }

  lemma SenderStepKeepsLive(v: Variant, s: State, a: Action)
    requires Live(s) && Enabled(s, a) && (a.AppendMsg? || a.ReadMask? || a.Arm? || a.Request?)
    ensures Live(Apply(v, s, a))
  {
    var s' := Apply(v, s, a);
    assert s'.senders[a.t] == At(s', a.t);
    if s'.buf.data != [] && SomeoneWillArm(s) {
      var t :| t in s.senders && (s.senders[t].Appended? || s.senders[t].SawMask?);
      assert t != a.t ==> s'.senders[t] == s.senders[t];
    }
    if s'.buf.data != [] && SomeoneWillRequest(s) {
      var t :| t in s.senders && s.senders[t].Armed?;
      assert t != a.t ==> s'.senders[t] == s.senders[t];
    }
  }

  lemma LoopStepKeepsInv(v: Variant, s: State, a: Action)
    requires Inv(s) && Enabled(s, a) && Fair(v, s, a) && !(a.AppendMsg? || a.ReadMask? || a.Arm? || a.Request?)
    ensures Inv(Apply(v, s, a))
  {
    assert Apply(v, s, a).senders == s.senders;
  }

  predicate Possible(v: Variant, s: State, acts: seq<Action>)
    decreases |acts|
  {
    acts == [] || (Enabled(s, acts[0]) && Possible(v, Apply(v, s, acts[0]), acts[1..]))
  }

  function Run(v: Variant, s: State, acts: seq<Action>): State
    requires Possible(v, s, acts)
    decreases |acts|
  {
    if acts == [] then s else Run(v, Apply(v, s, acts[0]), acts[1..])
  }

  lemma RunOne(v: Variant, s: State, a: Action)
    requires Enabled(s, a)
    ensures Possible(v, s, [a]) && Run(v, s, [a]) == Apply(v, s, a)
  {
    assert [a][1..] == [];
  }

  predicate AllFair(v: Variant, s: State, acts: seq<Action>)
    requires Possible(v, s, acts)
    decreases |acts|
  {
    acts == [] || (Fair(v, s, acts[0]) && AllFair(v, Apply(v, s, acts[0]), acts[1..]))
  }

  predicate Runnable(v: Variant, s: State, acts: seq<Action>) {
    Possible(v, s, acts) && AllFair(v, s, acts)
  }

  lemma {:induction false} RunKeepsInv(v: Variant, s: State, acts: seq<Action>)
    requires Inv(s) && Conserved(s) && Runnable(v, s, acts)
    ensures Inv(Run(v, s, acts)) && Conserved(Run(v, s, acts))
    decreases |acts|
  {
    if acts != [] {
      var a := acts[0];
      StepConserves(v, s, a);
      if a.AppendMsg? || a.ReadMask? || a.Arm? || a.Request? {
        SenderStepKeepsInv(v, s, a);
      } else {
        LoopStepKeepsInv(v, s, a);
      }
      RunKeepsInv(v, Apply(v, s, a), acts[1..]);
    }
  }

  /**
   * Main result. In every interleaving of senders and loop thread, the bytes accepted are the bytes handed to the
   * kernel followed by the buffered ones, and buffered bytes are never forgotten: for the repaired code whatever the
   * sends return, for the written code while every send accepts at least one byte.
   */
  lemma WritePathIsLive(v: Variant, total: nat, acts: seq<Action>)
    requires Runnable(v, Initial(total), acts)
    ensures var s := Run(v, Initial(total), acts); Live(s) && s.accepted == s.handed + s.buf.data
  {
    RunKeepsInv(v, Initial(total), acts);
  }

  /** Bytes are buffered, EPOLLOUT is in neither mask, and nobody is going to arm it. */
  ghost predicate Stranded(s: State) {
    s.buf.data != [] && s.loop.LoopIdle? && Out !in s.kernel && Out !in s.events && !SomeoneWillArm(s)
  }

  /** Actions without a new message; the poll reports the connection writable only if EPOLLOUT is in the kernel mask. */
  predicate Quiet(v: Variant, s: State, acts: seq<Action>)
    decreases |acts|
  {
    acts == [] || (
      && Enabled(s, acts[0]) && !acts[0].AppendMsg? && (acts[0].HandleWrite? ==> Out in s.kernel)
      && Quiet(v, Apply(v, s, acts[0]), acts[1..]))
  }

  lemma StrandedStep(v: Variant, s: State, a: Action)
    requires Stranded(s) && Enabled(s, a) && !a.AppendMsg? && (a.HandleWrite? ==> Out in s.kernel)
    ensures Stranded(Apply(v, s, a)) && Apply(v, s, a).buf == s.buf
  {
  }

  /** A stranded message is not sent by anything that is still under way: only another message can set it free. */
  lemma {:induction false} StrandedForGood(v: Variant, s: State, acts: seq<Action>)
    requires Stranded(s) && Quiet(v, s, acts)
    ensures Runnable(v, s, acts) && Stranded(Run(v, s, acts)) && Run(v, s, acts).buf == s.buf
    decreases |acts|
  {
    if acts != [] {
      StrandedStep(v, s, acts[0]);
      StrandedForGood(v, Apply(v, s, acts[0]), acts[1..]);
    }
  }

  // -------- one call of `handleWrite` among other threads --------

  /** What other threads can do while the loop thread is inside `handleWrite`: the lock keeps new messages out. */
  predicate SenderSteps(acts: seq<Action>) {
    forall i :: 0 <= i < |acts| ==> acts[i].ReadMask? || acts[i].Arm? || acts[i].Request?
  }

  /** The steps of other threads before the handler reads the mask, between its read and write, and after its write. */
  datatype Overlap = Overlap(before: seq<Action>, during: seq<Action>, after: seq<Action>)

  /** From the send to the write of the mask. */
  predicate CanReachWrite(v: Variant, s: State, result: int, o: Overlap) {
    && Enabled(s, HandleWrite(result)) && SenderSteps(o.before) && SenderSteps(o.during)
    && var s1 := Apply(v, s, HandleWrite(result));
    && Possible(v, s1, o.before) && Enabled(Run(v, s1, o.before), LoopReadMask)
    && Possible(v, Apply(v, Run(v, s1, o.before), LoopReadMask), o.during)
  }

  /** The state in which the handler writes the mask back. */
  function AtWrite(v: Variant, s: State, result: int, o: Overlap): State
    requires CanReachWrite(v, s, result, o)
  {
    Run(v, Apply(v, Run(v, Apply(v, s, HandleWrite(result)), o.before), LoopReadMask), o.during)
  }

  predicate CanReturn(v: Variant, s: State, result: int, o: Overlap) {
    && CanReachWrite(v, s, result, o) && SenderSteps(o.after)
    && var d := AtWrite(v, s, result, o);
    && Enabled(d, LoopDisarm) && Possible(v, Apply(v, d, LoopDisarm), o.after)
    && Enabled(Run(v, Apply(v, d, LoopDisarm), o.after), LoopApply)
  }

  /** The state in which a handler that disarms returns. */
  function AtReturn(v: Variant, s: State, result: int, o: Overlap): State
    requires CanReturn(v, s, result, o)
  {
    Apply(v, Run(v, Apply(v, AtWrite(v, s, result, o), LoopDisarm), o.after), LoopApply)
  }

  lemma {:induction false} SendersLeaveHandler(v: Variant, s: State, acts: seq<Action>)
    requires SenderSteps(acts) && Possible(v, s, acts)
    ensures Run(v, s, acts).loop == s.loop && Run(v, s, acts).buf == s.buf
    decreases |acts|
  {
    if acts != [] {
      SendersLeaveHandler(v, Apply(v, s, acts[0]), acts[1..]);
    }
  }

  /** Some sender has yet to arm EPOLLOUT, or has done so since the handler wrote the mask. */
  ghost predicate ArmedOrWillBe(s: State) {
    SomeoneWillArm(s) || Out in s.events
  }

  lemma SenderStepAfterWrite(v: Variant, s: State, a: Action)
    requires Enabled(s, a) && (a.ReadMask? || a.Arm? || a.Request?)
    ensures ArmedOrWillBe(Apply(v, s, a)) <==> ArmedOrWillBe(s)
  {
    var s' := Apply(v, s, a);
    assert s'.senders[a.t] == At(s', a.t);
    if SomeoneWillArm(s) {
      var t :| t in s.senders && (s.senders[t].Appended? || s.senders[t].SawMask?);
      assert t != a.t ==> s'.senders[t] == s.senders[t];
    }
    if SomeoneWillArm(s') {
      var t :| t in s'.senders && (s'.senders[t].Appended? || s'.senders[t].SawMask?);
      assert t != a.t ==> s.senders[t] == s'.senders[t];
      assert t == a.t ==> s.senders[t].Appended?;
    }
  }

  lemma {:induction false} SendersAfterWrite(v: Variant, s: State, acts: seq<Action>)
    requires SenderSteps(acts) && Possible(v, s, acts)
    ensures ArmedOrWillBe(Run(v, s, acts)) <==> ArmedOrWillBe(s)
    decreases |acts|
  {
    if acts != [] {
      assert SenderSteps(acts[1..]);
      SenderStepAfterWrite(v, s, acts[0]);
      SendersAfterWrite(v, Apply(v, s, acts[0]), acts[1..]);
    }
  }

  /**
   * The exact condition, whatever other threads do meanwhile. A written handler whose send accepted nothing, an error
   * or 0, leaves its bytes stranded exactly when no sender has yet to arm EPOLLOUT at the moment it writes the mask
   * back. One that armed it before that moment does not help, not even after the handler read the mask.
   */
  lemma WrittenHandlerStrandsIff(s: State, result: int, o: Overlap)
    requires s.buf.data != [] && result <= 0 && CanReturn(AsWritten, s, result, o)
    ensures var s', willArm := AtReturn(AsWritten, s, result, o), SomeoneWillArm(AtWrite(AsWritten, s, result, o));
            s'.buf == s.buf && (Live(s') <==> willArm) && (Stranded(s') <==> !willArm)
  {
    var s1 := Apply(AsWritten, s, HandleWrite(result));
    SendersLeaveHandler(AsWritten, s1, o.before);
    SendersLeaveHandler(AsWritten, Apply(AsWritten, Run(AsWritten, s1, o.before), LoopReadMask), o.during);
    var d := AtWrite(AsWritten, s, result, o);
    var written := Apply(AsWritten, d, LoopDisarm);
    assert written.senders == d.senders;
    SendersLeaveHandler(AsWritten, written, o.after);
    SendersAfterWrite(AsWritten, written, o.after);
    var u := Run(AsWritten, written, o.after);
    assert Apply(AsWritten, u, LoopApply).senders == u.senders;
  }

  /** The handler's own state and the buffer, on the way to its return. */
  lemma HandlerOnItsOwn(v: Variant, s: State, result: int, o: Overlap)
    requires CanReturn(v, s, result, o)
    ensures Apply(v, s, HandleWrite(result)).loop.Disarming?
    ensures AtReturn(v, s, result, o).buf == Apply(v, s, HandleWrite(result)).buf
  {
    var s1 := Apply(v, s, HandleWrite(result));
    SendersLeaveHandler(v, s1, o.before);
    SendersLeaveHandler(v, Apply(v, Run(v, s1, o.before), LoopReadMask), o.during);
    SendersLeaveHandler(v, Apply(v, AtWrite(v, s, result, o), LoopDisarm), o.after);
  }

  /**
   * The handler ends with EPOLLOUT in neither mask, exactly when nothing is left to send, or the written code's send
   * accepted nothing. Otherwise it leaves both masks alone.
   */
  lemma HandlerDisarmsIff(v: Variant, s: State, result: int)
    requires Enabled(s, HandleWrite(result))
    ensures var s' := WholeHandleWrite(v, s, result);
            && s'.loop.LoopIdle?
            && s'.buf.data == s.buf.data[Max(0, result)..]
            && if s'.buf.data == [] || (v.AsWritten? && result <= 0)
               then s'.events == s'.kernel == s.events - {Out}
               else s'.events == s.events && s'.kernel == s.kernel
  {
  }

  /** The handler goes on to disarm in just these cases. */
  lemma HandlerGoesOnIff(v: Variant, s: State, result: int)
    requires Enabled(s, HandleWrite(result))
    ensures var s1 := Apply(v, s, HandleWrite(result));
            s1.loop == if s1.buf.data == [] || (v.AsWritten? && result <= 0) then Disarming else LoopIdle
  {
  }

  lemma {:induction false} ArmedLastIffArmed(acts: seq<Action>)
    requires SenderSteps(acts)
    ensures ArmedLast(acts, false) <==> exists i :: 0 <= i < |acts| && acts[i].Arm?
    ensures ArmedLast(acts, true)
    decreases |acts|
  {
    if acts != [] {
      ArmedLastIffArmed(acts[1..]);
      if i :| 0 <= i < |acts[1..]| && acts[1..][i].Arm? {
        assert acts[i + 1].Arm?;
      }
      if i :| 0 <= i < |acts| && acts[i].Arm? {
        assert i > 0 ==> acts[1..][i - 1].Arm?;
      }
    }
  }

  /**
   * With other threads in between: at its return EPOLLOUT is in the masks, and then in both, exactly if a sender armed
   * it after the handler wrote the mask.
   */
  lemma ReturnIsArmedIff(v: Variant, s: State, result: int, o: Overlap)
    requires CanReturn(v, s, result, o)
    ensures var s' := AtReturn(v, s, result, o);
            && s'.kernel == s'.events
            && (Out in s'.events <==> exists i :: 0 <= i < |o.after| && o.after[i].Arm?)
  {
    LastWriterDecides(v, Apply(v, AtWrite(v, s, result, o), LoopDisarm), o.after);
    ArmedLastIffArmed(o.after);
  }

  /** The senders that have yet to arm EPOLLOUT. */
  function YetToArm(s: State): set<nat> {
    set t | t in s.senders && (s.senders[t].Appended? || s.senders[t].SawMask?)
  }

  lemma WillArmIsYetToArm(s: State)
    ensures SomeoneWillArm(s) <==> YetToArm(s) != {}
  {
    if SomeoneWillArm(s) {
      var t :| t in s.senders && (s.senders[t].Appended? || s.senders[t].SawMask?);
      assert t in YetToArm(s);
    }
    if t :| t in YetToArm(s) {
      assert SomeoneWillArm(s);
    }
  }

  /** One sender goes on until it has armed EPOLLOUT. */
  lemma ArmOne(v: Variant, s: State, t: nat) returns (acts: seq<Action>)
    requires t in YetToArm(s) && MayRun(s, t)
    ensures SenderSteps(acts) && Possible(v, s, acts)
    ensures YetToArm(Run(v, s, acts)) == YetToArm(s) - {t}
  {
    if s.senders[t].SawMask? {
      acts := [Arm(t)];
      RunOne(v, s, Arm(t));
    } else {
      acts := [ReadMask(t), Arm(t)];
      assert acts[1..] == [Arm(t)];
      RunOne(v, Apply(v, s, ReadMask(t)), Arm(t));
    }
  }

  /** Nothing keeps all senders from arming EPOLLOUT while the handler is at work. */
  lemma {:induction false} ArmAll(v: Variant, s: State) returns (acts: seq<Action>)
    requires LOOP_THREAD !in YetToArm(s)
    ensures SenderSteps(acts) && Possible(v, s, acts) && YetToArm(Run(v, s, acts)) == {}
    decreases |YetToArm(s)|
  {
    acts := [];
    if t :| t in YetToArm(s) {
      var first := ArmOne(v, s, t);
      var rest := ArmAll(v, Run(v, s, first));
      RunAppended(v, s, first, rest);
      acts := first + rest;
    }
  }

  lemma {:induction false} RunAppended(v: Variant, s: State, a: seq<Action>, b: seq<Action>)
    requires Possible(v, s, a) && Possible(v, Run(v, s, a), b)
    ensures Possible(v, s, a + b) && Run(v, s, a + b) == Run(v, Run(v, s, a), b)
    decreases |a|
  {
    if a == [] {
      assert a + b == b;
    } else {
      RunAppended(v, Apply(v, s, a[0]), a[1..], b);
      ConcatSplits(a, b);
    }
  }

  /** After a send that accepted nothing there is always a way for the bytes to be stranded. */
  lemma SomeOverlapStrands(s: State, result: int) returns (o: Overlap)
    requires Enabled(s, HandleWrite(result)) && s.buf.data != [] && result <= 0
    ensures CanReturn(AsWritten, s, result, o) && Stranded(AtReturn(AsWritten, s, result, o))
  {
    var read := Apply(AsWritten, Apply(AsWritten, s, HandleWrite(result)), LoopReadMask);
    var during := ArmAll(AsWritten, read);
    o := Overlap([], during, []);
    SendersLeaveHandler(AsWritten, read, during);
    var d := AtWrite(AsWritten, s, result, o);
    assert d == Run(AsWritten, read, during);
    WillArmIsYetToArm(d);
    WrittenHandlerStrandsIff(s, result, o);
  }

  /**
   * What can be told from the send alone. The written handler keeps its bytes reachable whatever other threads do
   * meanwhile exactly when its send accepted at least one byte.
   */
  lemma WrittenHandlerIsLiveIff(s: State, result: int)
    requires Enabled(s, HandleWrite(result)) && s.buf.data != []
    ensures (forall o :: CanReturn(AsWritten, s, result, o) ==> Live(AtReturn(AsWritten, s, result, o))) <==> result > 0
  {
    if result > 0 {
      forall o | CanReturn(AsWritten, s, result, o)
        ensures Live(AtReturn(AsWritten, s, result, o))
      {
        HandlerOnItsOwn(AsWritten, s, result, o);
      }
    } else {
      var o := SomeOverlapStrands(s, result);
      assert !Live(AtReturn(AsWritten, s, result, o));
    }
  }

  /** `handleWrite` from its send to its return, with no other thread in between. */
  function WholeHandleWrite(v: Variant, s: State, result: int): State
    requires Enabled(s, HandleWrite(result))
  {
    var s1 := Apply(v, s, HandleWrite(result));
    if s1.loop.LoopIdle? then s1 else
    Apply(v, Apply(v, Apply(v, s1, LoopReadMask), LoopDisarm), LoopApply)
  }

  /**
   * The undisturbed handler: here the condition can be seen before the call. The written code loses sight of buffered
   * bytes exactly when a send accepts nothing and no sender is left that has yet to arm EPOLLOUT.
   */
  lemma WrittenHandleWriteIsLiveIff(s: State, result: int)
    requires Inv(s) && Enabled(s, HandleWrite(result)) && s.buf.data != []
    ensures Live(WholeHandleWrite(AsWritten, s, result)) <==> result > 0 || SomeoneWillArm(s)
    ensures Stranded(WholeHandleWrite(AsWritten, s, result)) <==> result <= 0 && !SomeoneWillArm(s)
  {
    var s' := WholeHandleWrite(AsWritten, s, result);
    assert s'.senders == s.senders;
  }

  /** The repaired code never does. */
  lemma RepairedHandleWriteIsLive(s: State, result: int)
    requires Inv(s) && Enabled(s, HandleWrite(result))
    ensures Live(WholeHandleWrite(Repaired, s, result))
  {
    assert WholeHandleWrite(Repaired, s, result).senders == s.senders;
  }

  /** Whenever the loop thread is outside `handleWrite`, buffered bytes are either reachable or stranded. */
  ghost predicate LiveOrStranded(s: State) {
    s.loop.LoopIdle? ==> Live(s) || Stranded(s)
  }

  lemma StepKeepsLiveOrStranded(v: Variant, s: State, a: Action)
    requires LiveOrStranded(s) && Enabled(s, a)
    ensures LiveOrStranded(Apply(v, s, a))
  {
    if a.AppendMsg? || a.ReadMask? || a.Arm? || a.Request? {
      if s.loop.LoopIdle? {
        if Live(s) {
          SenderStepKeepsLive(v, s, a);
        } else if a.AppendMsg? {
          assert Apply(v, s, a).senders[a.t].Appended?;
        } else {
          StrandedStep(v, s, a);
        }
      }
    } else {
      assert Apply(v, s, a).senders == s.senders;
    }
  }

  lemma {:induction false} RunIsLiveOrStranded(v: Variant, s: State, acts: seq<Action>)
    requires LiveOrStranded(s) && Possible(v, s, acts)
    ensures LiveOrStranded(Run(v, s, acts))
    decreases |acts|
  {
    if acts != [] {
      StepKeepsLiveOrStranded(v, s, acts[0]);
      RunIsLiveOrStranded(v, Apply(v, s, acts[0]), acts[1..]);
    }
  }

  /** In every run of either variant, whatever the sends return, there is no third case. */
  lemma WritePathIsLiveOrStranded(v: Variant, total: nat, acts: seq<Action>)
    requires Possible(v, Initial(total), acts)
    ensures var s := Run(v, Initial(total), acts); s.loop.LoopIdle? ==> Live(s) || Stranded(s)
  {
    RunIsLiveOrStranded(v, Initial(total), acts);
  }

  /** The senders that have yet to read the mask, and those that have yet to hand over their request. */
  function YetToRead(s: State): set<nat> {
    set t | t in s.senders && s.senders[t].Appended?
  }

  function YetToRequest(s: State): set<nat> {
    set t | t in s.senders && s.senders[t].Armed?
  }

  function NextOf(s: State, t: nat): Action {
    match At(s, t)
    case Outside => ReadMask(t)
    case Appended => ReadMask(t)
    case SawMask(_) => Arm(t)
    case Armed => Request(t)
  }

  /** A sender inside `sendMsg` goes on, unless it is the loop thread and busy. */
  lemma SenderGoesOn(v: Variant, s: State, t: nat)
    requires Inv(s) && !At(s, t).Outside? && MayRun(s, t)
    ensures var a := NextOf(s, t);
            && Enabled(s, a) && !a.AppendMsg? && !a.HandleWrite?
            && var s' := Apply(v, s, a);
            && Inv(s') && s'.buf == s.buf && s'.handed == s.handed && s'.loop == s.loop
            && Progress(At(s', t)) == (if At(s, t).Armed? then 0 else Progress(At(s, t)) + 1)
            && (forall u :: u != t ==> At(s', u) == At(s, u))
            && YetToRead(s') == YetToRead(s) - {t}
            && YetToArm(s') == (if At(s, t).SawMask? then YetToArm(s) - {t} else YetToArm(s))
            && (At(s, t).Armed? ==> YetToRequest(s') == YetToRequest(s) - {t})
  {
    SenderStepKeepsInv(v, s, NextOf(s, t));
  }

  /** A step that is not the send itself, at the head of a run that sends. */
  lemma QuietStep(v: Variant, s: State, a: Action, rest: seq<Action>)
    requires Enabled(s, a) && !a.AppendMsg? && (a.HandleWrite? ==> Out in s.kernel)
    requires Quiet(v, Apply(v, s, a), rest) && Possible(v, Apply(v, s, a), rest)
    ensures Quiet(v, s, [a] + rest) && Possible(v, s, [a] + rest)
    ensures Run(v, s, [a] + rest) == Run(v, Apply(v, s, a), rest)
  {
    assert ([a] + rest)[1..] == rest;
  }

  /** How many steps the loop thread's own message is away from its end. */
  function LoopAhead(s: State): nat {
    if At(s, LOOP_THREAD).Outside? then 0 else 4 - Progress(At(s, LOOP_THREAD))
  }

  /** Live bytes are sent by threads that just go on with what they are at, and by the poll: no message is needed. */
  lemma {:induction false} LiveBytesCanBeSent(v: Variant, s: State) returns (acts: seq<Action>)
    requires Inv(s)
    ensures Quiet(v, s, acts) && Possible(v, s, acts)
    ensures Run(v, s, acts).buf.data == [] && Run(v, s, acts).handed == s.handed + s.buf.data
    decreases LoopAhead(s), if Out in s.kernel then 0 else 1, |YetToArm(s)|, |YetToRead(s)|, |YetToRequest(s)|,
              if s.requests > 0 then 0 else 1
  {
    if s.buf.data == [] {
      acts := [];
      assert s.handed + [] == s.handed;
    } else if !At(s, LOOP_THREAD).Outside? {
      SenderGoesOn(v, s, LOOP_THREAD);
      var rest := LiveBytesCanBeSent(v, Apply(v, s, NextOf(s, LOOP_THREAD)));
      QuietStep(v, s, NextOf(s, LOOP_THREAD), rest);
      acts := [NextOf(s, LOOP_THREAD)] + rest;
    } else if Out in s.kernel {
      QuietStep(v, s, HandleWrite(|s.buf.data|), []);
      acts := [HandleWrite(|s.buf.data|)] + [];
    } else if t :| t in YetToArm(s) {
      SenderGoesOn(v, s, t);
      var rest := LiveBytesCanBeSent(v, Apply(v, s, NextOf(s, t)));
      QuietStep(v, s, NextOf(s, t), rest);
      acts := [NextOf(s, t)] + rest;
    } else if s.requests > 0 {
      WillArmIsYetToArm(s);
      LoopStepKeepsInv(v, s, ApplyRequest);
      var rest := LiveBytesCanBeSent(v, Apply(v, s, ApplyRequest));
      QuietStep(v, s, ApplyRequest, rest);
      acts := [ApplyRequest] + rest;
    } else {
      WillArmIsYetToArm(s);
      var t :| t in s.senders && s.senders[t].Armed?;
      SenderGoesOn(v, s, t);
      var rest := LiveBytesCanBeSent(v, Apply(v, s, NextOf(s, t)));
      QuietStep(v, s, NextOf(s, t), rest);
      acts := [NextOf(s, t)] + rest;
    }
  }

  ghost predicate CanBeSent(v: Variant, s: State) {
    exists acts :: Quiet(v, s, acts) && Possible(v, s, acts) && Run(v, s, acts).buf.data == []
  }

  /**
   * Liveness means what it is for. Outside the handler of any run, buffered bytes can reach the kernel without another
   * message exactly if they are live.
   */
  lemma CanBeSentIffLive(v: Variant, total: nat, acts: seq<Action>)
    requires Possible(v, Initial(total), acts)
    requires Run(v, Initial(total), acts).loop.LoopIdle? && Run(v, Initial(total), acts).buf.data != []
    ensures CanBeSent(v, Run(v, Initial(total), acts)) <==> Live(Run(v, Initial(total), acts))
  {
    WritePathIsLiveOrStranded(v, total, acts);
    var s := Run(v, Initial(total), acts);
    if Live(s) {
      var next := LiveBytesCanBeSent(v, s);
    } else if CanBeSent(v, s) {
      var next :| Quiet(v, s, next) && Possible(v, s, next) && Run(v, s, next).buf.data == [];
      StrandedForGood(v, s, next);
    }
  }

  /**
   * A run of two senders. The first goes all the way and its request is applied; the second has appended and read the
   * mask.
   */
  function WitnessAction(k: nat): Action {
    match k
    case 0 => AppendMsg(1, [7])
    case 1 => ReadMask(1)
    case 2 => Arm(1)
    case 3 => Request(1)
    case 4 => ApplyRequest
    case 5 => AppendMsg(2, [8])
    case _ => ReadMask(2)
  }

  function WitnessState(k: nat): State {
    var mask := {In, Pri};
    var sent := State(B.Buffer(0, [7], 16), mask, mask, 0, map[1 := Appended], LoopIdle, [7], []);
    var armed := sent.(senders := map[1 := Outside], events := mask + {Out}, kernel := mask + {Out});
    var second := armed.(buf := B.Buffer(0, [7, 8], 16), accepted := [7, 8]);
    match k
    case 0 => Initial(16)
    case 1 => sent
    case 2 => sent.(senders := map[1 := SawMask(mask)])
    case 3 => sent.(senders := map[1 := Armed], events := mask + {Out})
    case 4 => sent.(senders := map[1 := Outside], events := mask + {Out}, requests := 1)
    case 5 => armed
    case 6 => second.(senders := map[1 := Outside, 2 := Appended])
    case _ => second.(senders := map[1 := Outside, 2 := SawMask(mask + {Out})])
  }

  lemma WitnessStep(k: nat)
    requires k < 7
    ensures var s, a := WitnessState(k), WitnessAction(k);
            Enabled(s, a) && Fair(AsWritten, s, a) && Apply(AsWritten, s, a) == WitnessState(k + 1)
  {
    assert [7][..1] == [7] && [] + [7] == [7];
    assert [8][..1] == [8] && [7] + [8] == [7, 8];
  }

  lemma {:induction false} WitnessRun(k: nat, last: nat) returns (acts: seq<Action>)
    requires k <= last <= 7
    ensures Runnable(AsWritten, WitnessState(k), acts) && Run(AsWritten, WitnessState(k), acts) == WitnessState(last)
    decreases last - k
  {
    if k == last {
      acts := [];
    } else {
      WitnessStep(k);
      var rest := WitnessRun(k + 1, last);
      acts := [WitnessAction(k)] + rest;
      assert acts[1..] == rest;
    }
  }

  /** One message, fully requested and applied, then a send that reports EAGAIN: the message stays behind for good. */
  lemma WrittenCanStrandAMessage() returns (acts: seq<Action>)
    ensures Runnable(AsWritten, Initial(16), acts)
    ensures var s := Run(AsWritten, Initial(16), acts);
            && s.requests == 0 && s.buf.data == [7]
            && Enabled(s, HandleWrite(-1)) && Stranded(WholeHandleWrite(AsWritten, s, -1))
  {
    acts := WitnessRun(0, 5);
    WrittenHandleWriteIsLiveIff(WitnessState(5), -1);
  }

  /** A sender that has armed EPOLLOUT before the failing send does not save the message with its request. */
  lemma ArmedSenderDoesNotHelp(s: State, t: nat, result: int)
    requires Inv(s) && Enabled(s, HandleWrite(result)) && s.buf.data != [] && result <= 0
    requires At(s, t).Armed? && t != LOOP_THREAD && !SomeoneWillArm(s)
    ensures var s' := WholeHandleWrite(AsWritten, s, result);
            var acts := [Request(t), ApplyRequest];
            && Quiet(AsWritten, s', acts) && Runnable(AsWritten, s', acts)
            && Stranded(Run(AsWritten, s', acts))
  {
    var s' := WholeHandleWrite(AsWritten, s, result);
    WrittenHandleWriteIsLiveIff(s, result);
    RequestLeavesStranded(s', t);
  }

  lemma RequestLeavesStranded(s: State, t: nat)
    requires Stranded(s) && At(s, t).Armed? && t != LOOP_THREAD && At(s, LOOP_THREAD).Outside?
    ensures var acts := [Request(t), ApplyRequest];
            Quiet(AsWritten, s, acts) && Runnable(AsWritten, s, acts) && Stranded(Run(AsWritten, s, acts))
  {
    var s1 := Apply(AsWritten, s, Request(t));
    assert Quiet(AsWritten, s1, [ApplyRequest]);
    assert [Request(t), ApplyRequest][1..] == [ApplyRequest];
    StrandedForGood(AsWritten, s, [Request(t), ApplyRequest]);
  }

  /**
   * The other failure: the last sender that has yet to arm EPOLLOUT does so between the handler's read and write of
   * the mask. Its update is overwritten and its request of no use, although the undisturbed handler would have been
   * harmless.
   */
  lemma ArmInsideHandlerIsLost(s: State, t: nat, result: int)
    requires Inv(s) && Enabled(s, HandleWrite(result)) && s.buf.data != [] && result <= 0
    requires At(s, t).SawMask? && t != LOOP_THREAD
    requires forall u :: u in s.senders && u != t ==> !s.senders[u].Appended? && !s.senders[u].SawMask?
    ensures Live(WholeHandleWrite(AsWritten, s, result))
    ensures var o := Overlap([], [Arm(t)], []);
            && CanReturn(AsWritten, s, result, o)
            && var s' := AtReturn(AsWritten, s, result, o);
            var acts := [Request(t), ApplyRequest];
            && s'.buf == s.buf && Stranded(s')
            && Quiet(AsWritten, s', acts) && Runnable(AsWritten, s', acts)
            && Stranded(Run(AsWritten, s', acts))
  {
    WrittenHandleWriteIsLiveIff(s, result);
    var o := Overlap([], [Arm(t)], []);
    var read := Apply(AsWritten, Apply(AsWritten, s, HandleWrite(result)), LoopReadMask);
    RunOne(AsWritten, read, Arm(t));
    assert AtWrite(AsWritten, s, result, o) == Apply(AsWritten, read, Arm(t));
    WrittenHandlerStrandsIff(s, result, o);
    RequestLeavesStranded(AtReturn(AsWritten, s, result, o), t);
  }

  /** A run of the written code that comes to such a state. */
  lemma WrittenCanLoseAnArm() returns (acts: seq<Action>)
    ensures Runnable(AsWritten, Initial(16), acts)
    ensures var s, o := Run(AsWritten, Initial(16), acts), Overlap([], [Arm(2)], []);
            && Inv(s) && s.buf.data == [7, 8] && Out in s.kernel && Enabled(s, HandleWrite(-1))
            && Live(WholeHandleWrite(AsWritten, s, -1))
            && CanReturn(AsWritten, s, -1, o) && Stranded(AtReturn(AsWritten, s, -1, o))
  {
    acts := WitnessRun(0, 7);
    assert WitnessState(7).senders[2].SawMask?;
    ArmInsideHandlerIsLost(WitnessState(7), 2, -1);
  }
}
