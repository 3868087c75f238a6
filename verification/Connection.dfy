/** Dispatching the events of one connection (src/reactor/Event.cpp:27-67, src/net/TCPConnection.cpp:90-160). */
module Connections {
  import opened Common
  import opened Events
  import B = Buffers
  import W = WritePath
  import O = TimerObjects

  /** The callbacks a connection makes: a message with the bytes that arrived, a write, a close. */
  datatype Callback = Message(bytes: seq<byte>) | Writable | Closed

  /**
   * What a dispatch depends on: the reported mask; the bytes a read delivers, or its failure, and whether errno says
   * ECONNRESET after it; the kernel's answer to a write.
   */
  datatype Report = Report(mask: Mask, arrived: seq<byte>, failed: bool, reset: bool, taken: int)

  /** `kernel` is the registered mask, meaningful while `polling`. History: `trace` lists the callbacks made. */
  datatype Conn = Conn(
    events: Mask, kernel: Mask, revents: Mask, polling: bool, open: bool, wbuf: B.Buffer, trace: seq<Callback>)

  // -------- the handlers --------

  /** `handleClose`, also called by `handleError`: it clears the reported mask, so nothing more is dispatched. */
  function OnClose(c: Conn): Conn {
    c.(revents := {}, polling := false, open := false, trace := c.trace + [Closed])
  }

  /** End of stream or a reset closes; anything else, even a failed read, is delivered as a message. */
  predicate ReadCloses(r: Report) {
    (!r.failed && r.arrived == []) || r.reset
  }

  function OnRead(c: Conn, r: Report): Conn {
    if ReadCloses(r) then OnClose(c)
    else c.(trace := c.trace + [Message(if r.failed then [] else r.arrived)])
  }

  function OnWrite(v: Variant, c: Conn, r: Report): Conn {
    var size := |c.wbuf.data|;
    var taken := Min(r.taken, size);
    var events := if W.Disarms(v, size, taken) then WithWrite(c.events, false) else c.events;
    c.(wbuf := B.WriteSpec(c.wbuf, taken), events := events,
       kernel := if W.Disarms(v, size, taken) && c.polling then events else c.kernel,
       trace := c.trace + [Writable])
  }

  // -------- handleEvent --------

  function AfterHup(c: Conn): Conn {
    if Hup in c.revents && In !in c.revents then OnClose(c) else c
  }

  function AfterErr(c: Conn): Conn {
    if Err in c.revents then OnClose(c) else c
  }

  function AfterRdHup(c: Conn): Conn {
    if RdHup in c.revents then OnClose(c) else c
  }

  /** The three tests that can only close. */
  function AfterHangups(c: Conn): Conn {
    AfterRdHup(AfterErr(AfterHup(c)))
  }

  function AfterRead(c: Conn, r: Report): Conn {
    if c.revents * {In, Pri} != {} then OnRead(c, r) else c
  }

  function AfterWrite(v: Variant, c: Conn, r: Report): Conn {
    if Out in c.revents then OnWrite(v, c, r) else c
  }

  function AfterReadiness(v: Variant, c: Conn, r: Report): Conn {
    AfterWrite(v, AfterRead(c, r), r)
  }

  /** One dispatch: every test reads the mask again, after the callbacks before it. */
  function Dispatch(v: Variant, c: Conn, r: Report): Conn {
    AfterReadiness(v, AfterHangups(c.(revents := r.mask)), r).(revents := {})
  }

  /** The masks that close the connection without a read. */
  predicate HangsUp(mask: Mask) {
    (Hup in mask && In !in mask) || Err in mask || RdHup in mask
  }

  /** The reports that close the connection. */
  predicate Closes(r: Report) {
    HangsUp(r.mask) || (r.mask * {In, Pri} != {} && ReadCloses(r))
  }

  /** What one dispatch adds to the trace: a close alone, or a message and a write as far as they were reported. */
  function Calls(r: Report): seq<Callback> {
    if Closes(r) then
      [Closed]
    else
      (if r.mask * {In, Pri} != {} then [Message(if r.failed then [] else r.arrived)] else [])
      + (if Out in r.mask then [Writable] else [])
  }

  /** For every mask, a dispatch closes at most once, and then makes no other callback before or after. */
  lemma DispatchCalls(v: Variant, c: Conn, r: Report)
    ensures var c' := Dispatch(v, c, r);
            && c'.trace == c.trace + Calls(r)
            && c'.revents == {}
            && (Closes(r) ==> !c'.polling && !c'.open && c'.wbuf == c.wbuf)
            && (!Closes(r) ==> c'.polling == c.polling && c'.open == c.open)
  {
    ClosingSkipsRest(v, c.(revents := r.mask), r);
    var c3 := AfterHangups(c.(revents := r.mask));
    HangupsClose(c.(revents := r.mask));
    if !Closes(r) {
      assert c3 == c.(revents := r.mask);
      var m := if r.mask * {In, Pri} != {} then [Message(if r.failed then [] else r.arrived)] else [];
      assert AfterRead(c3, r).trace == c.trace + m;
    }
  }

  /**
   * What a dispatch does, from the report alone. It closes if the mask hangs up, or if a read came to the end of the
   * stream or was reset. Otherwise a reported read delivers exactly what arrived, nothing only if it failed, and a
   * reported write sends what the kernel takes and keeps EPOLLOUT only while there is more to send.
   */
  lemma DispatchOutcome(v: Variant, c: Conn, r: Report)
    ensures var c' := Dispatch(v, c, r);
            var hangsUp := (Hup in r.mask && In !in r.mask) || Err in r.mask || RdHup in r.mask;
            var readable := In in r.mask || Pri in r.mask;
            var over := (!r.failed && |r.arrived| == 0) || r.reset;
            && (c'.trace == c.trace + [Closed] <==> hangsUp || (readable && over))
            && if hangsUp || (readable && over)
               then !c'.polling && !c'.open && c'.wbuf == c.wbuf && c'.events == c.events
               else
                 && c'.polling == c.polling && c'.open == c.open && c.trace <= c'.trace
                 && |c'.trace| == |c.trace| + (if readable then 1 else 0) + (if Out in r.mask then 1 else 0)
                 && (readable ==>
                       var call := c'.trace[|c.trace|];
                       call.Message? && (if r.failed then call.bytes == [] else call.bytes == r.arrived != []))
                 && (Out in r.mask ==> c'.trace[|c'.trace| - 1].Writable? && Writes(v, c, c', r.taken))
                 && (Out !in r.mask ==> c'.wbuf == c.wbuf && c'.events == c.events && c'.kernel == c.kernel)
  {
    DispatchCalls(v, c, r);
    MaskMeets(r.mask);
    if Closes(r) {
      ClosingLeavesMask(v, c, r);
    } else {
      OpenCalls(c.trace, r);
      OpenDispatchWrites(v, c, r);
    }
  }

  lemma OpenCalls(trace: seq<Callback>, r: Report)
    requires !Closes(r)
    ensures var trace', readable := trace + Calls(r), In in r.mask || Pri in r.mask;
            && |trace'| == |trace| + (if readable then 1 else 0) + (if Out in r.mask then 1 else 0)
            && (readable ==> trace'[|trace|] == Message(if r.failed then [] else r.arrived))
            && (Out in r.mask ==> trace'[|trace'| - 1].Writable?)
            && trace' != trace + [Closed]
  {
    MaskMeets(r.mask);
    if Calls(r) != [] {
      assert (trace + Calls(r))[|trace|] == Calls(r)[0] && !Calls(r)[0].Closed?;
      assert (trace + [Closed])[|trace|].Closed?;
    }
  }

  lemma ClosingLeavesMask(v: Variant, c: Conn, r: Report)
    requires Closes(r)
    ensures Dispatch(v, c, r).events == c.events
  {
    HangupsClose(c.(revents := r.mask));
    ClosingSkipsRest(v, AfterRead(AfterHangups(c.(revents := r.mask)), r), r);
  }

  lemma OpenDispatchWrites(v: Variant, c: Conn, r: Report)
    requires !Closes(r)
    ensures var c' := Dispatch(v, c, r);
            if Out in r.mask then Writes(v, c, c', r.taken)
            else c'.wbuf == c.wbuf && c'.events == c.events && c'.kernel == c.kernel
  {
    HangupsClose(c.(revents := r.mask));
    var c1 := AfterRead(c.(revents := r.mask), r);
    WriteWrites(v, c1, r);
  }

  lemma WriteWrites(v: Variant, c: Conn, r: Report)
    ensures Writes(v, c, OnWrite(v, c, r), r.taken)
  {
  }

  /**
   * The kernel took `taken` bytes; EPOLLOUT stays while bytes are left, in the written code only after a partial send.
   */
  ghost predicate Writes(v: Variant, c: Conn, c': Conn, taken: int) {
    && c'.wbuf.data == c.wbuf.data[Max(0, Min(taken, |c.wbuf.data|))..]
    && if c'.wbuf.data == [] || (v.AsWritten? && taken <= 0)
       then c'.events == c.events - {Out} && c'.kernel == (if c.polling then c'.events else c.kernel)
       else c'.events == c.events && c'.kernel == c.kernel
  }

  /** The first three tests clear the mask when one of them closes, and change nothing otherwise. */
  lemma HangupsClose(c: Conn)
    ensures AfterHangups(c) == if HangsUp(c.revents) then OnClose(c) else c
  {
  }

  lemma ClosingSkipsRest(v: Variant, c: Conn, r: Report)
    ensures c.revents == {} ==>
              AfterErr(c) == AfterRdHup(c) == AfterRead(c, r) == AfterWrite(v, c, r) == AfterReadiness(v, c, r) == c
  {
    if c.revents == {} {
      assert c.revents * {In, Pri} == {};
    }
  }

  // -------- whole runs --------

  /** Only a polled connection is reported, so a run stops at the close. */
  predicate Runnable(v: Variant, c: Conn, reports: seq<Report>)
    decreases |reports|
  {
    reports == [] || (c.polling && Runnable(v, Dispatch(v, c, reports[0]), reports[1..]))
  }

  function Run(v: Variant, c: Conn, reports: seq<Report>): Conn
    requires Runnable(v, c, reports)
    decreases |reports|
  {
    if reports == [] then c else Run(v, Dispatch(v, c, reports[0]), reports[1..])
  }

  /** Messages and writes in any order, then at most one close, and nothing after it. */
  predicate WellTraced(trace: seq<Callback>) {
    forall i :: 0 <= i < |trace| - 1 ==> !trace[i].Closed?
  }

  predicate HasClosed(trace: seq<Callback>) {
    trace != [] && trace[|trace| - 1].Closed?
  }

  /** One dispatch of an open connection prolongs its trace properly. */
  lemma DispatchKeepsTrace(v: Variant, c: Conn, r: Report)
    requires WellTraced(c.trace) && c.polling && !HasClosed(c.trace)
    ensures var c' := Dispatch(v, c, r);
            WellTraced(c'.trace) && (c'.polling <==> !HasClosed(c'.trace)) && c.trace <= c'.trace
  {
    DispatchCalls(v, c, r);
    CallsAreProper(c.trace, r);
  }

  lemma CallsAreProper(trace: seq<Callback>, r: Report)
    requires WellTraced(trace) && !HasClosed(trace)
    ensures WellTraced(trace + Calls(r)) && (HasClosed(trace + Calls(r)) <==> Closes(r))
  {
    var t := trace + Calls(r);
    if !Closes(r) {
      forall i | 0 <= i < |t|
        ensures !t[i].Closed?
      {
        assert t[i] == if i < |trace| then trace[i] else Calls(r)[i - |trace|];
      }
    }
  }

  lemma {:induction false} RunIsWellTraced(v: Variant, c: Conn, reports: seq<Report>)
    requires WellTraced(c.trace) && (c.polling <==> !HasClosed(c.trace)) && Runnable(v, c, reports)
    ensures var c' := Run(v, c, reports);
            WellTraced(c'.trace) && (c'.polling <==> !HasClosed(c'.trace)) && c.trace <= c'.trace
    decreases |reports|
  {
    if reports != [] {
      DispatchKeepsTrace(v, c, reports[0]);
      RunIsWellTraced(v, Dispatch(v, c, reports[0]), reports[1..]);
    }
  }

  /**
   * Main result: the callbacks of a new connection, over any reports, are reads and writes and then at most one close.
   */
  lemma CallbackTraceIsWellFormed(v: Variant, total: nat, reports: seq<Report>)
    requires Runnable(v, NewConn(total), reports)
    ensures var trace := Run(v, NewConn(total), reports).trace;
            && (forall i :: 0 <= i < |trace| && trace[i].Closed? ==> i == |trace| - 1)
            && (HasClosed(trace) <==> !Run(v, NewConn(total), reports).polling)
  {
    RunIsWellTraced(v, NewConn(total), reports);
  }

  /** The bytes of all messages. */
  function Received(trace: seq<Callback>): seq<byte> {
    if trace == [] then [] else (if trace[0].Message? then trace[0].bytes else []) + Received(trace[1..])
  }

  /** What arrived with a readable report that neither fails nor comes with a hang-up or a reset. */
  function ArrivedWith(r: Report): seq<byte> {
    var hangsUp := (Hup in r.mask && In !in r.mask) || Err in r.mask || RdHup in r.mask;
    if (In in r.mask || Pri in r.mask) && !hangsUp && !r.failed && !r.reset then r.arrived else []
  }

  function Arrived(reports: seq<Report>): seq<byte> {
    if reports == [] then [] else ArrivedWith(reports[0]) + Arrived(reports[1..])
  }

  lemma {:induction false} ReceivedConcat(a: seq<Callback>, b: seq<Callback>)
    ensures Received(a + b) == Received(a) + Received(b)
  {
    if a == [] {
      assert a + b == b;
    } else {
      ReceivedConcat(a[1..], b);
      assert (a + b)[1..] == a[1..] + b;
    }
  }

  lemma DispatchReceives(v: Variant, c: Conn, r: Report)
    ensures Received(Dispatch(v, c, r).trace) == Received(c.trace) + ArrivedWith(r)
  {
    DispatchCalls(v, c, r);
    ReceivedConcat(c.trace, Calls(r));
    CallsReceive(r);
  }

  lemma CallsReceive(r: Report)
    ensures Received(Calls(r)) == ArrivedWith(r)
  {
    MaskMeets(r.mask);
    var m := if r.mask * {In, Pri} != {} then [Message(if r.failed then [] else r.arrived)] else [];
    var w := if Out in r.mask then [Writable] else [];
    ReceivedConcat(m, w);
    assert w != [] ==> w[1..] == [];
    assert m != [] ==> m[1..] == [];
  }

  /** The messages of a connection hold every byte that arrived while it was open, in order and once. */
  lemma {:induction false} EveryByteIsDelivered(v: Variant, c: Conn, reports: seq<Report>)
    requires Runnable(v, c, reports)
    ensures Received(Run(v, c, reports).trace) == Received(c.trace) + Arrived(reports)
    decreases |reports|
  {
    if reports != [] {
      DispatchReceives(v, c, reports[0]);
      EveryByteIsDelivered(v, Dispatch(v, c, reports[0]), reports[1..]);
      ConcatAssociates(Received(c.trace), ArrivedWith(reports[0]), Arrived(reports[1..]));
    }
  }

  function NewConn(total: nat): Conn {
    Conn({In, Pri}, {In, Pri}, {}, true, true, B.Buffer(0, [], total), [])
  }

  // -------- the class --------

  class TCPConnection {
    var events: Mask
    var kernel: Mask
    var revents: Mask
    var polling: bool
    var open: bool
    var trace: seq<Callback>
    /** Weak references to the timers of this connection; null for one whose timer is gone. */
    var timers: seq<O.TimerEntry?>
    const rbuf: B.BufferBase
    const wbuf: B.BufferBase

    ghost predicate BuffersValid()
      reads this, rbuf, wbuf
    {
      rbuf != wbuf && rbuf.bytes != wbuf.bytes && rbuf.Valid() && wbuf.Valid()
    }

    /** Between dispatches nothing is left in the read buffer of an open connection. */
    ghost predicate Valid()
      reads this, rbuf, wbuf
    {
      BuffersValid() && (polling ==> rbuf.wptr == rbuf.rptr == 0)
    }

    ghost function Value(): Conn
      requires wbuf.Valid()
      reads this, wbuf, wbuf.bytes
    {
      Conn(events, kernel, revents, polling, open, wbuf.Value(), trace)
    }

    ghost function Timers(): set<O.TimerEntry>
      reads this
    {
      set t: O.TimerEntry | t in timers
    }

    constructor (size: nat)
      ensures Valid() && Value() == NewConn(size) && timers == [] && fresh(rbuf) && fresh(wbuf)
      ensures polling && open && events == kernel == {In, Pri} && trace == [] && wbuf.RemainSize() == size
      ensures fresh(rbuf.bytes) && fresh(wbuf.bytes) && rbuf.bytes.Length == size
    {
      events := {In, Pri};
      kernel := {In, Pri};
      revents := {};
      polling, open := true, true;
      trace, timers := [], [];
      rbuf := new B.BufferBase(size);
      wbuf := new B.BufferBase(size);
    }

    /** Disables every timer that still exists and forgets them all. */
    method DisableTimers()
      modifies this`timers, Timers()
      ensures timers == []
      ensures forall t :: t in old(Timers()) ==> t.Value() == old(t.Value()).(disabled := true)
    {
      for i := 0 to |timers|
        invariant timers == old(timers)
        invariant forall t :: t in Timers() ==>
                    t.Value() == old(t.Value()).(disabled := t in timers[..i] || old(t.disabled))
      {
        var t := timers[i];
        if t != null {
          assert t in Timers();
          t.Disable();
        }
        assert timers[..i + 1] == timers[..i] + [t];
      }
      assert timers[..|timers|] == timers;
      timers := [];
    }

    method HandleClose()
      requires BuffersValid()
      modifies this, Timers()
      ensures Valid() && Value() == OnClose(old(Value())) && timers == []
      ensures forall t :: t in old(Timers()) ==> t.Value() == old(t.Value()).(disabled := true)
    {
      revents := {};
      if polling {
        polling := false;
      }
      open := false;
      DisableTimers();
      trace := trace + [Closed];
    }

    method HandleRead(r: Report)
      requires Valid() && polling && |r.arrived| <= rbuf.RemainSize()
      modifies this, rbuf, rbuf.bytes, Timers()
      ensures Valid() && Value() == OnRead(old(Value()), r)
      ensures if (!r.failed && |r.arrived| == 0) || r.reset
              then !polling && !open && revents == {} && trace == old(trace) + [Closed]
              else polling && open == old(open) && revents == old(revents)
                   && trace == old(trace) + [Message(if r.failed then [] else r.arrived)]
      ensures if ReadCloses(r) then
                timers == [] && forall t :: t in old(Timers()) ==> t.Value() == old(t.Value()).(disabled := true)
              else
                timers == old(timers) && forall t :: t in old(Timers()) ==> t.Value() == old(t.Value())
    {
      var n := rbuf.ReadIn(r.arrived, r.failed);
      if n == 0 || r.reset {
        HandleClose();
        return;
      }
      ghost var held := rbuf.Value().data;
      assert held == if r.failed then [] else r.arrived;
      trace := trace + [Message(rbuf.bytes[rbuf.rptr..rbuf.wptr])];
      rbuf.Clear();
    }

    /** The send, and whether EPOLLOUT goes after it. */
    method Send(v: Variant, r: Report) returns (disarm: bool)
      requires Valid()
      modifies wbuf
      ensures Valid()
      ensures var size := |old(wbuf.Value()).data|;
              && wbuf.Value() == B.WriteSpec(old(wbuf.Value()), Min(r.taken, size))
              && disarm == W.Disarms(v, size, Min(r.taken, size))
    {
      var size := wbuf.DataSize();
      disarm := true;
      if size > 0 {
        var n, _ := wbuf.WriteOut(Min(r.taken, size));
        disarm := if v.AsWritten? then !(n < size && n > 0) else n == size;
      }
    }

    method HandleWrite(v: Variant, r: Report)
      requires Valid()
      modifies this`events, this`kernel, this`trace, wbuf
      ensures Valid() && Value() == OnWrite(v, old(Value()), r) && Writes(v, old(Value()), Value(), r.taken)
    {
      WriteWrites(v, Value(), r);
      var disarm := Send(v, r);
      if disarm {
        events := WithWrite(events, false);
        if polling {
          kernel := events;
        }
      }
      trace := trace + [Writable];
    }

    /** The three tests that can only close. */
    method HandleHangups()
      requires Valid()
      modifies this, Timers()
      ensures Valid() && Value() == AfterHangups(old(Value()))
      ensures if old(revents) == revents then timers == old(timers)
              else revents == {} && timers == [] && forall t :: t in old(Timers()) ==> t.disabled
    {
      if Hup in revents && In !in revents {
        HandleClose();
      }
      if Err in revents {
        HandleClose();
      }
      if RdHup in revents {
        HandleClose();
      }
    }

    /** The tests for readable and writable. */
    method HandleReadiness(v: Variant, r: Report)
      requires Valid() && (revents != {} ==> polling && |r.arrived| <= rbuf.RemainSize())
      modifies this, rbuf, rbuf.bytes, wbuf, Timers()
      ensures Valid() && Value() == AfterReadiness(v, old(Value()), r)
      ensures if old(revents) * {In, Pri} != {} && ReadCloses(r)
              then timers == [] && forall t :: t in old(Timers()) ==> t.disabled
              else timers == old(timers)
    {
      MaskMeets(revents);
      if In in revents || Pri in revents {
        HandleRead(r);
      }
      if Out in revents {
        HandleWrite(v, r);
      }
    }

    /** The dispatcher. The mask is read again before every test, because a close resets it. */
    method HandleEvent(v: Variant, r: Report)
      requires Valid() && polling && |r.arrived| <= rbuf.RemainSize()
      modifies this, rbuf, rbuf.bytes, wbuf, Timers()
      ensures Valid() && Value() == Dispatch(v, old(Value()), r)
      ensures Closes(r) ==> timers == [] && forall t :: t in old(Timers()) ==> t.disabled
      ensures !Closes(r) ==> timers == old(timers)
    {
      revents := r.mask;
      HangupsClose(Value());
      HandleHangups();
      ClosingSkipsRest(v, Value(), r);
      HandleReadiness(v, r);
      revents := {};
    }
  }

  lemma MaskMeets(m: Mask)
    ensures m * {In, Pri} != {} <==> In in m || Pri in m
  {
    if In in m || Pri in m {
      assert In in m * {In, Pri} || Pri in m * {In, Pri};
    }
  }
}
