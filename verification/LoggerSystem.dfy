/**
 * The logger on its real rings: every thread's ring is stepped index load by index load and byte by byte, as in module
 * RingProtocol, and all threads interleave. The system refines the one of module AsyncLoggers, whose rings are byte
 * queues.
 */
module LoggerSystems {
  import opened Common
  import R = RingBuffers
  import P = RingProtocol
  import A = AsyncLoggers

  const RING_SIZE: nat := A.RING_CAPACITY + 1

  /** As in AsyncLoggers, with rings whose producer and consumer are somewhere inside `append` and `retrive`. */
  datatype System = System(
    running: bool, rings: map<nat, P.State>, unsent: map<nat, seq<byte>>, logged: map<nat, seq<byte>>,
    staging: seq<A.Tagged>, output: seq<A.Tagged>, pc: A.Pc)

  /** Append steps the producer of a ring, Retrieve the consumer of the ring it is at; Control is everything else. */
  datatype Action =
    | Begin(tid: nat, data: seq<byte>)
    | Append(tid: nat, step: P.Action)
    | Retrieve(step: P.Action)
    | Control(a: A.Action)

  /** The bytes a ring holds between its two indices. */
  ghost function Held(r: P.State): seq<byte> {
    if R.WellFormed(P.SnapshotOf(r)) then R.Contents(P.SnapshotOf(r)) else []
  }

  ghost function Abs(s: System): A.State {
    A.State(s.running, map t | t in s.rings :: Held(s.rings[t]), s.unsent, s.logged, s.staging, s.output, s.pc)
  }

  /**
   * The ring's `empty` compares the two indices, which says the same as `Held` (`RingBuffers.SizesMeasureContents`).
   * The retry loop enters `append` with what is unsent; the written one is only followed when all of that finds room.
   */
  ghost predicate Enabled(v: Variant, s: System, a: Action) {
    match a
    case Begin(t, data) => A.Enabled(v, Abs(s), A.Begin(t, data)) && (t in s.rings ==> s.rings[t].prod.PIdle?)
    case Append(t, step) =>
      && t in s.rings && t in s.unsent && P.Enabled(v, s.rings[t], step)
      && (step.LoadOut? || step.Write? || step.PublishIn?)
      && (step.LoadOut? ==> step.data == s.unsent[t]
                            && (v.AsWritten? ==> |Held(s.rings[t])| + |s.unsent[t]| <= A.RING_CAPACITY))
    case Retrieve(step) =>
      && s.pc.InCall? && s.pc.tid in s.rings && P.Enabled(v, s.rings[s.pc.tid], step)
      && (step.LoadIn? || step.Read? || step.PublishOut?)
      && (step.LoadIn? ==> !s.pc.moved && step.want == A.STAGING_SIZE - |s.staging|)
    case Control(b) =>
      && A.IsControl(b) && A.Enabled(v, Abs(s), b)
      && (b.EndRetrieve? ==> s.pc.tid in s.rings && s.rings[s.pc.tid].cons.CIdle?)
  }

  function NewRing(): P.State {
    P.Initial(seq(RING_SIZE, _ => 0))
  }

  /** The ring of a thread; its first record creates it. */
  function RingOf(s: System, t: nat): P.State {
    if t in s.rings then s.rings[t] else NewRing()
  }

  /** How many bytes of the record a step of its producer publishes. */
  function SentBy(r: P.State, unsent: seq<byte>, step: P.Action): nat {
    if step.PublishIn? && !r.prod.PIdle? then Min(|P.PublishedBytes(r)|, |unsent|) else 0
  }

  /** The bytes a step of the consumer releases. */
  function TakenBy(r: P.State, step: P.Action): seq<byte> {
    if step.PublishOut? && !r.cons.CIdle? then r.cons.got else []
  }

  /** The system after one ring, its record and the staging buffer changed. */
  ghost function After(s: System, t: nat, r: P.State, unsent: seq<byte>, staging: seq<A.Tagged>, pc: A.Pc): System {
    s.(rings := s.rings[t := r], unsent := s.unsent[t := unsent], staging := staging, pc := pc)
  }

  ghost function Apply(v: Variant, s: System, a: Action): System
    requires Enabled(v, s, a)
  {
    match a
    case Begin(t, data) =>
      After(s, t, RingOf(s, t), data, s.staging, s.pc).(logged := s.logged[t := A.Get(s.logged, t) + data])
    case Append(t, step) =>
      var ring, unsent := s.rings[t], s.unsent[t];
      After(s, t, P.Apply(v, ring, step), unsent[SentBy(ring, unsent, step)..], s.staging, s.pc)
    case Retrieve(step) =>
      var t, ring := s.pc.tid, s.rings[s.pc.tid];
      After(s, t, P.Apply(v, ring, step), A.Get(s.unsent, t), s.staging + A.Tag(t, TakenBy(ring, step)),
            A.InCall(t, s.pc.final, s.pc.moved || step.PublishOut?))
    case Control(b) =>
      var x := A.Apply(v, Abs(s), b);
      s.(running := x.running, staging := x.staging, output := x.output, pc := x.pc)
  }

  // -------- invariant --------

  /** What the current call of `append` has still to copy is what the record still has unsent. */
  ghost predicate ProducerOk(v: Variant, r: P.State, unsent: seq<byte>) {
    r.prod.PIdle? || (
      && P.SourceOf(r.prod) <= |r.prod.data| && r.prod.data[P.SourceOf(r.prod)..] == unsent
      && (v.AsWritten? ==> |Held(r)| + |unsent| <= A.RING_CAPACITY))
  }

  /** The consumer is inside a ring only during its call, which asked for all the room the staging buffer had. */
  ghost predicate ConsumerOk(r: P.State, pc: A.Pc, t: nat, room: int) {
    if !(pc.InCall? && pc.tid == t) then r.cons.CIdle?
    else match r.cons
      case CIdle => true
      case CFirst(want, _, _, seenP) => !pc.moved && want == room && seenP > |r.returned|
      case CSecond(rest, _, _, _) => pc.moved && rest == room
  }

  ghost predicate RingOk(v: Variant, r: P.State, unsent: seq<byte>, pc: A.Pc, t: nat, room: int) {
    P.Inv(v, r) && |r.buf| == RING_SIZE && ProducerOk(v, r, unsent) && ConsumerOk(r, pc, t, room)
  }

  ghost predicate RingsOk(v: Variant, s: System) {
    && s.rings.Keys == s.unsent.Keys
    && forall t :: t in s.rings ==> RingOk(v, s.rings[t], s.unsent[t], s.pc, t, A.STAGING_SIZE - |s.staging|)
  }

  ghost predicate Inv(v: Variant, s: System) {
    A.Inv(Abs(s)) && RingsOk(v, s)
  }

  // -------- one step is at most one step of the abstract system --------

  /** The abstract step, if any. */
  ghost function Image(v: Variant, s: System, a: Action): seq<A.Action>
    requires Enabled(v, s, a)
  {
    match a
    case Begin(t, data) => [A.Begin(t, data)]
    case Append(t, step) =>
      var sent := SentBy(s.rings[t], s.unsent[t], step);
      if sent > 0 then [A.Accept(t, sent)] else []
    case Retrieve(step) =>
      var taken := TakenBy(s.rings[s.pc.tid], step);
      if taken != [] then [A.Release(|taken|)] else []
    case Control(b) => [b]
  }

  ghost predicate Simulates(v: Variant, s: System, s': System, image: seq<A.Action>) {
    A.Runnable(v, Abs(s), image) && Abs(s') == A.Run(v, Abs(s), image)
  }

  lemma HeldIsUnread(v: Variant, r: P.State)
    requires P.Inv(v, r)
    ensures Held(r) == r.accepted[|r.returned|..] && |Held(r)| < |r.buf|
    ensures R.WellFormed(P.SnapshotOf(r)) && Held(r) == R.Contents(P.SnapshotOf(r))
  {
    P.HeldIsUnread(r);
  }

  lemma OneStep(v: Variant, x: A.State, b: A.Action)
    requires A.Enabled(v, x, b)
    ensures A.Runnable(v, x, [b]) && A.Run(v, x, [b]) == A.Apply(v, x, b)
  {
    assert [b][1..] == [];
  }

  lemma AbsAfter(s: System, t: nat, r: P.State, unsent: seq<byte>, staging: seq<A.Tagged>, pc: A.Pc)
    ensures Abs(After(s, t, r, unsent, staging, pc))
            == Abs(s).(rings := Abs(s).rings[t := Held(r)], unsent := s.unsent[t := unsent],
                       staging := staging, pc := pc)
  {
  }

  /** The other rings stay as they are, if the consumer stays where it is, or is in a call on this ring all the time. */
  lemma OneRingChanges(
    v: Variant, s: System, t: nat, r: P.State, unsent: seq<byte>, staging: seq<A.Tagged>, pc: A.Pc)
    requires RingsOk(v, s) && RingOk(v, r, unsent, pc, t, A.STAGING_SIZE - |staging|)
    requires (pc == s.pc && |staging| == |s.staging|)
             || (pc.InCall? && pc.tid == t && (s.pc.InCall? ==> s.pc.tid == t))
    ensures RingsOk(v, After(s, t, r, unsent, staging, pc))
  {
    var s' := After(s, t, r, unsent, staging, pc);
    forall u | u in s'.rings
      ensures RingOk(v, s'.rings[u], s'.unsent[u], pc, u, A.STAGING_SIZE - |staging|)
    {
      if u != t {
        assert RingOk(v, s.rings[u], s.unsent[u], s.pc, u, A.STAGING_SIZE - |s.staging|);
      }
    }
  }

  /** The byte queue behind one step of a ring. */
  lemma RingStep(v: Variant, r: P.State, step: P.Action)
    requires P.Inv(v, r) && P.Enabled(v, r, step)
    ensures var r' := P.Apply(v, r, step);
            && P.Inv(v, r') && |r'.buf| == |r.buf| && |Held(r')| < |r.buf|
            && match step
               case PublishIn => Held(r') == Held(r) + P.PublishedBytes(r)
               case PublishOut => Held(r) == r.cons.got + Held(r')
               case _ => Held(r') == Held(r)
  {
    P.StepKeepsInv(v, r, step);
    P.RingRefinesQueue(v, r, step);
    HeldIsUnread(v, r);
    HeldIsUnread(v, P.Apply(v, r, step));
  }

  // -------- a step of a producer --------

  /** Publishing sends the next part of the record. */
  lemma PublishSends(v: Variant, r: P.State, unsent: seq<byte>)
    requires P.Inv(v, r) && P.Enabled(v, r, P.PublishIn) && ProducerOk(v, r, unsent)
    ensures var bytes, r' := P.PublishedBytes(r), P.Apply(v, r, P.PublishIn);
            && |bytes| <= |unsent| && bytes == unsent[..|bytes|]
            && ProducerOk(v, r', unsent[|bytes|..])
  {
    var data, from, k := r.prod.data, P.SourceOf(r.prod), r.prod.k;
    RingStep(v, r, P.PublishIn);
    assert P.PublishedBytes(r) == data[from..from + k] == data[from..][..k];
    assert data[from..][k..] == data[from + k..];
  }

  lemma LoadOrWriteKeepsProducer(v: Variant, r: P.State, step: P.Action, unsent: seq<byte>)
    requires P.Inv(v, r) && P.Enabled(v, r, step) && (step.LoadOut? || step.Write?) && ProducerOk(v, r, unsent)
    requires step.LoadOut? ==> step.data == unsent && (v.AsWritten? ==> |Held(r)| + |unsent| <= A.RING_CAPACITY)
    ensures ProducerOk(v, P.Apply(v, r, step), unsent)
  {
    RingStep(v, r, step);
    assert unsent[0..] == unsent;
  }

  /** A step of the producer, seen from its ring: it enqueues what it sends, and the consumer does not notice. */
  lemma ProducerStep(v: Variant, r: P.State, step: P.Action, unsent: seq<byte>, pc: A.Pc, t: nat, room: int)
    requires RingOk(v, r, unsent, pc, t, room) && P.Enabled(v, r, step)
    requires step.LoadOut? || step.Write? || step.PublishIn?
    requires step.LoadOut? ==> step.data == unsent && (v.AsWritten? ==> |Held(r)| + |unsent| <= A.RING_CAPACITY)
    ensures var r', sent := P.Apply(v, r, step), SentBy(r, unsent, step);
            && sent <= |unsent| && RingOk(v, r', unsent[sent..], pc, t, room)
            && Held(r') == Held(r) + unsent[..sent] && |Held(r')| <= A.RING_CAPACITY
            && (sent > 0 && v.AsWritten? ==> |Held(r)| + |unsent| <= A.RING_CAPACITY)
  {
    RingStep(v, r, step);
    if step.PublishIn? {
      PublishSends(v, r, unsent);
    } else {
      LoadOrWriteKeepsProducer(v, r, step, unsent);
      assert unsent[0..] == unsent && Held(r) + unsent[..0] == Held(r);
    }
  }

  lemma AppendKeepsRings(v: Variant, s: System, t: nat, step: P.Action)
    requires RingsOk(v, s) && Enabled(v, s, Append(t, step))
    ensures RingsOk(v, Apply(v, s, Append(t, step)))
  {
    var r, unsent := s.rings[t], s.unsent[t];
    ProducerStep(v, r, step, unsent, s.pc, t, A.STAGING_SIZE - |s.staging|);
    OneRingChanges(v, s, t, P.Apply(v, r, step), unsent[SentBy(r, unsent, step)..], s.staging, s.pc);
  }

  /** A step that sends nothing and keeps the queue is invisible; one that sends is an abstract step. */
  lemma SendingIsAccept(v: Variant, s: System, t: nat, r: P.State, sent: nat)
    requires t in s.rings && t in s.unsent && sent <= |s.unsent[t]|
    requires Held(r) == Held(s.rings[t]) + s.unsent[t][..sent] && |Held(r)| <= A.RING_CAPACITY
    requires sent > 0 && v.AsWritten? ==> |Held(s.rings[t])| + |s.unsent[t]| <= A.RING_CAPACITY
    ensures Simulates(v, s, After(s, t, r, s.unsent[t][sent..], s.staging, s.pc),
                      if sent > 0 then [A.Accept(t, sent)] else [])
  {
    var x, unsent := Abs(s), s.unsent[t];
    AbsAfter(s, t, r, unsent[sent..], s.staging, s.pc);
    if sent > 0 {
      OneStep(v, x, A.Accept(t, sent));
    } else {
      assert unsent[0..] == unsent && Held(s.rings[t]) + unsent[..0] == Held(s.rings[t]);
      assert x.rings[t := Held(r)] == x.rings && s.unsent[t := unsent] == s.unsent;
    }
  }

  lemma AppendSimulates(v: Variant, s: System, t: nat, step: P.Action)
    requires RingsOk(v, s) && Enabled(v, s, Append(t, step))
    ensures Simulates(v, s, Apply(v, s, Append(t, step)), Image(v, s, Append(t, step)))
  {
    var r, unsent := s.rings[t], s.unsent[t];
    ProducerStep(v, r, step, unsent, s.pc, t, A.STAGING_SIZE - |s.staging|);
    SendingIsAccept(v, s, t, P.Apply(v, r, step), SentBy(r, unsent, step));
  }

  // -------- a step of the consumer --------

  /** A load finds something, because the ring was not empty and nobody else takes from it. */
  lemma LoadKeepsConsumer(v: Variant, r: P.State, want: nat, final: bool, t: nat)
    requires P.Inv(v, r) && P.Enabled(v, r, P.LoadIn(want)) && Held(r) != []
    ensures ConsumerOk(P.Apply(v, r, P.LoadIn(want)), A.InCall(t, final, false), t, want)
  {
    HeldIsUnread(v, r);
  }

  /** The first segment is never empty, and no segment is larger than the room left. */
  lemma ReleaseKeepsConsumer(v: Variant, r: P.State, final: bool, moved: bool, t: nat, room: nat)
    requires P.Inv(v, r) && P.Enabled(v, r, P.PublishOut) && (!moved ==> room > 0)
    requires ConsumerOk(r, A.InCall(t, final, moved), t, room)
    ensures |r.cons.got| <= room && (!moved ==> r.cons.got != [])
    ensures ConsumerOk(P.Apply(v, r, P.PublishOut), A.InCall(t, final, true), t, room - |r.cons.got|)
  {
    ModDistance(if r.cons.CFirst? then r.cons.seenP else |r.returned|, |r.returned|, |r.buf|);
  }

  /**
   * A step of the consumer, seen from the ring it is at: it dequeues what it takes, and the producer does not notice.
   */
  lemma ConsumerStep(
    v: Variant, r: P.State, step: P.Action, unsent: seq<byte>, final: bool, moved: bool, t: nat, room: nat)
    requires RingOk(v, r, unsent, A.InCall(t, final, moved), t, room) && P.Enabled(v, r, step)
    requires step.LoadIn? || step.Read? || step.PublishOut?
    requires step.LoadIn? ==> !moved && step.want == room && Held(r) != []
    requires !moved ==> room > 0
    ensures var r', taken := P.Apply(v, r, step), TakenBy(r, step);
            && |taken| <= room && Held(r) == taken + Held(r')
            && RingOk(v, r', unsent, A.InCall(t, final, moved || step.PublishOut?), t, room - |taken|)
            && (step.PublishOut? && !moved ==> taken != [])
  {
    RingStep(v, r, step);
    if step.LoadIn? {
      LoadKeepsConsumer(v, r, step.want, final, t);
    } else if step.PublishOut? {
      ReleaseKeepsConsumer(v, r, final, moved, t, room);
    }
    assert [] + Held(r) == Held(r);
  }

  /** A step that takes nothing and keeps the queue is invisible; one that takes is an abstract step. */
  lemma TakingIsRelease(v: Variant, s: System, r: P.State, taken: seq<byte>, moved: bool)
    requires s.pc.InCall? && s.pc.tid in s.rings && s.pc.tid in s.unsent && |s.staging| <= A.STAGING_SIZE
    requires Held(s.rings[s.pc.tid]) == taken + Held(r) && |taken| <= A.STAGING_SIZE - |s.staging|
    requires if taken != [] then moved else moved == s.pc.moved
    ensures var t := s.pc.tid;
            Simulates(v, s, After(s, t, r, s.unsent[t], s.staging + A.Tag(t, taken), A.InCall(t, s.pc.final, moved)),
                      if taken != [] then [A.Release(|taken|)] else [])
  {
    var x, t, ring := Abs(s), s.pc.tid, Held(s.rings[s.pc.tid]);
    AbsAfter(s, t, r, s.unsent[t], s.staging + A.Tag(t, taken), A.InCall(t, s.pc.final, moved));
    assert s.unsent[t := s.unsent[t]] == s.unsent;
    if taken != [] {
      assert ring[..|taken|] == taken && ring[|taken|..] == Held(r);
      OneStep(v, x, A.Release(|taken|));
    } else {
      assert [] + Held(r) == Held(r) && s.staging + A.Tag(t, []) == s.staging;
      assert x.rings[t := Held(r)] == x.rings;
    }
  }

  /** During a call there is room for what is still to come, and at its start the ring is not empty. */
  lemma CallHasRoom(v: Variant, s: System)
    requires Inv(v, s) && s.pc.InCall?
    ensures s.pc.tid in s.rings && s.pc.tid in s.unsent && |s.staging| <= A.STAGING_SIZE
    ensures !s.pc.moved ==> |s.staging| < A.STAGING_SIZE && Held(s.rings[s.pc.tid]) != []
  {
    assert Abs(s).rings.Keys == s.rings.Keys;
  }

  lemma RetrieveKeepsRings(v: Variant, s: System, step: P.Action)
    requires Inv(v, s) && Enabled(v, s, Retrieve(step))
    ensures RingsOk(v, Apply(v, s, Retrieve(step)))
  {
    CallHasRoom(v, s);
    var t, final, moved := s.pc.tid, s.pc.final, s.pc.moved;
    var r, unsent := s.rings[t], s.unsent[t];
    ConsumerStep(v, r, step, unsent, final, moved, t, A.STAGING_SIZE - |s.staging|);
    OneRingChanges(v, s, t, P.Apply(v, r, step), unsent, s.staging + A.Tag(t, TakenBy(r, step)),
                   A.InCall(t, final, moved || step.PublishOut?));
  }

  lemma RetrieveSimulates(v: Variant, s: System, step: P.Action)
    requires Inv(v, s) && Enabled(v, s, Retrieve(step))
    ensures Simulates(v, s, Apply(v, s, Retrieve(step)), Image(v, s, Retrieve(step)))
  {
    CallHasRoom(v, s);
    var t, moved := s.pc.tid, s.pc.moved;
    var r := s.rings[t];
    ConsumerStep(v, r, step, s.unsent[t], s.pc.final, moved, t, A.STAGING_SIZE - |s.staging|);
    TakingIsRelease(v, s, P.Apply(v, r, step), TakenBy(r, step), moved || step.PublishOut?);
  }

  // -------- the other steps --------

  /** A thread's first record comes with a ring that is empty and idle. */
  lemma NewRingOk(v: Variant, pc: A.Pc, t: nat, unsent: seq<byte>, room: int)
    ensures RingOk(v, NewRing(), unsent, pc, t, room) && Held(NewRing()) == []
  {
  }

  lemma BeginKeepsRings(v: Variant, s: System, t: nat, data: seq<byte>)
    requires RingsOk(v, s) && Enabled(v, s, Begin(t, data))
    ensures RingsOk(v, Apply(v, s, Begin(t, data)))
  {
    NewRingOk(v, s.pc, t, data, A.STAGING_SIZE - |s.staging|);
    OneRingChanges(v, s, t, RingOf(s, t), data, s.staging, s.pc);
  }

  lemma BeginSimulates(v: Variant, s: System, t: nat, data: seq<byte>)
    requires Enabled(v, s, Begin(t, data))
    ensures Simulates(v, s, Apply(v, s, Begin(t, data)), [A.Begin(t, data)])
  {
    NewRingOk(v, s.pc, t, data, 0);
    AbsAfter(s, t, RingOf(s, t), data, s.staging, s.pc);
    OneStep(v, Abs(s), A.Begin(t, data));
    assert Held(RingOf(s, t)) == A.Get(Abs(s).rings, t);
  }

  lemma ControlSimulates(v: Variant, s: System, b: A.Action)
    requires Enabled(v, s, Control(b))
    ensures Simulates(v, s, Apply(v, s, Control(b)), [b])
  {
    OneStep(v, Abs(s), b);
    A.ControlKeepsStreams(v, Abs(s), b);
  }

  /** Between two calls the consumer is inside no ring, and a call begins outside all of them. */
  lemma ControlKeepsRings(v: Variant, s: System, b: A.Action)
    requires RingsOk(v, s) && Enabled(v, s, Control(b))
    ensures RingsOk(v, Apply(v, s, Control(b)))
  {
    var s' := Apply(v, s, Control(b));
    forall u | u in s'.rings
      ensures RingOk(v, s'.rings[u], s'.unsent[u], s'.pc, u, A.STAGING_SIZE - |s'.staging|)
    {
      assert RingOk(v, s.rings[u], s.unsent[u], s.pc, u, A.STAGING_SIZE - |s.staging|);
    }
  }

  lemma StepSimulates(v: Variant, s: System, a: Action)
    requires Inv(v, s) && Enabled(v, s, a)
    ensures RingsOk(v, Apply(v, s, a)) && Simulates(v, s, Apply(v, s, a), Image(v, s, a))
  {
    match a
    case Begin(t, data) => BeginKeepsRings(v, s, t, data); BeginSimulates(v, s, t, data);
    case Append(t, step) => AppendKeepsRings(v, s, t, step); AppendSimulates(v, s, t, step);
    case Retrieve(step) => RetrieveKeepsRings(v, s, step); RetrieveSimulates(v, s, step);
    case Control(b) => ControlKeepsRings(v, s, b); ControlSimulates(v, s, b);
  }

  // -------- whole runs --------

  ghost predicate Runnable(v: Variant, s: System, acts: seq<Action>)
    decreases |acts|
  {
    acts == [] || (Enabled(v, s, acts[0]) && Runnable(v, Apply(v, s, acts[0]), acts[1..]))
  }

  ghost function Run(v: Variant, s: System, acts: seq<Action>): System
    requires Runnable(v, s, acts)
    decreases |acts|
  {
    if acts == [] then s else Run(v, Apply(v, s, acts[0]), acts[1..])
  }

  const Initial := System(true, map[], map[], map[], [], [], A.Top)

  lemma {:induction false} RunAppended(v: Variant, x: A.State, a: seq<A.Action>, b: seq<A.Action>)
    requires A.Runnable(v, x, a) && A.Runnable(v, A.Run(v, x, a), b)
    ensures A.Runnable(v, x, a + b) && A.Run(v, x, a + b) == A.Run(v, A.Run(v, x, a), b)
    decreases |a|
  {
    if a == [] {
      assert a + b == b;
    } else {
      RunAppended(v, A.Apply(v, x, a[0]), a[1..], b);
      ConcatSplits(a, b);
    }
  }

  /** Every run is a run of the abstract system. */
  lemma {:induction false} RunSimulates(v: Variant, s: System, acts: seq<Action>) returns (image: seq<A.Action>)
    requires Inv(v, s) && Runnable(v, s, acts)
    ensures Inv(v, Run(v, s, acts)) && Simulates(v, s, Run(v, s, acts), image)
    decreases |acts|
  {
    image := [];
    if acts != [] {
      var a, s1 := acts[0], Apply(v, s, acts[0]);
      StepSimulates(v, s, a);
      A.RunKeepsInv(v, Abs(s), Image(v, s, a));
      var rest := RunSimulates(v, s1, acts[1..]);
      RunAppended(v, Abs(s), Image(v, s, a), rest);
      image := Image(v, s, a) + rest;
    }
  }

  lemma FromStart(v: Variant, acts: seq<Action>) returns (image: seq<A.Action>)
    requires Runnable(v, Initial, acts)
    ensures Inv(v, Run(v, Initial, acts))
    ensures A.Runnable(v, A.Initial, image) && A.Run(v, A.Initial, image) == Abs(Run(v, Initial, acts))
  {
    assert Abs(Initial) == A.Initial;
    image := RunSimulates(v, Initial, acts);
  }

  /**
   * Main result. However the byte copies, index loads and publications of all threads interleave: when the consumer is
   * done, each thread's bytes are in the output completely, in order and once, and nothing else is.
   */
  lemma LoggerDelivers(v: Variant, acts: seq<Action>)
    requires Runnable(v, Initial, acts) && Run(v, Initial, acts).pc.Done?
    ensures var s := Run(v, Initial, acts);
            && (forall t :: t in s.logged ==> A.Project(s.output, t) == s.logged[t])
            && A.TagsIn(s.output, s.logged.Keys)
  {
    var image := FromStart(v, acts);
    A.OutputIsInterleaving(v, image);
  }

  /**
   * At every moment the staging buffer is within its 64 KiB, and so are the two copies on every ring of 32 KiB, which
   * never meet.
   */
  lemma LoggerIsSafe(v: Variant, acts: seq<Action>, t: nat)
    requires Runnable(v, Initial, acts)
    ensures |Run(v, Initial, acts).staging| <= 65536
    ensures t in Run(v, Initial, acts).rings ==>
              && |Run(v, Initial, acts).rings[t].buf| == 32768
              && P.CopiesAreSafe(v, Run(v, Initial, acts).rings[t])
  {
    var _ := FromStart(v, acts);
    var s := Run(v, Initial, acts);
    if t in s.rings {
      assert RingOk(v, s.rings[t], s.unsent[t], s.pc, t, A.STAGING_SIZE - |s.staging|);
      P.InvMakesCopiesSafe(v, s.rings[t]);
    }
  }

  // -------- when the appender gets its bytes --------

  /** Between two scans at most 2048 bytes wait in the staging buffer. */
  lemma LittleIsStagedBetweenScans(v: Variant, acts: seq<Action>)
    requires Runnable(v, Initial, acts) && Run(v, Initial, acts).pc.Top?
    ensures |Run(v, Initial, acts).staging| <= 2048
  {
    var image := FromStart(v, acts);
    A.LittleIsStagedBetweenScans(v, image);
  }

  /** When two seconds have passed, the end of a scan hands over everything staged: only the rings hold bytes then. */
  lemma TimeUpHandsOver(v: Variant, acts: seq<Action>, t: nat)
    requires Runnable(v, Initial, acts)
    requires Enabled(v, Run(v, Initial, acts), Control(A.EndScan(true))) && t in Run(v, Initial, acts).logged
    ensures var s' := Apply(v, Run(v, Initial, acts), Control(A.EndScan(true)));
            && t in s'.logged && t in s'.rings && t in s'.unsent && s'.staging == []
            && s'.logged[t] == A.Project(s'.output, t) + Held(s'.rings[t]) + s'.unsent[t]
  {
    var image := FromStart(v, acts);
    A.TimeUpHandsOver(v, image, t);
    A.ControlKeepsStreams(v, Abs(Run(v, Initial, acts)), A.EndScan(true));
  }

  /** Only a flush gives the appender anything, and it gives everything staged. */
  lemma FlushesWhenDue(v: Variant, s: System, a: Action)
    requires Enabled(v, s, a)
    ensures var s' := Apply(v, s, a);
            if a.Control? && A.IsFlush(Abs(s), a.a) then s'.output == s.output + s.staging && s'.staging == []
            else s'.output == s.output
  {
    if a.Control? {
      A.FlushesWhenDue(v, Abs(s), a.a);
    }
  }

  // -------- after the stop, on real rings --------

  /** How far the consumer is inside its call, counting down; a copied byte counts one. */
  function CallWork(pc: A.Pc, c: P.Consumer): int {
    match c
    case CIdle => if pc.InCall? && pc.moved then 1 else if pc.InCall? then -1 else 0
    case CFirst(_, _, got, _) => -2 - |got|
    case CSecond(_, _, got, _) => 2 - |got|
  }

  /** Where the consumer is inside the ring it is at, if any. */
  function ConsumerAt(s: System): P.Consumer {
    if s.pc.InCall? then RingOf(s, s.pc.tid).cons else P.CIdle
  }

  function WorkOf(held: int, pc: A.Pc, c: P.Consumer, n: nat): int {
    6 * held + if pc.InCall? then 2 * (n - pc.tid) + CallWork(pc, c) + A.DrainAhead(pc.final, n) else A.PlaceWork(pc, n)
  }

  /**
   * Work left after the stop, for threads below `n`: six for every held byte, two for every ring to come, and what is
   * left of the current call. It counts the steps that the byte queues do not see, too.
   */
  ghost function Work(s: System, n: nat): int {
    WorkOf(A.Held(Abs(s).rings, n), s.pc, ConsumerAt(s), n)
  }

  ghost predicate Bounded(s: System, n: nat) {
    A.Bounded(Abs(s), n)
  }

  /** With nothing left to send, a producer is not inside `append`. */
  lemma NothingUnsentMeansIdle(v: Variant, r: P.State)
    requires P.Inv(v, r) && ProducerOk(v, r, [])
    ensures r.prod.PIdle?
  {
  }

  /** The logging threads were joined before the stop. */
  lemma NoProducersAfterStop(v: Variant, s: System, a: Action)
    requires Inv(v, s) && !s.running && Enabled(v, s, a)
    ensures a.Retrieve? || (a.Control? && !a.a.Stop?)
  {
    assert A.AllSent(s.unsent);
    forall t | t in s.rings
      ensures s.rings[t].prod.PIdle? && s.unsent[t] == []
    {
      NothingUnsentMeansIdle(v, s.rings[t]);
    }
  }

  lemma HeldAfterTaking(s: System, t: nat, r: P.State, taken: seq<byte>, n: nat)
    requires t in s.rings && t < n && Held(s.rings[t]) == taken + Held(r)
    ensures A.Held(Abs(s).rings[t := Held(r)], n) == A.Held(Abs(s).rings, n) - |taken|
  {
    A.HeldAfter(Abs(s).rings, n, t, Held(r));
  }

  /** The consumer's own count inside a call. */
  lemma CallShrinks(v: Variant, r: P.State, step: P.Action, final: bool, moved: bool, t: nat, room: int)
    requires P.Enabled(v, r, step) && (step.LoadIn? || step.Read? || step.PublishOut?)
    requires ConsumerOk(r, A.InCall(t, final, moved), t, room) && (step.LoadIn? ==> !moved)
    requires step.PublishOut? && !moved ==> r.cons.got != []
    ensures var r' := P.Apply(v, r, step);
            CallWork(A.InCall(t, final, moved || step.PublishOut?), r'.cons) - 6 * |TakenBy(r, step)|
            < CallWork(A.InCall(t, final, moved), r.cons)
  {
  }

  lemma RetrieveStaysBounded(v: Variant, s: System, step: P.Action, n: nat)
    requires Bounded(s, n) && Enabled(v, s, Retrieve(step))
    ensures Bounded(Apply(v, s, Retrieve(step)), n)
  {
    var s' := Apply(v, s, Retrieve(step));
    assert s'.rings.Keys == s.rings.Keys;
  }

  /** The work left after a step of the consumer on the ring it is at. */
  lemma WorkAfterTaking(
    s: System, t: nat, r: P.State, unsent: seq<byte>, staging: seq<A.Tagged>, final: bool, moved: bool,
    taken: seq<byte>, n: nat)
    requires t in s.rings && t < n && Held(s.rings[t]) == taken + Held(r)
    ensures var pc := A.InCall(t, final, moved);
            Work(After(s, t, r, unsent, staging, pc), n) == WorkOf(A.Held(Abs(s).rings, n) - |taken|, pc, r.cons, n)
  {
    AbsAfter(s, t, r, unsent, staging, A.InCall(t, final, moved));
    HeldAfterTaking(s, t, r, taken, n);
  }

  /** What a step inside a call takes, and what it takes off the call. */
  lemma StepInCall(v: Variant, s: System, step: P.Action)
    requires Inv(v, s) && Enabled(v, s, Retrieve(step))
    ensures s.pc.tid in s.unsent
    ensures var t, final, moved, r := s.pc.tid, s.pc.final, s.pc.moved, s.rings[s.pc.tid];
            var r', taken := P.Apply(v, r, step), TakenBy(r, step);
            && Held(r) == taken + Held(r')
            && CallWork(A.InCall(t, final, moved || step.PublishOut?), r'.cons) - 6 * |taken| < CallWork(s.pc, r.cons)
  {
    CallHasRoom(v, s);
    var t, final, moved, room := s.pc.tid, s.pc.final, s.pc.moved, A.STAGING_SIZE - |s.staging|;
    ConsumerStep(v, s.rings[t], step, s.unsent[t], final, moved, t, room);
    CallShrinks(v, s.rings[t], step, final, moved, t, room);
  }

  lemma RetrieveShrinksWork(v: Variant, s: System, step: P.Action, n: nat)
    requires Inv(v, s) && Bounded(s, n) && Enabled(v, s, Retrieve(step))
    ensures Work(Apply(v, s, Retrieve(step)), n) < Work(s, n)
  {
    StepInCall(v, s, step);
    var r := s.rings[s.pc.tid];
    TakingShrinksWork(s, P.Apply(v, r, step), s.pc.moved || step.PublishOut?, TakenBy(r, step), n);
  }

  lemma TakingShrinksWork(s: System, r': P.State, moved: bool, taken: seq<byte>, n: nat)
    requires s.pc.InCall? && s.pc.tid in s.rings && s.pc.tid < n && Held(s.rings[s.pc.tid]) == taken + Held(r')
    requires CallWork(A.InCall(s.pc.tid, s.pc.final, moved), r'.cons) - 6 * |taken|
             < CallWork(s.pc, s.rings[s.pc.tid].cons)
    ensures var t := s.pc.tid;
            Work(After(s, t, r', A.Get(s.unsent, t), s.staging + A.Tag(t, taken), A.InCall(t, s.pc.final, moved)), n)
            < Work(s, n)
  {
    var t := s.pc.tid;
    WorkAfterTaking(s, t, r', A.Get(s.unsent, t), s.staging + A.Tag(t, taken), s.pc.final, moved, taken, n);
  }

  /** Before a call begins and after it ends the consumer is inside no ring. */
  lemma CallBoundaries(v: Variant, s: System, b: A.Action)
    requires RingsOk(v, s) && Enabled(v, s, Control(b)) && !b.Stop?
    ensures ConsumerAt(s).CIdle? && ConsumerAt(Apply(v, s, Control(b))).CIdle?
  {
    if b.StartRetrieve? {
      assert s.pc.tid in s.rings;
      assert RingOk(v, s.rings[s.pc.tid], s.unsent[s.pc.tid], s.pc, s.pc.tid, A.STAGING_SIZE - |s.staging|);
    }
  }

  lemma ControlShrinksWork(v: Variant, s: System, b: A.Action, n: nat)
    requires RingsOk(v, s) && !s.running && Bounded(s, n) && Enabled(v, s, Control(b))
    ensures var s' := Apply(v, s, Control(b)); !s'.running && Bounded(s', n) && Work(s', n) < Work(s, n)
  {
    CallBoundaries(v, s, b);
    A.ControlShrinksWork(v, Abs(s), b, n);
    A.ControlKeepsStreams(v, Abs(s), b);
    assert Abs(Apply(v, s, Control(b))) == A.Apply(v, Abs(s), b);
  }

  lemma StoppedStepShrinksWork(v: Variant, s: System, a: Action, n: nat)
    requires Inv(v, s) && !s.running && Bounded(s, n) && Enabled(v, s, a)
    ensures var s' := Apply(v, s, a); !s'.running && Bounded(s', n) && Work(s', n) < Work(s, n)
  {
    NoProducersAfterStop(v, s, a);
    match a
    case Retrieve(step) => RetrieveStaysBounded(v, s, step, n); RetrieveShrinksWork(v, s, step, n);
    case Control(b) => ControlShrinksWork(v, s, b, n);
  }

  /** What was copied in the current call is still held. */
  lemma CopiedIsHeld(v: Variant, r: P.State, pc: A.Pc, t: nat, room: int)
    requires P.Inv(v, r) && ConsumerOk(r, pc, t, room) && pc.InCall? && pc.tid == t
    ensures CallWork(pc, r.cons) + 2 + |Held(r)| >= 0
  {
    HeldIsUnread(v, r);
  }

  lemma WorkIsNatural(v: Variant, s: System, n: nat)
    requires Inv(v, s) && Bounded(s, n)
    ensures Work(s, n) >= 0
  {
    if s.pc.InCall? {
      CallHasRoom(v, s);
      var t := s.pc.tid;
      CopiedIsHeld(v, s.rings[t], s.pc, t, A.STAGING_SIZE - |s.staging|);
      HeldOfOne(Abs(s).rings, n, t);
    }
  }

  lemma {:induction false} HeldOfOne(rings: map<nat, seq<byte>>, n: nat, t: nat)
    ensures A.Held(rings, n) >= 0 && (t in rings && t < n ==> A.Held(rings, n) >= |rings[t]|)
  {
    if n > 0 {
      HeldOfOne(rings, n - 1, t);
    }
  }

  lemma StepKeepsInv(v: Variant, s: System, a: Action)
    requires Inv(v, s) && Enabled(v, s, a)
    ensures Inv(v, Apply(v, s, a))
  {
    StepSimulates(v, s, a);
    A.RunKeepsInv(v, Abs(s), Image(v, s, a));
  }

  /** Once stopped, the logger ends within the work left, each load and each copied byte counted. */
  lemma {:induction false} StoppedLoggerTerminates(v: Variant, s: System, acts: seq<Action>, n: nat)
    requires Inv(v, s) && !s.running && Bounded(s, n) && Runnable(v, s, acts)
    ensures |acts| <= Work(s, n)
    decreases |acts|
  {
    WorkIsNatural(v, s, n);
    if acts != [] {
      StepKeepsInv(v, s, acts[0]);
      StoppedStepShrinksWork(v, s, acts[0], n);
      StoppedLoggerTerminates(v, Apply(v, s, acts[0]), acts[1..], n);
    }
  }

  /** Until it is done, the consumer thread always has a step to take, whatever the others do. */
  lemma ConsumerIsNeverStuck(v: Variant, s: System)
    requires Inv(v, s) && !s.pc.Done?
    ensures exists a :: Enabled(v, s, a) && (a.Retrieve? || (a.Control? && !a.a.Stop?))
  {
    if s.pc.InCall? {
      var a := CallGoesOn(v, s);
    } else {
      var b := LoopGoesOn(v, s);
    }
  }

  /** Outside `retrive` the consumer's next step is the one of the byte queues. */
  lemma LoopGoesOn(v: Variant, s: System) returns (b: A.Action)
    requires A.Inv(Abs(s)) && !s.pc.Done? && !s.pc.InCall?
    ensures Enabled(v, s, Control(b)) && !b.Stop?
  {
    b := A.ConsumerGoesOn(v, Abs(s));
  }

  /** Inside a ring the consumer always has a next byte to copy, or a release to make. */
  lemma ReadGoesOn(v: Variant, r: P.State) returns (step: P.Action)
    requires P.Inv(v, r) && !r.cons.CIdle?
    ensures (step.Read? || step.PublishOut?) && P.Enabled(v, r, step)
  {
    step := if |r.cons.got| < P.ReadLen(|r.buf|, r.out, r.cons) then P.Read else P.PublishOut;
  }

  /** So does every call of `retrive`, at any time. */
  lemma CallGoesOn(v: Variant, s: System) returns (a: Action)
    requires Inv(v, s) && s.pc.InCall?
    ensures Enabled(v, s, a) && (a.Retrieve? || a == Control(A.EndRetrieve))
  {
    CallHasRoom(v, s);
    var r := s.rings[s.pc.tid];
    if !r.cons.CIdle? {
      var step := ReadGoesOn(v, r);
      a := Retrieve(step);
    } else if s.pc.moved {
      a := Control(A.EndRetrieve);
    } else {
      a := Retrieve(P.LoadIn(A.STAGING_SIZE - |s.staging|));
    }
  }

  lemma StoppedStepStays(v: Variant, s: System, a: Action)
    requires Enabled(v, s, a) && (a.Retrieve? || (a.Control? && !a.a.Stop?))
    ensures Apply(v, s, a).running == s.running && Apply(v, s, a).logged == s.logged
  {
  }

  /** After the stop nothing more is logged. */
  lemma {:induction false} StoppedStays(v: Variant, s: System, acts: seq<Action>)
    requires Inv(v, s) && !s.running && Runnable(v, s, acts)
    ensures var s' := Run(v, s, acts); Inv(v, s') && !s'.running && s'.logged == s.logged
    decreases |acts|
  {
    if acts != [] {
      NoProducersAfterStop(v, s, acts[0]);
      StoppedStepStays(v, s, acts[0]);
      StepKeepsInv(v, s, acts[0]);
      StoppedStays(v, Apply(v, s, acts[0]), acts[1..]);
    }
  }

  /** A stopped logger that cannot go on has delivered everything: it is done. */
  lemma StuckIsDelivered(v: Variant, s: System)
    requires Inv(v, s) && forall a :: !Enabled(v, s, a)
    ensures s.pc.Done? && (forall t :: t in s.logged ==> A.Project(s.output, t) == s.logged[t])
    ensures A.TagsIn(s.output, s.logged.Keys)
  {
    if !s.pc.Done? {
      ConsumerIsNeverStuck(v, s);
    }
    A.DoneIsDelivered(Abs(s));
  }

  lemma StopStops(v: Variant, s: System, n: nat)
    requires Inv(v, s) && s.running && A.AllSent(s.unsent)
    ensures Enabled(v, s, Control(A.Stop))
    ensures var s1 := Apply(v, s, Control(A.Stop)); !s1.running && s1.logged == s.logged && Work(s1, n) == Work(s, n)
    ensures Bounded(Apply(v, s, Control(A.Stop)), n) <==> Bounded(s, n)
  {
    assert Abs(Apply(v, s, Control(A.Stop))) == Abs(s).(running := false);
  }

  /** Everything logged before the stop is delivered. */
  ghost predicate Delivered(s: System, logged: map<nat, seq<byte>>) {
    && s.pc.Done? && (forall t :: t in logged ==> A.Project(s.output, t) == logged[t])
    && A.TagsIn(s.output, logged.Keys)
  }

  lemma StoppedDelivers(v: Variant, s: System, after: seq<Action>, n: nat)
    requires Inv(v, s) && !s.running && Bounded(s, n) && Runnable(v, s, after)
    ensures |after| <= Work(s, n)
    ensures (forall a :: !Enabled(v, Run(v, s, after), a)) ==> Delivered(Run(v, s, after), s.logged)
  {
    StoppedLoggerTerminates(v, s, after, n);
    StoppedStays(v, s, after);
    if forall a :: !Enabled(v, Run(v, s, after), a) {
      StuckIsDelivered(v, Run(v, s, after));
    }
  }

  /**
   * `stop` delivers. It can be called in any state of any run in which the logging threads have sent their records;
   * whatever the consumer is at then, it makes at most as many steps as there is work left, and when it cannot go on,
   * it is done and the output has each thread's bytes completely, in order and once, and nothing else.
   */
  lemma StopDelivers(v: Variant, acts: seq<Action>, after: seq<Action>, n: nat)
    requires Runnable(v, Initial, acts) && Run(v, Initial, acts).running && A.AllSent(Run(v, Initial, acts).unsent)
    ensures Enabled(v, Run(v, Initial, acts), Control(A.Stop))
    ensures var s, s1 := Run(v, Initial, acts), Apply(v, Run(v, Initial, acts), Control(A.Stop));
            Bounded(s, n) && Runnable(v, s1, after) ==>
              && |after| <= Work(s, n)
              && ((forall a :: !Enabled(v, Run(v, s1, after), a)) ==> Delivered(Run(v, s1, after), s.logged))
  {
    var _ := FromStart(v, acts);
    var s, s1 := Run(v, Initial, acts), Apply(v, Run(v, Initial, acts), Control(A.Stop));
    StopStops(v, s, n);
    StepKeepsInv(v, s, Control(A.Stop));
    if Bounded(s, n) && Runnable(v, s1, after) {
      StoppedDelivers(v, s1, after, n);
    }
  }
}
