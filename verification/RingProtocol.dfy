/**
 * The ring under concurrency: one thread inside `append`, one inside `retrive` (src/log/RingBuffer.cpp:7-75).
 * Every load of the other side's index, every copied byte and every index publication is a step of its own, and
 * the steps of the two threads interleave freely.
 */
module RingProtocol {
  import opened Common
  import opened RingBuffers

  /**
   * Where the producer is inside `append`. `out` is its one load of the read index and `k` counts the bytes copied
   * in the current segment. History: `base` bytes had been accepted, and `seenC` consumed, at that load.
   */
  datatype Producer =
    | PIdle
    | PFirst(data: seq<byte>, out: nat, k: nat, base: nat, seenC: nat)
    | PSecond(data: seq<byte>, out: nat, done: nat, k: nat, base: nat, seenC: nat)

  /**
   * Where the consumer is inside `retrive`. `inp` is its one load of the write index and `got` the bytes copied out
   * in the current segment. History: `seenP` bytes had been accepted at that load.
   */
  datatype Consumer =
    | CIdle
    | CFirst(want: nat, inp: nat, got: seq<byte>, seenP: nat)
    | CSecond(rest: nat, inp: nat, got: seq<byte>, seenP: nat)

  /** History: `accepted` holds every byte published so far and `returned` every byte released by the consumer. */
  datatype State = State(
    buf: seq<byte>, inp: nat, out: nat, prod: Producer, cons: Consumer,
    accepted: seq<byte>, returned: seq<byte>)

  datatype Action = LoadOut(data: seq<byte>) | Write | PublishIn | LoadIn(want: nat) | Read | PublishOut

  function SnapshotOf(s: State): Ring {
    Ring(s.buf, s.inp, s.out)
  }

  /** Index in the data of the first byte of the current segment. */
  function SourceOf(p: Producer): nat {
    if p.PSecond? then p.done else 0
  }

  /** Length of the segment the producer is in, from the write index at its start. */
  function WriteLen(v: Variant, size: nat, inp: nat, p: Producer): int {
    match p
    case PIdle => 0
    case PFirst(data, out, _, _, _) => FirstLen(v, size, inp, out, |data|)
    case PSecond(data, out, done, _, _, _) => if done <= |data| then SecondLen(v, out, |data| - done) else 0
  }

  /** Length of the segment the consumer is in, from the read index at its start. */
  function ReadLen(size: nat, out: nat, c: Consumer): int {
    match c
    case CIdle => 0
    case CFirst(want, inp, _, _) => FirstRead(size, inp, out, want)
    case CSecond(rest, inp, _, _) => Min(rest, inp)
  }

  /**
   * The written code is only entered when its guard holds at the load (`GuardSurvivesConsumerIff` says when a caller
   * can know that); the repaired code always.
   */
  predicate Enabled(v: Variant, s: State, a: Action) {
    match a
    case LoadOut(data) =>
      s.prod.PIdle? && data != [] && (v.AsWritten? ==> AppendGuard(|s.buf|, s.inp, s.out, |data|))
    case Write => !s.prod.PIdle? && s.prod.k < WriteLen(v, |s.buf|, s.inp, s.prod)
    case PublishIn => !s.prod.PIdle? && s.prod.k == WriteLen(v, |s.buf|, s.inp, s.prod)
    case LoadIn(want) => s.cons.CIdle? && want > 0
    case Read => !s.cons.CIdle? && |s.cons.got| < ReadLen(|s.buf|, s.out, s.cons)
    case PublishOut => !s.cons.CIdle? && |s.cons.got| == ReadLen(|s.buf|, s.out, s.cons)
  }

  /** A store outside the storage has no effect here; `Safety` shows that it never happens. */
  function Poke(buf: seq<byte>, i: nat, b: byte): seq<byte> {
    if i < |buf| then buf[i := b] else buf
  }

  function Peek(buf: seq<byte>, i: nat): byte {
    if i < |buf| then buf[i] else 0
  }

  function Segment(data: seq<byte>, from: nat, k: nat): seq<byte> {
    if from + k <= |data| then data[from..from + k] else []
  }

  function CountOne(p: Producer): Producer {
    match p
    case PIdle => PIdle
    case PFirst(data, out, k, base, seenC) => PFirst(data, out, k + 1, base, seenC)
    case PSecond(data, out, done, k, base, seenC) => PSecond(data, out, done, k + 1, base, seenC)
  }

  function WriteOne(s: State): State
    requires !s.prod.PIdle?
  {
    s.(buf := Poke(s.buf, s.inp + s.prod.k, Peek(s.prod.data, SourceOf(s.prod) + s.prod.k)),
       prod := CountOne(s.prod))
  }

  function Apply(v: Variant, s: State, a: Action): State
    requires Enabled(v, s, a)
  {
    match a
    case LoadOut(data) => s.(prod := PFirst(data, s.out, 0, |s.accepted|, |s.returned|))
    case Write => WriteOne(s)
    case PublishIn =>
      s.(inp := Wrap(s.inp + s.prod.k, |s.buf|),
         accepted := s.accepted + Segment(s.prod.data, SourceOf(s.prod), s.prod.k),
         prod := match s.prod
                 case PFirst(data, out, k, base, seenC) =>
                   if s.inp >= out && k < |data| then PSecond(data, out, k, 0, base, seenC) else PIdle
                 case _ => PIdle)
    case LoadIn(want) => s.(cons := CFirst(want, s.inp, [], |s.accepted|))
    case Read => s.(cons := s.cons.(got := s.cons.got + [Peek(s.buf, s.out + |s.cons.got|)]))
    case PublishOut =>
      var released := s.(out := Wrap(s.out + |s.cons.got|, |s.buf|), returned := s.returned + s.cons.got);
      (match s.cons
       case CFirst(want, inp, got, seenP) =>
         released.(cons := if inp < s.out && |got| < want then CSecond(want - |got|, inp, [], seenP) else CIdle)
       case _ => released.(cons := CIdle))
  }

  // -------- runs --------

  predicate Runnable(v: Variant, s: State, acts: seq<Action>)
    decreases |acts|
  {
    acts == [] || (Enabled(v, s, acts[0]) && Runnable(v, Apply(v, s, acts[0]), acts[1..]))
  }

  function Run(v: Variant, s: State, acts: seq<Action>): State
    requires Runnable(v, s, acts)
    decreases |acts|
  {
    if acts == [] then s else Run(v, Apply(v, s, acts[0]), acts[1..])
  }

  function Initial(buf: seq<byte>): State {
    State(buf, 0, 0, PIdle, CIdle, [], [])
  }

  // -------- invariant --------

  function Slot(i: nat, size: nat): nat
    requires size > 0
  {
    i % size
  }

  /** Every byte of the stream from `from` on is in its slot. */
  ghost predicate InSlots(buf: seq<byte>, stream: seq<byte>, from: nat)
    requires |buf| > 0
  {
    forall i {:trigger stream[i]} :: from <= i < |stream| ==> buf[Slot(i, |buf|)] == stream[i]
  }

  /** The indices are the two byte counters modulo the size, and every unread byte is in its slot. */
  ghost predicate Core(s: State) {
    var size := |s.buf|;
    && size > 0
    && |s.returned| <= |s.accepted| < |s.returned| + size
    && s.inp == Slot(|s.accepted|, size) && s.out == Slot(|s.returned|, size)
    && s.returned == s.accepted[..|s.returned|]
    && InSlots(s.buf, s.accepted, |s.returned|)
  }

  /** The producer's snapshot may be stale, but the room it computes from it is really free. */
  ghost predicate RoomOk(v: Variant, size: nat, inp: nat, p: Producer, accepted: seq<byte>, consumed: nat)
    requires size > 0 && !p.PIdle?
  {
    var len := WriteLen(v, size, inp, p);
    && p.seenC <= consumed && p.out == Slot(p.seenC, size)
    && 0 <= len && inp + len <= size
    && p.seenC <= p.base < p.seenC + size && |accepted| + len < p.seenC + size
    && SourceOf(p) + len <= |p.data|
    && match p
       case PFirst(data, out, _, base, _) =>
         && data != [] && base == |accepted|
         && (v.AsWritten? ==> AppendGuard(size, inp, out, |data|))
       case PSecond(data, _, done, _, base, seenC) =>
         && done < |data| && |accepted| == base + done && accepted[base..] == data[..done]
         && done + len == Min(|data|, seenC + size - 1 - base)
  }

  /** The bytes counted as copied are in place. */
  ghost predicate CopiedOk(v: Variant, buf: seq<byte>, inp: nat, p: Producer)
    requires !p.PIdle?
  {
    && p.k <= WriteLen(v, |buf|, inp, p) <= |buf| - inp
    && buf[inp..inp + p.k] == Segment(p.data, SourceOf(p), p.k)
  }

  ghost predicate ProducerOk(v: Variant, buf: seq<byte>, inp: nat, p: Producer, accepted: seq<byte>, consumed: nat)
    requires |buf| > 0
  {
    p.PIdle? || (RoomOk(v, |buf|, inp, p, accepted, consumed) && CopiedOk(v, buf, inp, p))
  }

  /** The consumer's snapshot may be stale, but everything it copies is published. */
  ghost predicate ConsumerOk(size: nat, out: nat, c: Consumer, accepted: seq<byte>, consumed: nat)
    requires size > 0
  {
    var len := ReadLen(size, out, c);
    c.CIdle? || (
      && consumed + len <= c.seenP <= |accepted| && c.inp == Slot(c.seenP, size)
      && |c.got| <= len && out + len <= size
      && c.got == accepted[consumed..consumed + |c.got|])
  }

  ghost predicate Inv(v: Variant, s: State) {
    && Core(s)
    && ProducerOk(v, s.buf, s.inp, s.prod, s.accepted, |s.returned|)
    && ConsumerOk(|s.buf|, s.out, s.cons, s.accepted, |s.returned|)
  }

  // -------- every step keeps the invariant --------

  lemma LoadOutKeepsInv(v: Variant, s: State, data: seq<byte>)
    requires Inv(v, s) && Enabled(v, s, LoadOut(data))
    ensures Inv(v, Apply(v, s, LoadOut(data)))
  {
    ModDistance(|s.accepted|, |s.returned|, |s.buf|);
    assert s.buf[s.inp..s.inp + 0] == Segment(data, 0, 0);
  }

  /** The next slot to be written holds no unread byte. */
  lemma WriteIsFree(v: Variant, s: State, i: nat)
    requires Inv(v, s) && Enabled(v, s, Write) && |s.returned| <= i < |s.accepted|
    ensures Slot(i, |s.buf|) != s.inp + s.prod.k
  {
    ModAdvance(|s.accepted|, s.prod.k, |s.buf|);
    ModDistance(|s.accepted| + s.prod.k, i, |s.buf|);
  }

  lemma WriteKeepsCore(v: Variant, s: State)
    requires Inv(v, s) && Enabled(v, s, Write)
    ensures Core(Apply(v, s, Write))
  {
    forall i | |s.returned| <= i < |s.accepted|
      ensures Slot(i, |s.buf|) != s.inp + s.prod.k
    {
      WriteIsFree(v, s, i);
    }
  }

  lemma CopiedGrows(buf: seq<byte>, inp: nat, data: seq<byte>, from: nat, k: nat)
    requires inp + k < |buf| && from + k < |data|
    requires buf[inp..inp + k] == Segment(data, from, k)
    ensures Poke(buf, inp + k, data[from + k])[inp..inp + k + 1] == Segment(data, from, k + 1)
  {
    assert buf[inp + k := data[from + k]][inp..inp + k + 1] == buf[inp..inp + k] + [data[from + k]];
  }

  /** Counting a byte does not change the producer's view of the room. */
  lemma CountKeepsRoom(v: Variant, size: nat, inp: nat, p: Producer, accepted: seq<byte>, consumed: nat)
    requires size > 0 && !p.PIdle? && RoomOk(v, size, inp, p, accepted, consumed)
    ensures RoomOk(v, size, inp, CountOne(p), accepted, consumed)
  {
  }

  lemma CountKeepsSegment(v: Variant, size: nat, inp: nat, p: Producer)
    requires !p.PIdle?
    ensures var p' := CountOne(p);
            && !p'.PIdle? && p'.k == p.k + 1 && p'.data == p.data && SourceOf(p') == SourceOf(p)
            && WriteLen(v, size, inp, p') == WriteLen(v, size, inp, p)
  {
  }

  /** One more byte of the segment is in place. */
  lemma WriteKeepsCopied(v: Variant, s: State)
    requires !s.prod.PIdle? && CopiedOk(v, s.buf, s.inp, s.prod)
    requires s.prod.k < WriteLen(v, |s.buf|, s.inp, s.prod) && SourceOf(s.prod) + s.prod.k < |s.prod.data|
    ensures CopiedOk(v, WriteOne(s).buf, s.inp, CountOne(s.prod))
  {
    CountKeepsSegment(v, |s.buf|, s.inp, s.prod);
    CopiedGrows(s.buf, s.inp, s.prod.data, SourceOf(s.prod), s.prod.k);
  }

  lemma WriteKeepsInv(v: Variant, s: State)
    requires Inv(v, s) && Enabled(v, s, Write)
    ensures Inv(v, Apply(v, s, Write))
  {
    WriteKeepsCore(v, s);
    CountKeepsRoom(v, |s.buf|, s.inp, s.prod, s.accepted, |s.returned|);
    WriteKeepsCopied(v, s);
  }

  lemma SegmentInSlots(buf: seq<byte>, inp: nat, stream: seq<byte>, segment: seq<byte>, from: nat)
    requires |buf| > 0 && inp == Slot(|stream|, |buf|) && InSlots(buf, stream, from)
    requires inp + |segment| <= |buf| && buf[inp..inp + |segment|] == segment
    ensures InSlots(buf, stream + segment, from)
  {
    forall i | from <= i < |stream + segment|
      ensures buf[Slot(i, |buf|)] == (stream + segment)[i]
    {
      if i < |stream| {
        assert (stream + segment)[i] == stream[i];
      } else {
        ModAdvance(|stream|, i - |stream|, |buf|);
        assert (stream + segment)[i] == segment[i - |stream|] == buf[inp + (i - |stream|)];
      }
    }
  }

  /** Publishing the current segment appends exactly its bytes to the accepted stream. */
  lemma PublishInKeepsCore(v: Variant, s: State)
    requires Inv(v, s) && Enabled(v, s, PublishIn)
    ensures Core(Apply(v, s, PublishIn))
  {
    SegmentInSlots(s.buf, s.inp, s.accepted, Segment(s.prod.data, SourceOf(s.prod), s.prod.k), |s.returned|);
    ModAdvance(|s.accepted|, s.prod.k, |s.buf|);
  }

  /** After the first segment the second one, computed from the same old snapshot, still fits into room that is free. */
  lemma PublishInKeepsProducer(v: Variant, s: State)
    requires Inv(v, s) && Enabled(v, s, PublishIn) && Apply(v, s, PublishIn).prod.PSecond?
    ensures var s' := Apply(v, s, PublishIn);
            |s'.buf| > 0 && ProducerOk(v, s'.buf, s'.inp, s'.prod, s'.accepted, |s'.returned|)
  {
    var s' := Apply(v, s, PublishIn);
    ModDistance(|s.accepted|, s.prod.seenC, |s.buf|);
    assert s'.accepted[s.prod.base..] == s.prod.data[..s.prod.k];
  }

  /** The consumer does not notice that more was accepted. */
  lemma PublishInKeepsConsumer(v: Variant, s: State)
    requires Inv(v, s) && Enabled(v, s, PublishIn)
    ensures var s' := Apply(v, s, PublishIn);
            ConsumerOk(|s'.buf|, s'.out, s'.cons, s'.accepted, |s'.returned|)
  {
    var c, bytes := |s.returned|, Segment(s.prod.data, SourceOf(s.prod), s.prod.k);
    if !s.cons.CIdle? {
      assert (s.accepted + bytes)[c..c + |s.cons.got|] == s.accepted[c..c + |s.cons.got|];
    }
  }

  lemma PublishInKeepsInv(v: Variant, s: State)
    requires Inv(v, s) && Enabled(v, s, PublishIn)
    ensures Inv(v, Apply(v, s, PublishIn))
  {
    PublishInKeepsCore(v, s);
    PublishInKeepsConsumer(v, s);
    if Apply(v, s, PublishIn).prod.PSecond? {
      PublishInKeepsProducer(v, s);
    }
  }

  lemma LoadInKeepsInv(v: Variant, s: State, want: nat)
    requires Inv(v, s) && Enabled(v, s, LoadIn(want))
    ensures Inv(v, Apply(v, s, LoadIn(want)))
  {
    ModDistance(|s.accepted|, |s.returned|, |s.buf|);
  }

  lemma ReadKeepsInv(v: Variant, s: State)
    requires Inv(v, s) && Enabled(v, s, Read)
    ensures Inv(v, Apply(v, s, Read))
  {
    var C, k := |s.returned|, |s.cons.got|;
    ModAdvance(C, k, |s.buf|);
    assert s.buf[Slot(C + k, |s.buf|)] == s.accepted[C + k];
    assert s.accepted[C..C + k + 1] == s.accepted[C..C + k] + [s.accepted[C + k]];
  }

  /** Releasing the copied segment moves the read index and the consumed count together. */
  lemma PublishOutKeepsCore(v: Variant, s: State)
    requires Inv(v, s) && Enabled(v, s, PublishOut)
    ensures Core(Apply(v, s, PublishOut))
  {
    var C, k := |s.returned|, |s.cons.got|;
    ModAdvance(C, k, |s.buf|);
    assert s.accepted[..C + k] == s.accepted[..C] + s.accepted[C..C + k];
  }

  /** What the second segment is going to copy was published before the consumer's index load. */
  lemma PublishOutKeepsConsumer(v: Variant, s: State)
    requires Inv(v, s) && Enabled(v, s, PublishOut)
    ensures var s' := Apply(v, s, PublishOut);
            ConsumerOk(|s'.buf|, s'.out, s'.cons, s'.accepted, |s'.returned|)
  {
    PublishOutKeepsCore(v, s);
    var s' := Apply(v, s, PublishOut);
    if s'.cons.CSecond? {
      ModDistance(s'.cons.seenP, |s'.returned|, |s.buf|);
    }
  }

  lemma PublishOutKeepsInv(v: Variant, s: State)
    requires Inv(v, s) && Enabled(v, s, PublishOut)
    ensures Inv(v, Apply(v, s, PublishOut))
  {
    PublishOutKeepsCore(v, s);
    PublishOutKeepsConsumer(v, s);
  }

  lemma StepKeepsInv(v: Variant, s: State, a: Action)
    requires Inv(v, s) && Enabled(v, s, a)
    ensures Inv(v, Apply(v, s, a))
  {
    match a
    case LoadOut(data) => LoadOutKeepsInv(v, s, data);
    case Write => WriteKeepsInv(v, s);
    case PublishIn => PublishInKeepsInv(v, s);
    case LoadIn(want) => LoadInKeepsInv(v, s, want);
    case Read => ReadKeepsInv(v, s);
    case PublishOut => PublishOutKeepsInv(v, s);
  }

  lemma {:induction false} RunKeepsInv(v: Variant, s: State, acts: seq<Action>)
    requires Inv(v, s) && Runnable(v, s, acts)
    ensures Inv(v, Run(v, s, acts))
    decreases |acts|
  {
    if acts != [] {
      StepKeepsInv(v, s, acts[0]);
      RunKeepsInv(v, Apply(v, s, acts[0]), acts[1..]);
    }
  }

  // -------- what every run guarantees --------

  /** The index ranges [a, a + m) and [b, b + n) have no index in common. */
  predicate Apart(a: int, m: int, b: int, n: int) {
    m <= 0 || n <= 0 || a + m <= b || b + n <= a
  }

  /** The segment being copied in and the segment being copied out share no slot, and both lie in the storage. */
  ghost predicate CopiesAreSafe(v: Variant, s: State) {
    var size := |s.buf|;
    var m, n := WriteLen(v, size, s.inp, s.prod), ReadLen(size, s.out, s.cons);
    && Apart(s.inp, m, s.out, n)
    && 0 <= m <= size - s.inp
    && 0 <= n <= size - s.out
  }

  lemma InvMakesCopiesSafe(v: Variant, s: State)
    requires Inv(v, s)
    ensures CopiesAreSafe(v, s)
  {
    var size := |s.buf|;
    var m, n := WriteLen(v, size, s.inp, s.prod), ReadLen(size, s.out, s.cons);
    if !Apart(s.inp, m, s.out, n) {
      var shared := Max(s.inp, s.out);
      ModAdvance(|s.accepted|, shared - s.inp, size);
      ModAdvance(|s.returned|, shared - s.out, size);
      ModDistance(|s.accepted| + (shared - s.inp), |s.returned| + (shared - s.out), size);
    }
  }

  /** The content a reader would compute from storage and indices is the part of the stream not yet returned. */
  lemma HeldIsUnread(s: State)
    requires Core(s)
    ensures WellFormed(SnapshotOf(s)) && Contents(SnapshotOf(s)) == s.accepted[|s.returned|..]
  {
    var size, P, C := |s.buf|, |s.accepted|, |s.returned|;
    var held := Contents(SnapshotOf(s));
    ModDistance(P, C, size);
    forall j | 0 <= j < P - C
      ensures held[j] == s.accepted[C + j]
    {
      assert s.buf[Slot(C + j, size)] == s.accepted[C + j];
      if s.out + j <= size {
        ModAdvance(C, j, size);
      } else {
        ModAdvance(C, size - s.out, size);
        ModAdvance(C + (size - s.out), j - (size - s.out), size);
      }
    }
  }

  /**
   * Main result. After any interleaving: what was returned is a prefix of what was accepted; the rest, fewer than
   * `size` bytes, is exactly what the indices delimit; the two copies never touch a common slot nor leave the storage.
   */
  lemma Safety(v: Variant, buf: seq<byte>, acts: seq<Action>)
    requires buf != [] && Runnable(v, Initial(buf), acts)
    ensures var s := Run(v, Initial(buf), acts);
            && s.returned <= s.accepted
            && WellFormed(SnapshotOf(s)) && |s.buf| == |buf|
            && s.accepted == s.returned + Contents(SnapshotOf(s))
            && |Contents(SnapshotOf(s))| < |buf|
            && CopiesAreSafe(v, s)
  {
    RunKeepsInv(v, Initial(buf), acts);
    RunKeepsSize(v, Initial(buf), acts);
    HeldIsUnread(Run(v, Initial(buf), acts));
    InvMakesCopiesSafe(v, Run(v, Initial(buf), acts));
  }

  lemma {:induction false} RunKeepsSize(v: Variant, s: State, acts: seq<Action>)
    requires Runnable(v, s, acts)
    ensures |Run(v, s, acts).buf| == |s.buf|
    decreases |acts|
  {
    if acts != [] {
      RunKeepsSize(v, Apply(v, s, acts[0]), acts[1..]);
    }
  }

  /**
   * When `append` returns, it has accepted the longest prefix of its data that fits into the room seen at its one
   * load of the read index, whatever the consumer did meanwhile.
   */
  lemma AppendAcceptsWhatItSawRoomFor(v: Variant, s: State)
    requires Inv(v, s) && Enabled(v, s, PublishIn) && Apply(v, s, PublishIn).prod.PIdle?
    ensures var p, s' := s.prod, Apply(v, s, PublishIn);
            && p.base <= |s'.accepted|
            && |s'.accepted| - p.base == Min(|p.data|, p.seenC + |s.buf| - 1 - p.base)
            && s'.accepted[p.base..] == p.data[..|s'.accepted| - p.base]
  {
    ModDistance(|s.accepted|, s.prod.seenC, |s.buf|);
  }

  /** Nothing that was accepted or returned is taken back. */
  lemma {:induction false} StreamsGrow(v: Variant, s: State, acts: seq<Action>)
    requires Runnable(v, s, acts)
    ensures s.accepted <= Run(v, s, acts).accepted && s.returned <= Run(v, s, acts).returned
    ensures s.prod.PIdle? && (forall i :: 0 <= i < |acts| ==> !acts[i].LoadOut?) ==>
              Run(v, s, acts).accepted == s.accepted
    ensures s.cons.CIdle? && (forall i :: 0 <= i < |acts| ==> !acts[i].LoadIn?) ==>
              Run(v, s, acts).returned == s.returned
    decreases |acts|
  {
    if acts != [] {
      StreamsGrow(v, Apply(v, s, acts[0]), acts[1..]);
    }
  }

  /** What the accepted stream must be when the current call of `append` returns. */
  ghost predicate CallHasAccepted(p: Producer, size: nat, accepted: seq<byte>)
    requires !p.PIdle?
  {
    var n := Min(|p.data|, p.seenC + size - 1 - p.base);
    0 <= n && p.base + n == |accepted| && accepted[p.base..] == p.data[..n]
  }

  /** A step that does not end the call leaves its data and its view of the room alone. */
  lemma CallStays(v: Variant, s: State, a: Action, accepted: seq<byte>)
    requires !s.prod.PIdle? && Enabled(v, s, a)
    ensures var s1 := Apply(v, s, a);
            if s1.prod.PIdle? then a.PublishIn?
            else CallHasAccepted(s1.prod, |s1.buf|, accepted) <==> CallHasAccepted(s.prod, |s.buf|, accepted)
  {
  }

  lemma {:induction false} CallAccepts(v: Variant, s: State, acts: seq<Action>)
    requires Inv(v, s) && !s.prod.PIdle? && Runnable(v, s, acts) && Run(v, s, acts).prod.PIdle?
    requires forall i :: 0 <= i < |acts| ==> !acts[i].LoadOut?
    ensures CallHasAccepted(s.prod, |s.buf|, Run(v, s, acts).accepted)
    decreases |acts|
  {
    var s1 := Apply(v, s, acts[0]);
    StepKeepsInv(v, s, acts[0]);
    CallStays(v, s, acts[0], Run(v, s, acts).accepted);
    if s1.prod.PIdle? {
      AppendAcceptsWhatItSawRoomFor(v, s);
      StreamsGrow(v, s1, acts[1..]);
    } else {
      CallAccepts(v, s1, acts[1..]);
    }
  }

  /**
   * One call of `append` among any steps of the consumer, from its load to its return: it accepts the longest prefix
   * that fits into the room there was at the load, and nothing else, just like the sequential call made then.
   */
  lemma ConcurrentAppend(v: Variant, s: State, data: seq<byte>, acts: seq<Action>)
    requires Inv(v, s) && Enabled(v, s, LoadOut(data)) && Runnable(v, Apply(v, s, LoadOut(data)), acts)
    requires forall i :: 0 <= i < |acts| ==> !acts[i].LoadOut?
    requires Run(v, Apply(v, s, LoadOut(data)), acts).prod.PIdle?
    ensures var n := Min(|data|, |s.buf| - 1 - (|s.accepted| - |s.returned|));
            0 <= n && Run(v, Apply(v, s, LoadOut(data)), acts).accepted == s.accepted + data[..n]
  {
    var s1 := Apply(v, s, LoadOut(data));
    StepKeepsInv(v, s, LoadOut(data));
    CallAccepts(v, s1, acts);
    StreamsGrow(v, s1, acts);
    var accepted := Run(v, s1, acts).accepted;
    assert accepted == accepted[..|s.accepted|] + accepted[|s.accepted|..];
  }

  /** The second segment of a retrieve begins at the start of the storage. */
  ghost predicate SecondAtStart(s: State) {
    s.cons.CSecond? ==> s.out == 0
  }

  /** How many bytes a call of `retrive` has yet to release. */
  function StillToTake(s: State): int {
    match s.cons
    case CIdle => 0
    case CFirst(want, _, _, seenP) => Min(want, seenP - |s.returned|)
    case CSecond(rest, _, _, seenP) => Min(rest, seenP - |s.returned|)
  }

  lemma StepTakes(v: Variant, s: State, a: Action)
    requires Inv(v, s) && Enabled(v, s, a) && !a.LoadIn? && SecondAtStart(s)
    ensures var s' := Apply(v, s, a);
            SecondAtStart(s') && |s'.returned| + StillToTake(s') == |s.returned| + StillToTake(s)
  {
    if a.PublishOut? {
      ModDistance(s.cons.seenP, |s.returned|, |s.buf|);
    }
  }

  lemma {:induction false} CallTakes(v: Variant, s: State, acts: seq<Action>)
    requires Inv(v, s) && SecondAtStart(s) && Runnable(v, s, acts)
    requires forall i :: 0 <= i < |acts| ==> !acts[i].LoadIn?
    ensures var s' := Run(v, s, acts);
            && Inv(v, s') && |s'.returned| + StillToTake(s') == |s.returned| + StillToTake(s)
    decreases |acts|
  {
    if acts != [] {
      StepKeepsInv(v, s, acts[0]);
      StepTakes(v, s, acts[0]);
      CallTakes(v, Apply(v, s, acts[0]), acts[1..]);
    }
  }

  /**
   * One call of `retrive` among any steps of the producer, from its load to its return: it returns the longest
   * requested prefix of what the ring held at the load, just like the sequential call made then.
   */
  lemma ConcurrentRetrieve(v: Variant, s: State, want: nat, acts: seq<Action>)
    requires Inv(v, s) && Enabled(v, s, LoadIn(want)) && Runnable(v, Apply(v, s, LoadIn(want)), acts)
    requires forall i :: 0 <= i < |acts| ==> !acts[i].LoadIn?
    requires Run(v, Apply(v, s, LoadIn(want)), acts).cons.CIdle?
    ensures var held := Contents(SnapshotOf(s));
            Run(v, Apply(v, s, LoadIn(want)), acts).returned == s.returned + held[..Min(want, |held|)]
  {
    var s1 := Apply(v, s, LoadIn(want));
    HeldIsUnread(s);
    StepKeepsInv(v, s, LoadIn(want));
    CallTakes(v, s1, acts);
    StreamsGrow(v, s1, acts);
    var s' := Run(v, s1, acts);
    var n := |s'.returned|;
    assert s'.returned == s'.accepted[..n] == s.accepted[..n];
    assert s.accepted[..n] == s.accepted[..|s.returned|] + s.accepted[|s.returned|..n];
  }

  /** The bytes a publication of the producer adds. */
  function PublishedBytes(s: State): seq<byte>
    requires !s.prod.PIdle?
  {
    Segment(s.prod.data, SourceOf(s.prod), s.prod.k)
  }

  lemma UnreadGrows(accepted: seq<byte>, bytes: seq<byte>, c: nat)
    requires c <= |accepted|
    ensures (accepted + bytes)[c..] == accepted[c..] + bytes
  {
  }

  lemma UnreadShrinks(accepted: seq<byte>, returned: seq<byte>, got: seq<byte>)
    requires |returned + got| <= |accepted| && returned + got == accepted[..|returned + got|]
    ensures accepted[|returned|..] == got + accepted[|returned + got|..]
  {
    assert accepted[|returned|..|returned + got|] == (returned + got)[|returned|..] == got;
  }

  /** What each step does to the unread part of the stream. */
  lemma UnreadMoves(v: Variant, s: State, a: Action)
    requires Core(s) && Enabled(v, s, a) && Core(Apply(v, s, a))
    ensures var s' := Apply(v, s, a);
            var q, q' := s.accepted[|s.returned|..], s'.accepted[|s'.returned|..];
            match a
            case PublishIn => q' == q + PublishedBytes(s)
            case PublishOut => q == s.cons.got + q'
            case _ => q' == q
  {
    match a
    case PublishIn => UnreadGrows(s.accepted, PublishedBytes(s), |s.returned|);
    case PublishOut => UnreadShrinks(s.accepted, s.returned, s.cons.got);
    case _ =>
  }

  /**
   * Seen from outside the ring is a byte queue: publishing appends the next part of the record, releasing removes the
   * bytes that were copied out from the front, and every other step leaves the queue as it is.
   */
  lemma RingRefinesQueue(v: Variant, s: State, a: Action)
    requires Inv(v, s) && Enabled(v, s, a)
    ensures var s' := Apply(v, s, a);
            && Core(s) && WellFormed(SnapshotOf(s)) && WellFormed(SnapshotOf(s'))
            && var q, q' := Contents(SnapshotOf(s)), Contents(SnapshotOf(s'));
            match a
            case PublishIn => q' == q + PublishedBytes(s)
            case PublishOut => q == s.cons.got + q'
            case _ => q' == q
  {
    var s' := Apply(v, s, a);
    StepKeepsInv(v, s, a);
    HeldIsUnread(s);
    HeldIsUnread(s');
    UnreadMoves(v, s, a);
  }

  // -------- the undisturbed call is the call of module RingBuffers --------

  lemma {:induction false} RunAppended(v: Variant, s: State, a: seq<Action>, b: seq<Action>)
    requires Runnable(v, s, a) && Runnable(v, Run(v, s, a), b)
    ensures Runnable(v, s, a + b) && Run(v, s, a + b) == Run(v, Run(v, s, a), b)
    decreases |a|
  {
    if a == [] {
      assert a + b == b;
    } else {
      RunAppended(v, Apply(v, s, a[0]), a[1..], b);
      assert (a + b)[0] == a[0] && (a + b)[1..] == a[1..] + b;
    }
  }

  lemma OverwriteByPokes(buf: seq<byte>, at: nat, source: seq<byte>, k: nat)
    requires at + |source| <= |buf| && k <= |source| && buf[at..at + k] == source[..k]
    ensures k == |source| ==> Overwrite(buf, at, source) == buf
    ensures k < |source| ==> Overwrite(Poke(buf, at + k, source[k]), at, source) == Overwrite(buf, at, source)
  {
    if k < |source| {
      var poked := buf[at + k := source[k]];
      assert poked[..at] == buf[..at] && poked[at + |source|..] == buf[at + |source|..];
    } else {
      assert source[..k] == source;
    }
  }

  /** The producer is inside a segment of `len` bytes that fits, and the first `k` of them are in place. */
  predicate SegmentReady(s: State, len: int) {
    var p := s.prod;
    && !p.PIdle? && p.k <= len
    && s.inp + len <= |s.buf| && SourceOf(p) + len <= |p.data|
    && s.buf[s.inp..s.inp + p.k] == Segment(p.data, SourceOf(p), p.k)
  }

  /** The bytes of the current segment. */
  function Source(s: State, len: nat): seq<byte>
    requires SegmentReady(s, len)
  {
    s.prod.data[SourceOf(s.prod)..SourceOf(s.prod) + len]
  }

  /** `t` is `s` after its current segment was copied and published. */
  predicate SegmentDone(s: State, len: nat, t: State)
    requires SegmentReady(s, len)
  {
    var p := s.prod;
    && t.buf == Overwrite(s.buf, s.inp, Source(s, len))
    && t.inp == Wrap(s.inp + len, |s.buf|) && t.out == s.out
    && t.prod == if p.PFirst? && s.inp >= p.out && len < |p.data|
                 then PSecond(p.data, p.out, len, 0, p.base, p.seenC) else PIdle
  }

  lemma WriteAdvancesSegment(s: State, len: nat)
    requires SegmentReady(s, len) && s.prod.k < len
    ensures var t := WriteOne(s); SegmentReady(t, len) && Source(t, len) == Source(s, len)
  {
    CopiedGrows(s.buf, s.inp, s.prod.data, SourceOf(s.prod), s.prod.k);
  }

  lemma WriteStoresSource(s: State, len: nat)
    requires SegmentReady(s, len) && s.prod.k < len
    ensures WriteOne(s).buf == Poke(s.buf, s.inp + s.prod.k, Source(s, len)[s.prod.k])
  {
  }

  lemma CopiedIsPrefix(s: State, len: nat)
    requires SegmentReady(s, len)
    ensures s.buf[s.inp..s.inp + s.prod.k] == Source(s, len)[..s.prod.k]
  {
    PrefixOfSlice(s.prod.data, SourceOf(s.prod), len, s.prod.k);
  }

  lemma WriteBeforeDone(s: State, len: nat, u: State)
    requires SegmentReady(s, len) && s.prod.k < len
    requires SegmentReady(WriteOne(s), len) && SegmentDone(WriteOne(s), len, u)
    ensures SegmentDone(s, len, u)
  {
    var k := s.prod.k;
    WriteAdvancesSegment(s, len);
    WriteStoresSource(s, len);
    CopiedIsPrefix(s, len);
    OverwriteByPokes(s.buf, s.inp, Source(s, len), k);
  }

  lemma PublishIsDone(v: Variant, s: State, len: nat)
    requires SegmentReady(s, len) && s.prod.k == len && Enabled(v, s, PublishIn)
    ensures SegmentDone(s, len, Apply(v, s, PublishIn))
  {
    assert Source(s, len)[..len] == Source(s, len);
    OverwriteByPokes(s.buf, s.inp, Source(s, len), len);
  }

  /** Finishing the current segment: all remaining byte copies, then the publication. */
  lemma {:induction false} FinishSegment(v: Variant, s: State, len: nat) returns (acts: seq<Action>)
    requires SegmentReady(s, len) && len == WriteLen(v, |s.buf|, s.inp, s.prod)
    ensures Runnable(v, s, acts) && SegmentDone(s, len, Run(v, s, acts))
    decreases len - s.prod.k
  {
    if s.prod.k < len {
      WriteAdvancesSegment(s, len);
      var rest := FinishSegment(v, WriteOne(s), len);
      acts := [Write] + rest;
      assert acts[1..] == rest;
      WriteBeforeDone(s, len, Run(v, s, acts));
    } else {
      acts := [PublishIn];
      assert acts[1..] == [] && Run(v, s, acts) == Apply(v, s, PublishIn);
      PublishIsDone(v, s, len);
    }
  }

  lemma UndisturbedFirst(v: Variant, s: State, data: seq<byte>) returns (acts: seq<Action>)
    requires Inv(v, s) && Enabled(v, s, LoadOut(data))
    ensures Runnable(v, s, acts)
    ensures var s1, len := Apply(v, s, LoadOut(data)), FirstLen(v, |s.buf|, s.inp, s.out, |data|);
            && SegmentReady(s1, len) && SegmentDone(s1, len, Run(v, s, acts))
            && Source(s1, len) == data[..len]
  {
    var load := [LoadOut(data)];
    LoadOutKeepsInv(v, s, data);
    var s1 := Apply(v, s, load[0]);
    assert load[1..] == [] && Run(v, s, load) == s1;
    var first := FinishSegment(v, s1, FirstLen(v, |s.buf|, s.inp, s.out, |data|));
    RunAppended(v, s, load, first);
    acts := load + first;
  }

  /** With the consumer quiet, the steps of one append do to the ring what `AppendSpec` says. */
  lemma UndisturbedAppend(v: Variant, s: State, data: seq<byte>) returns (acts: seq<Action>)
    requires Inv(v, s) && Enabled(v, s, LoadOut(data))
    ensures Runnable(v, s, acts) && Run(v, s, acts).prod.PIdle?
    ensures WellFormed(SnapshotOf(s))
    ensures var o := AppendSpec(v, SnapshotOf(s), data); o.Appended? && SnapshotOf(Run(v, s, acts)) == o.ring
  {
    acts := UndisturbedFirst(v, s, data);
    if Run(v, s, acts).prod.PSecond? {
      RunKeepsInv(v, s, acts);
      var second := UndisturbedRest(v, Run(v, s, acts));
      RunAppended(v, s, acts, second);
      acts := acts + second;
    }
  }

  lemma UndisturbedRest(v: Variant, s: State) returns (acts: seq<Action>)
    requires Inv(v, s) && s.prod.PSecond? && s.prod.k == 0 && s.prod.out == s.out
    ensures Runnable(v, s, acts) && Run(v, s, acts).prod.PIdle?
    ensures var o := AppendRest(v, SnapshotOf(s), s.prod.data[s.prod.done..], s.prod.done);
            o.Appended? && SnapshotOf(Run(v, s, acts)) == o.ring
  {
    var len := WriteLen(v, |s.buf|, s.inp, s.prod);
    acts := FinishSegment(v, s, len);
    assert s.prod.data[s.prod.done..][..len] == Source(s, len);
  }

  /** The consumer is inside a segment of `len` bytes within the storage, and has copied the first of them. */
  predicate ReadReady(s: State, len: int) {
    var c := s.cons;
    && !c.CIdle? && |c.got| <= len
    && s.out + len <= |s.buf|
    && c.got == s.buf[s.out..s.out + |c.got|]
  }

  /** `t` is `s` after the consumer's current segment was copied out and released. */
  predicate ReadDone(s: State, len: nat, t: State)
    requires ReadReady(s, len)
  {
    var c := s.cons;
    && t.buf == s.buf && t.inp == s.inp && t.out == Wrap(s.out + len, |s.buf|)
    && t.returned == s.returned + s.buf[s.out..s.out + len]
    && t.cons == if c.CFirst? && c.inp < s.out && len < c.want then CSecond(c.want - len, c.inp, [], c.seenP) else CIdle
  }

  lemma ReadAdvances(v: Variant, s: State, len: nat)
    requires ReadReady(s, len) && |s.cons.got| < len == ReadLen(|s.buf|, s.out, s.cons)
    ensures var t := Apply(v, s, Read);
            && ReadReady(t, len) && len == ReadLen(|t.buf|, t.out, t.cons)
            && |t.cons.got| == |s.cons.got| + 1
  {
    var k := |s.cons.got|;
    assert s.buf[s.out..s.out + k + 1] == s.buf[s.out..s.out + k] + [s.buf[s.out + k]];
  }

  lemma ReadBeforeDone(v: Variant, s: State, len: nat, u: State)
    requires ReadReady(s, len) && |s.cons.got| < len == ReadLen(|s.buf|, s.out, s.cons)
    requires ReadReady(Apply(v, s, Read), len) && ReadDone(Apply(v, s, Read), len, u)
    ensures ReadDone(s, len, u)
  {
  }

  predicate IsConsumerStep(a: Action) {
    a.LoadIn? || a.Read? || a.PublishOut?
  }

  predicate ConsumerOnly(acts: seq<Action>) {
    forall i :: 0 <= i < |acts| ==> IsConsumerStep(acts[i])
  }

  /** Finishing the consumer's current segment: all remaining byte copies, then the release. */
  lemma {:induction false} FinishRead(v: Variant, s: State, len: nat) returns (acts: seq<Action>)
    requires ReadReady(s, len) && len == ReadLen(|s.buf|, s.out, s.cons)
    ensures ConsumerOnly(acts) && Runnable(v, s, acts) && ReadDone(s, len, Run(v, s, acts))
    decreases len - |s.cons.got|
  {
    if |s.cons.got| < len {
      ReadAdvances(v, s, len);
      var rest := FinishRead(v, Apply(v, s, Read), len);
      acts := [Read] + rest;
      assert acts[1..] == rest;
      ReadBeforeDone(v, s, len, Run(v, s, acts));
    } else {
      acts := [PublishOut];
      assert acts[1..] == [] && Run(v, s, acts) == Apply(v, s, PublishOut);
    }
  }

  lemma UndisturbedFirstRead(v: Variant, s: State, want: nat) returns (acts: seq<Action>)
    requires WellFormed(SnapshotOf(s)) && Enabled(v, s, LoadIn(want))
    ensures ConsumerOnly(acts) && Runnable(v, s, acts)
    ensures var s1, len := Apply(v, s, LoadIn(want)), FirstRead(|s.buf|, s.inp, s.out, want);
            ReadReady(s1, len) && ReadDone(s1, len, Run(v, s, acts))
  {
    var load := [LoadIn(want)];
    var s1 := Apply(v, s, load[0]);
    assert load[1..] == [] && Run(v, s, load) == s1;
    var first := FinishRead(v, s1, FirstRead(|s.buf|, s.inp, s.out, want));
    RunAppended(v, s, load, first);
    acts := load + first;
  }

  /** The two segments of a wrapped read, one after the other, are the read of `RetrieveSpec`. */
  lemma TwoReads(s: State, want: nat, t: State, u: State)
    requires WellFormed(SnapshotOf(s)) && s.inp < s.out && |s.buf| - s.out < want
    requires t.buf == s.buf && t.inp == s.inp && t.out == 0 && t.returned == s.returned + s.buf[s.out..]
    requires var len2 := Min(want - (|s.buf| - s.out), s.inp);
             && u.buf == s.buf && u.inp == s.inp && u.out == Wrap(len2, |s.buf|)
             && u.returned == t.returned + s.buf[0..len2]
    ensures var (r, bytes) := RetrieveSpec(SnapshotOf(s), want);
            SnapshotOf(u) == r && u.returned == s.returned + bytes
  {
    var len2 := Min(want - (|s.buf| - s.out), s.inp);
    ConcatAssociates(s.returned, s.buf[s.out..], s.buf[0..len2]);
  }

  /** The second segment of a read that wrapped. */
  lemma UndisturbedSecondRead(v: Variant, s: State, want: nat, t: State) returns (acts: seq<Action>)
    requires WellFormed(SnapshotOf(s)) && s.inp < s.out && |s.buf| - s.out < want
    requires t.buf == s.buf && t.inp == s.inp && t.out == 0 && t.returned == s.returned + s.buf[s.out..]
    requires t.cons.CSecond? && t.cons.rest == want - (|s.buf| - s.out) && t.cons.inp == s.inp && t.cons.got == []
    ensures Runnable(v, t, acts) && Run(v, t, acts).cons.CIdle?
    ensures var (r, bytes) := RetrieveSpec(SnapshotOf(s), want);
            SnapshotOf(Run(v, t, acts)) == r && Run(v, t, acts).returned == s.returned + bytes
  {
    acts := FinishRead(v, t, ReadLen(|t.buf|, t.out, t.cons));
    TwoReads(s, want, t, Run(v, t, acts));
  }

  /** With the producer quiet, the steps of one retrive do to the ring, and return, what `RetrieveSpec` says. */
  lemma UndisturbedRetrieve(v: Variant, s: State, want: nat) returns (acts: seq<Action>)
    requires WellFormed(SnapshotOf(s)) && Enabled(v, s, LoadIn(want))
    ensures Runnable(v, s, acts) && Run(v, s, acts).cons.CIdle?
    ensures var (r, bytes) := RetrieveSpec(SnapshotOf(s), want);
            SnapshotOf(Run(v, s, acts)) == r && Run(v, s, acts).returned == s.returned + bytes
  {
    acts := UndisturbedFirstRead(v, s, want);
    var t := Run(v, s, acts);
    if t.cons.CSecond? {
      assert s.buf[s.out..|s.buf|] == s.buf[s.out..];
      var second := UndisturbedSecondRead(v, s, want, t);
      RunAppended(v, s, acts, second);
      acts := acts + second;
    }
  }

  // -------- entering the written append beside a running consumer --------

  /** What a caller of the code as written can check, and rely on until the load, whatever the consumer does. */
  predicate StableGuard(size: nat, inp: nat, out: nat, n: nat) {
    (inp >= out && out > 0) || n < size - inp
  }

  /** The consumer cannot move the read index past a write index in front of it, and so not to 0 either. */
  lemma ConsumerStepKeepsStable(v: Variant, s: State, a: Action, n: nat)
    requires Inv(v, s) && Enabled(v, s, a) && IsConsumerStep(a) && StableGuard(|s.buf|, s.inp, s.out, n)
    ensures var s' := Apply(v, s, a); |s'.buf| == |s.buf| && StableGuard(|s'.buf|, s'.inp, s'.out, n)
  {
    if a.PublishOut? {
      ModDistance(|s.accepted|, |s.returned|, |s.buf|);
    }
  }

  lemma {:induction false} ConsumerRunKeepsStable(v: Variant, s: State, acts: seq<Action>, n: nat)
    requires Inv(v, s) && Runnable(v, s, acts) && ConsumerOnly(acts) && StableGuard(|s.buf|, s.inp, s.out, n)
    ensures var t := Run(v, s, acts); |t.buf| == |s.buf| && StableGuard(|t.buf|, t.inp, t.out, n)
    decreases |acts|
  {
    if acts != [] {
      StepKeepsInv(v, s, acts[0]);
      ConsumerStepKeepsStable(v, s, acts[0], n);
      ConsumerRunKeepsStable(v, Apply(v, s, acts[0]), acts[1..], n);
    }
  }

  /** What the consumer has copied so far is still in the storage. */
  lemma ReadIsReady(v: Variant, s: State)
    requires Inv(v, s) && !s.cons.CIdle?
    ensures ReadReady(s, ReadLen(|s.buf|, s.out, s.cons))
  {
    forall j | 0 <= j < |s.cons.got|
      ensures s.cons.got[j] == s.buf[s.out + j]
    {
      ModAdvance(|s.returned|, j, |s.buf|);
      assert s.buf[Slot(|s.returned| + j, |s.buf|)] == s.accepted[|s.returned| + j];
    }
  }

  /** With the write index behind the read index, a consumer that reads on comes to the read index 0. */
  lemma ConsumerWraps(v: Variant, s: State) returns (acts: seq<Action>)
    requires Inv(v, s) && s.inp < s.out
    ensures ConsumerOnly(acts) && Runnable(v, s, acts)
    ensures var t := Run(v, s, acts); |t.buf| == |s.buf| && t.inp == s.inp && t.out == 0
  {
    acts := [];
    if !s.cons.CIdle? {
      ReadIsReady(v, s);
      acts := FinishRead(v, s, ReadLen(|s.buf|, s.out, s.cons));
      RunKeepsInv(v, s, acts);
    }
    var t := Run(v, s, acts);
    if t.out != 0 {
      var rest := UndisturbedFirstRead(v, t, |t.buf|);
      RunAppended(v, s, acts, rest);
      acts := acts + rest;
    }
  }

  /**
   * The exact condition for entering the code as written beside a running consumer: the guard holds at the load of the
   * read index, after any steps of the consumer, exactly when the stable one holds before them.
   */
  lemma GuardSurvivesConsumerIff(v: Variant, s: State, n: nat)
    requires Inv(v, s)
    ensures StableGuard(|s.buf|, s.inp, s.out, n)
            <==> forall acts :: ConsumerOnly(acts) && Runnable(v, s, acts) ==>
                   var t := Run(v, s, acts); AppendGuard(|t.buf|, t.inp, t.out, n)
  {
    if StableGuard(|s.buf|, s.inp, s.out, n) {
      forall acts | ConsumerOnly(acts) && Runnable(v, s, acts)
        ensures var t := Run(v, s, acts); AppendGuard(|t.buf|, t.inp, t.out, n)
      {
        ConsumerRunKeepsStable(v, s, acts, n);
      }
    } else {
      var acts: seq<Action> := [];
      if s.out != 0 {
        acts := ConsumerWraps(v, s);
      }
      var t := Run(v, s, acts);
      assert ConsumerOnly(acts) && Runnable(v, s, acts) && !AppendGuard(|t.buf|, t.inp, t.out, n);
    }
  }
}
