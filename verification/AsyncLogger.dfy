/**
 * The asynchronous logger (src/log/Log.cpp:50-150): any number of logging threads, one ring each, and one consumer
 * thread that moves the bytes of all rings through a staging buffer to the appender.
 */
module AsyncLoggers {
  import opened Common
  import opened RingBuffers

  const RING_CAPACITY: nat := 32767
  const STAGING_SIZE: nat := 65536
  const HIGH_WATER: nat := STAGING_SIZE - 2048
  const LOW_WATER: nat := 2048

  // -------- the retry loop of append --------

  /** What one call is asked to send: the written loop always starts from the beginning of the record. */
  function Request(v: Variant, data: seq<byte>, remain: nat): seq<byte>
    requires remain <= |data|
  {
    if v.AsWritten? then data else data[|data| - remain..]
  }

  /**
   * What `append` puts into the ring for one record when its successive calls of `RingBuffer::append` find room for
   * `rooms[0]`, `rooms[1]`, ... bytes.
   */
  function Sent(v: Variant, data: seq<byte>, remain: int, rooms: seq<nat>): seq<byte>
    requires remain <= |data|
    decreases |rooms|
  {
    if remain <= 0 || rooms == [] then
      []
    else
      var request := Request(v, data, remain);
      var n := Min(|request|, rooms[0]);
      request[..n] + Sent(v, data, remain - n, rooms[1..])
  }

  /** The bytes `append` still counts as missing after those calls; it returns once there are none. */
  function Missing(v: Variant, size: nat, remain: int, rooms: seq<nat>): int
    decreases |rooms|
  {
    if remain <= 0 || rooms == [] then
      remain
    else
      Missing(v, size, remain - Min(if v.AsWritten? then size else remain, rooms[0]), rooms[1..])
  }

  lemma FirstCall(v: Variant, data: seq<byte>, remain: nat, rooms: seq<nat>)
    requires 0 < remain <= |data| && rooms != []
    ensures var request := Request(v, data, remain);
            var n := Min(|request|, rooms[0]);
            && Sent(v, data, remain, rooms) == request[..n] + Sent(v, data, remain - n, rooms[1..])
            && Missing(v, |data|, remain, rooms) == Missing(v, |data|, remain - n, rooms[1..])
  {
  }

  /** The loop itself, against the rooms its calls are going to find. */
  method AppendRecord(v: Variant, data: seq<byte>, rooms: seq<nat>) returns (ring: seq<byte>, remain: int)
    ensures ring == Sent(v, data, |data|, rooms)
    ensures remain == Missing(v, |data|, |data|, rooms)
  {
    remain := |data|;
    ring := [];
    var ahead := rooms;
    while remain > 0 && ahead != []
      invariant remain <= |data|
      invariant Sent(v, data, |data|, rooms) == ring + Sent(v, data, remain, ahead)
      invariant Missing(v, |data|, |data|, rooms) == Missing(v, |data|, remain, ahead)
      decreases |ahead|
    {
      var request := Request(v, data, remain);
      var n := Min(|request|, ahead[0]);
      FirstCall(v, data, remain, ahead);
      ConcatAssociates(ring, request[..n], Sent(v, data, remain - n, ahead[1..]));
      ring := ring + request[..n];
      remain := remain - n;
      ahead := ahead[1..];
    }
  }

  /** What is requested now is what one call takes of it, followed by what is requested next. */
  lemma RequestSplits(data: seq<byte>, remain: nat, n: nat)
    requires n <= remain <= |data|
    ensures Request(Repaired, data, remain)
            == Request(Repaired, data, remain)[..n] + Request(Repaired, data, remain - n)
  {
    var from := |data| - remain;
    assert data[from..][..n] == data[from..from + n];
    assert data[from..] == data[from..from + n] + data[from + n..];
  }

  lemma {:induction false} RepairedRetrySends(data: seq<byte>, remain: nat, rooms: seq<nat>)
    requires remain <= |data|
    ensures var left := Missing(Repaired, |data|, remain, rooms);
            && 0 <= left <= remain
            && Request(Repaired, data, remain) == Sent(Repaired, data, remain, rooms) + Request(Repaired, data, left)
    decreases |rooms|
  {
    var request, left := Request(Repaired, data, remain), Missing(Repaired, |data|, remain, rooms);
    if remain > 0 && rooms != [] {
      var n := Min(remain, rooms[0]);
      FirstCall(Repaired, data, remain, rooms);
      RepairedRetrySends(data, remain - n, rooms[1..]);
      RequestSplits(data, remain, n);
      ConcatAssociates(request[..n], Sent(Repaired, data, remain - n, rooms[1..]), Request(Repaired, data, left));
    } else {
      assert [] + request == request;
    }
  }

  /** Once the repaired loop ends, the record was delivered exactly. */
  lemma RepairedRetryDelivers(data: seq<byte>, rooms: seq<nat>)
    requires Missing(Repaired, |data|, |data|, rooms) <= 0
    ensures Sent(Repaired, data, |data|, rooms) == data
  {
    RepairedRetrySends(data, |data|, rooms);
    assert Request(Repaired, data, |data|) == data && Request(Repaired, data, 0) == [];
  }

  /** The first call that accepts anything finds room for all of it. */
  predicate AcceptedWhole(size: nat, rooms: seq<nat>)
    decreases |rooms|
  {
    rooms != [] && (if rooms[0] == 0 then AcceptedWhole(size, rooms[1..]) else rooms[0] >= size)
  }

  ghost predicate DeliversEveryRecord(size: nat, rooms: seq<nat>) {
    forall data: seq<byte> :: |data| == size ==> Sent(AsWritten, data, size, rooms) == data
  }

  lemma {:induction false} WholeIsDelivered(data: seq<byte>, rooms: seq<nat>)
    requires data != [] && AcceptedWhole(|data|, rooms)
    ensures Sent(AsWritten, data, |data|, rooms) == data
    decreases |rooms|
  {
    if rooms[0] == 0 {
      WholeIsDelivered(data, rooms[1..]);
      assert data[..0] + data == data;
    } else {
      assert data[..|data|] + [] == data;
    }
  }

  /** A record whose only distinguished byte is its first one. */
  function Marked(size: nat): seq<byte> {
    seq(size, i => if i == 0 then 1 else 0)
  }

  /** Number of first bytes of the record in what was sent. */
  function Marks(s: seq<byte>): nat {
    if s == [] then 0 else (if s[0] == 1 then 1 else 0) + Marks(s[1..])
  }

  lemma {:induction false} MarksConcat(a: seq<byte>, b: seq<byte>)
    ensures Marks(a + b) == Marks(a) + Marks(b)
  {
    if a == [] {
      assert a + b == b;
    } else {
      MarksConcat(a[1..], b);
      assert (a + b)[1..] == a[1..] + b;
    }
  }

  lemma {:induction false} NoMarks(s: seq<byte>)
    requires forall i :: 0 <= i < |s| ==> s[i] == 0
    ensures Marks(s) == 0
  {
    if s != [] {
      NoMarks(s[1..]);
    }
  }

  lemma MarkedPrefix(size: nat, n: nat)
    requires n <= size
    ensures Marks(Marked(size)[..n]) == if n == 0 then 0 else 1
  {
    if n > 0 {
      NoMarks(Marked(size)[..n][1..]);
    }
  }

  /** Every accepting call of the written loop sends the first byte again. */
  lemma {:induction false} WrittenRepeatsMark(size: nat, remain: int, rooms: seq<nat>)
    requires 0 < remain <= size && Missing(AsWritten, size, remain, rooms) <= 0
    ensures Marks(Sent(AsWritten, Marked(size), remain, rooms)) >= 1
    ensures remain == size && !AcceptedWhole(size, rooms) ==> Marks(Sent(AsWritten, Marked(size), remain, rooms)) >= 2
    decreases |rooms|
  {
    var data := Marked(size);
    var n := Min(size, rooms[0]);
    MarkedPrefix(size, n);
    MarksConcat(data[..n], Sent(AsWritten, data, remain - n, rooms[1..]));
    if remain - n > 0 {
      WrittenRepeatsMark(size, remain - n, rooms[1..]);
    }
  }

  /**
   * The written loop resends from the start of the record. Once it ends, it has delivered whatever record it was given
   * exactly when the first call that accepted anything accepted the whole record.
   */
  lemma WrittenRetryDeliversIff(size: nat, rooms: seq<nat>)
    requires size > 0 && Missing(AsWritten, size, size, rooms) <= 0
    ensures DeliversEveryRecord(size, rooms) <==> AcceptedWhole(size, rooms)
  {
    if AcceptedWhole(size, rooms) {
      forall data: seq<byte> | |data| == size
        ensures Sent(AsWritten, data, size, rooms) == data
      {
        WholeIsDelivered(data, rooms);
      }
    } else {
      WrittenRepeatsMark(size, size, rooms);
      MarkedPrefix(size, size);
      assert Marked(size)[..size] == Marked(size);
    }
  }

  /** A ring that has room for part of a record, and then is emptied by the consumer. */
  lemma PartThenEmptied(r: Ring, data: seq<byte>, k: nat)
    requires WellFormed(r) && 0 < k < |data| && k == |r.buf| - 1 - |Contents(r)|
    requires AppendGuard(|r.buf|, r.inp, r.out, |data|)
    ensures var o := AppendSpec(AsWritten, r, data);
            && o.Appended? && o.written == k && |o.ring.buf| == |r.buf|
            && var (emptied, taken) := RetrieveSpec(o.ring, |r.buf|);
            && taken == Contents(r) + data[..k]
            && WellFormed(emptied) && |emptied.buf| == |r.buf| && Contents(emptied) == []
  {
    WrittenAppendIsCorrectIff(r, data);
    var o := AppendSpec(AsWritten, r, data);
    RetrieveTakesPrefix(o.ring, |r.buf|);
    var (emptied, taken) := RetrieveSpec(o.ring, |r.buf|);
    assert |taken| == |Contents(o.ring)|;
    assert taken + [] == taken;
  }

  /** A record that fits into an empty ring is accepted whole. */
  lemma WholeIntoEmpty(r: Ring, data: seq<byte>)
    requires WellFormed(r) && Contents(r) == [] && 0 < |data| < |r.buf|
    ensures var o := AppendSpec(AsWritten, r, data); o.Appended? && o.written == |data| && Contents(o.ring) == data
  {
    SizesMeasureContents(r);
    WrittenAppendIsCorrectIff(r, data);
    assert [] + data[..|data|] == data;
  }

  /** What the loop sends when its first call finds room for `k` bytes and its second one for everything. */
  lemma {:induction false} TwoCallsSend(data: seq<byte>, k: nat, room: nat)
    requires 0 < k < |data| <= room
    ensures Missing(AsWritten, |data|, |data|, [k, room]) <= 0
    ensures Sent(AsWritten, data, |data|, [k, room]) == data[..k] + data != data
  {
    FirstCall(AsWritten, data, |data|, [k, room]);
    assert [k, room][1..] == [room];
    SecondCallSends(data, |data| - k, room);
  }

  lemma {:induction false} SecondCallSends(data: seq<byte>, remain: nat, room: nat)
    requires 0 < remain <= |data| <= room
    ensures Missing(AsWritten, |data|, remain, [room]) <= 0 && Sent(AsWritten, data, remain, [room]) == data
  {
    assert [room][1..] == [];
    assert data[..|data|] + [] == data;
    assert Sent(AsWritten, data, remain - |data|, []) == [];
  }

  /**
   * Such rooms, `k` and then `|r.buf| - 1`, are found on real rings: a record meets `k` free bytes, fewer than it
   * needs, and the consumer empties the ring before the retry. The reader gets the first `k` bytes of the record
   * twice.
   */
  lemma WrittenRetryRepeats(r: Ring, data: seq<byte>, k: nat)
    requires WellFormed(r) && 0 < k < |data| < |r.buf| && k == |r.buf| - 1 - |Contents(r)|
    requires AppendGuard(|r.buf|, r.inp, r.out, |data|)
    ensures var first := AppendSpec(AsWritten, r, data);
            && first.Appended? && first.written == k
            && var (emptied, taken) := RetrieveSpec(first.ring, |r.buf|);
            && taken == Contents(r) + data[..k] && WellFormed(emptied)
            && var second := AppendSpec(AsWritten, emptied, data);
            && second.Appended? && second.written == |data| && Contents(second.ring) == data
  {
    PartThenEmptied(r, data, k);
    WholeIntoEmpty(RetrieveSpec(AppendSpec(AsWritten, r, data).ring, |r.buf|).0, data);
  }

  /** One such ring: two bytes held, two more fit, and the record has three. */
  lemma WrittenRetryWitness()
    ensures var r, data: seq<byte> := Ring([0, 8, 9, 0, 0], 3, 1), [1, 2, 3];
            && WellFormed(r) && Contents(r) == [8, 9] && AppendGuard(|r.buf|, r.inp, r.out, |data|)
            && var (emptied, taken) := RetrieveSpec(AppendSpec(AsWritten, r, data).ring, |r.buf|);
            && taken == [8, 9, 1, 2] && WellFormed(emptied)
            && Contents(AppendSpec(AsWritten, emptied, data).ring) == [1, 2, 3]
  {
    WrittenRetryRepeats(Ring([0, 8, 9, 0, 0], 3, 1), [1, 2, 3], 2);
  }

  // -------- the whole system --------

  /** A byte on its way to the appender, with the thread that logged it as history. */
  datatype Tagged = Tagged(tid: nat, b: byte)

  /**
   * Where the consumer thread is in `threadFunc`; `final` marks the part after the main loop. InCall is inside a
   * `retrive`, and `moved` says whether that call has released any bytes yet.
   */
  datatype Pc =
    | Top
    | Scan(cursor: nat, final: bool)
    | Drain(tid: nat, final: bool)
    | InCall(tid: nat, final: bool, moved: bool)
    | Done

  /**
   * `rings` maps each thread to the published content of its ring, `unsent` to the suffix of its current record that
   * the retry loop has still to deliver. History: `logged` holds everything each thread passed to `append`.
   */
  datatype State = State(
    running: bool, rings: map<nat, seq<byte>>, unsent: map<nat, seq<byte>>, logged: map<nat, seq<byte>>,
    staging: seq<Tagged>, output: seq<Tagged>, pc: Pc)

  datatype Action =
    | Begin(tid: nat, data: seq<byte>)
    | Accept(tid: nat, k: nat)
    | Stop
    | EnterScan
    | Select(tid: nat)
    | StartRetrieve
    | Release(k: nat)
    | EndRetrieve
    | Leave
    | EndScan(timeUp: bool)

  predicate AllSent(unsent: map<nat, seq<byte>>) {
    forall t :: t in unsent ==> unsent[t] == []
  }

  /**
   * The written retry is only followed for records that the accepting call finds room for as a whole
   * (`WrittenRetryDeliversIff`); even then the call may publish them in two segments. `Stop` is called after the
   * logging threads were joined.
   */
  predicate Enabled(v: Variant, s: State, a: Action) {
    match a
    case Begin(t, data) => s.running && (t in s.unsent ==> s.unsent[t] == [])
    case Accept(t, k) =>
      && t in s.unsent && t in s.rings && 0 < k <= |s.unsent[t]| && |s.rings[t]| + k <= RING_CAPACITY
      && (v.AsWritten? ==> |s.rings[t]| + |s.unsent[t]| <= RING_CAPACITY)
    case Stop => s.running && AllSent(s.unsent)
    case EnterScan => s.pc.Top?
    case Select(t) =>
      s.pc.Scan? && t in s.rings && s.pc.cursor <= t && (forall u :: s.pc.cursor <= u < t ==> u !in s.rings)
    case StartRetrieve => s.pc.Drain? && s.pc.tid in s.rings && s.rings[s.pc.tid] != []
    case Release(k) =>
      && s.pc.InCall? && s.pc.tid in s.rings && |s.staging| <= STAGING_SIZE
      && 0 < k <= Min(|s.rings[s.pc.tid]|, STAGING_SIZE - |s.staging|)
    case EndRetrieve => s.pc.InCall? && s.pc.moved
    case Leave => s.pc.Drain? && s.pc.tid in s.rings && s.rings[s.pc.tid] == []
    case EndScan(_) => s.pc.Scan? && (forall u :: u in s.rings ==> u < s.pc.cursor)
  }

  function Tag(t: nat, bytes: seq<byte>): seq<Tagged> {
    seq(|bytes|, i requires 0 <= i < |bytes| => Tagged(t, bytes[i]))
  }

  /** Hands the staged bytes to the appender. */
  function Flush(s: State): State {
    s.(output := s.output + s.staging, staging := [])
  }

  function Get(m: map<nat, seq<byte>>, t: nat): seq<byte> {
    if t in m then m[t] else []
  }

  function Apply(v: Variant, s: State, a: Action): State
    requires Enabled(v, s, a)
  {
    match a
    case Begin(t, data) =>
      s.(rings := s.rings[t := Get(s.rings, t)],
         unsent := s.unsent[t := data],
         logged := s.logged[t := Get(s.logged, t) + data])
    case Accept(t, k) =>
      s.(rings := s.rings[t := s.rings[t] + s.unsent[t][..k]], unsent := s.unsent[t := s.unsent[t][k..]])
    case Stop => s.(running := false)
    case EnterScan => s.(pc := Scan(0, !s.running))
    case Select(t) => s.(pc := Drain(t, s.pc.final))
    case StartRetrieve => s.(pc := InCall(s.pc.tid, s.pc.final, false))
    case Release(k) =>
      var t, ring := s.pc.tid, s.rings[s.pc.tid];
      s.(staging := s.staging + Tag(t, ring[..k]), rings := s.rings[t := ring[k..]], pc := InCall(t, s.pc.final, true))
    case EndRetrieve => (if |s.staging| > HIGH_WATER then Flush(s) else s).(pc := Drain(s.pc.tid, s.pc.final))
    case Leave => s.(pc := Scan(s.pc.tid + 1, s.pc.final))
    case EndScan(timeUp) =>
      if s.pc.final then Flush(s).(pc := Done)
      else if |s.staging| > LOW_WATER || timeUp then Flush(s).(pc := Top)
      else s.(pc := Top)
  }

  predicate Runnable(v: Variant, s: State, acts: seq<Action>)
    decreases |acts|
  {
    acts == [] || (Enabled(v, s, acts[0]) && Runnable(v, Apply(v, s, acts[0]), acts[1..]))
  }

  function Run(v: Variant, s: State, acts: seq<Action>): State
    requires Runnable(v, s, acts)
    decreases |acts|
  {
    if acts == [] then s else Run(v, Apply(v, s, acts[0]), acts[1..])
  }

  const Initial := State(true, map[], map[], map[], [], [], Top)

  // -------- conservation --------

  /** The bytes of one thread within a tagged stream, in order. */
  function Project(s: seq<Tagged>, t: nat): seq<byte> {
    if s == [] then [] else (if s[0].tid == t then [s[0].b] else []) + Project(s[1..], t)
  }

  lemma {:induction false} ProjectConcat(a: seq<Tagged>, b: seq<Tagged>, t: nat)
    ensures Project(a + b, t) == Project(a, t) + Project(b, t)
  {
    if a == [] {
      assert a + b == b;
    } else {
      ProjectConcat(a[1..], b, t);
      assert (a + b)[0] == a[0] && (a + b)[1..] == a[1..] + b;
      var head := if a[0].tid == t then [a[0].b] else [];
      assert head + (Project(a[1..], t) + Project(b, t)) == (head + Project(a[1..], t)) + Project(b, t);
    }
  }

  lemma {:induction false} ProjectTag(u: nat, bytes: seq<byte>, t: nat)
    ensures Project(Tag(u, bytes), t) == if u == t then bytes else []
  {
    if bytes != [] {
      ProjectTag(u, bytes[1..], t);
      assert Tag(u, bytes)[1..] == Tag(u, bytes[1..]);
    }
  }

  ghost predicate TagsIn(s: seq<Tagged>, tids: set<nat>) {
    forall i :: 0 <= i < |s| ==> s[i].tid in tids
  }

  /** Every byte of thread `t` is in exactly one place, and the places are in order. */
  ghost predicate Conserved(s: State, t: nat)
    requires t in s.logged && t in s.rings && t in s.unsent
  {
    s.logged[t] == Project(s.output + s.staging, t) + s.rings[t] + s.unsent[t]
  }

  ghost predicate EmptyBelow(rings: map<nat, seq<byte>>, bound: nat) {
    forall t :: t in rings && t < bound ==> rings[t] == []
  }

  ghost predicate Final(s: State) {
    match s.pc
    case Top => true
    case Scan(cursor, final) => final ==> !s.running && EmptyBelow(s.rings, cursor)
    case Drain(t, final) => t in s.rings && (final ==> !s.running && EmptyBelow(s.rings, t))
    case InCall(t, final, moved) =>
      && t in s.rings && (final ==> !s.running && EmptyBelow(s.rings, t))
      && (!moved ==> s.rings[t] != [])
    case Done => !s.running && s.staging == [] && AllSent(s.rings)
  }

  /** A call may fill the staging buffer, and between two scans little is left in it. */
  function StagingBound(pc: Pc): nat {
    match pc
    case Top => LOW_WATER
    case InCall(_, _, moved) => if moved then STAGING_SIZE else HIGH_WATER
    case _ => HIGH_WATER
  }

  ghost predicate Inv(s: State) {
    && s.rings.Keys == s.unsent.Keys == s.logged.Keys
    && (forall t :: t in s.logged ==> Conserved(s, t))
    && TagsIn(s.output + s.staging, s.logged.Keys)
    && |s.staging| <= StagingBound(s.pc)
    && (!s.running ==> AllSent(s.unsent))
    && Final(s)
  }

  lemma {:induction false} NoForeignTags(s: seq<Tagged>, tids: set<nat>, t: nat)
    requires TagsIn(s, tids) && t !in tids
    ensures Project(s, t) == []
  {
    if s != [] {
      NoForeignTags(s[1..], tids, t);
    }
  }

  lemma BeginConserves(v: Variant, s: State, t: nat, data: seq<byte>, u: nat)
    requires Inv(s) && Enabled(v, s, Begin(t, data)) && u in Apply(v, s, Begin(t, data)).logged
    ensures Conserved(Apply(v, s, Begin(t, data)), u)
  {
    if u in s.logged {
      assert Conserved(s, u);
    } else {
      NoForeignTags(s.output + s.staging, s.logged.Keys, u);
    }
  }

  lemma AcceptConserves(v: Variant, s: State, t: nat, k: nat, u: nat)
    requires Inv(s) && Enabled(v, s, Accept(t, k)) && u in s.logged
    ensures Conserved(Apply(v, s, Accept(t, k)), u)
  {
    assert Conserved(s, u);
    if u == t {
      var out, ring, a, b := Project(s.output + s.staging, u), s.rings[u], s.unsent[u][..k], s.unsent[u][k..];
      assert s.unsent[u] == a + b;
      assert out + ring + (a + b) == out + (ring + a) + b;
    }
  }

  lemma BeginKeepsInv(v: Variant, s: State, t: nat, data: seq<byte>)
    requires Inv(s) && Enabled(v, s, Begin(t, data))
    ensures Inv(Apply(v, s, Begin(t, data)))
  {
    var s' := Apply(v, s, Begin(t, data));
    assert s.logged.Keys <= s'.logged.Keys;
    forall u | u in s'.logged
      ensures Conserved(s', u)
    {
      BeginConserves(v, s, t, data, u);
    }
  }

  lemma AcceptKeepsInv(v: Variant, s: State, t: nat, k: nat)
    requires Inv(s) && Enabled(v, s, Accept(t, k))
    ensures Inv(Apply(v, s, Accept(t, k)))
  {
    forall u | u in s.logged
      ensures Conserved(Apply(v, s, Accept(t, k)), u)
    {
      AcceptConserves(v, s, t, k, u);
    }
  }

  lemma MoveKeepsStream(all: seq<Tagged>, t: nat, ring: seq<byte>, k: nat)
    requires k <= |ring|
    ensures Project(all + Tag(t, ring[..k]), t) + ring[k..] == Project(all, t) + ring
  {
    ProjectConcat(all, Tag(t, ring[..k]), t);
    ProjectTag(t, ring[..k], t);
    assert Project(all, t) + ring == (Project(all, t) + ring[..k]) + ring[k..];
  }

  /** The bytes released from a ring are staged behind everything staged or output before. */
  lemma ReleaseConserves(v: Variant, s: State, k: nat, t: nat)
    requires Inv(s) && Enabled(v, s, Release(k)) && t in s.logged
    ensures Conserved(Apply(v, s, Release(k)), t)
  {
    assert Conserved(s, t);
    var u, all := s.pc.tid, s.output + s.staging;
    ConcatAssociates(s.output, s.staging, Tag(u, s.rings[u][..k]));
    if t == u {
      MoveKeepsStream(all, t, s.rings[t], k);
    } else {
      ProjectConcat(all, Tag(u, s.rings[u][..k]), t);
      ProjectTag(u, s.rings[u][..k], t);
      assert Project(all, t) + [] == Project(all, t);
    }
  }

  lemma ReleaseKeepsTags(s: State, t: nat, bytes: seq<byte>)
    requires TagsIn(s.output + s.staging, s.logged.Keys) && t in s.logged
    ensures TagsIn(s.output + (s.staging + Tag(t, bytes)), s.logged.Keys)
  {
    ConcatAssociates(s.output, s.staging, Tag(t, bytes));
  }

  lemma ReleaseKeepsInv(v: Variant, s: State, k: nat)
    requires Inv(s) && Enabled(v, s, Release(k))
    ensures Inv(Apply(v, s, Release(k)))
  {
    var s' := Apply(v, s, Release(k));
    ReleaseKeepsTags(s, s.pc.tid, s.rings[s.pc.tid][..k]);
    assert s'.rings.Keys == s.rings.Keys;
    forall t | t in s'.logged
      ensures Conserved(s', t)
    {
      ReleaseConserves(v, s, k, t);
    }
  }

  /** The steps that move no byte out of a ring or into one. */
  predicate IsControl(a: Action) {
    !(a.Begin? || a.Accept? || a.Release?)
  }

  lemma FlushKeepsStream(s: State)
    ensures Flush(s).output + Flush(s).staging == s.output + s.staging
  {
  }

  lemma ControlKeepsStreams(v: Variant, s: State, a: Action)
    requires Enabled(v, s, a) && IsControl(a)
    ensures var s' := Apply(v, s, a);
            && s'.output + s'.staging == s.output + s.staging
            && s'.rings == s.rings && s'.unsent == s.unsent && s'.logged == s.logged
  {
    FlushKeepsStream(s);
  }

  lemma ControlKeepsFinal(v: Variant, s: State, a: Action)
    requires Inv(s) && Enabled(v, s, a) && IsControl(a)
    ensures Final(Apply(v, s, a))
  {
  }

  lemma ControlKeepsBound(v: Variant, s: State, a: Action)
    requires |s.staging| <= StagingBound(s.pc) && Enabled(v, s, a) && IsControl(a)
    ensures |Apply(v, s, a).staging| <= StagingBound(Apply(v, s, a).pc)
  {
  }

  lemma ControlKeepsInv(v: Variant, s: State, a: Action)
    requires Inv(s) && Enabled(v, s, a) && IsControl(a)
    ensures Inv(Apply(v, s, a))
  {
    ControlKeepsStreams(v, s, a);
    ControlKeepsFinal(v, s, a);
    ControlKeepsBound(v, s, a);
    var s' := Apply(v, s, a);
    forall t | t in s'.logged
      ensures Conserved(s', t)
    {
      assert Conserved(s, t);
    }
  }

  lemma StepKeepsInv(v: Variant, s: State, a: Action)
    requires Inv(s) && Enabled(v, s, a)
    ensures Inv(Apply(v, s, a))
  {
    match a
    case Begin(t, data) => BeginKeepsInv(v, s, t, data);
    case Accept(t, k) => AcceptKeepsInv(v, s, t, k);
    case Release(k) => ReleaseKeepsInv(v, s, k);
    case _ => ControlKeepsInv(v, s, a);
  }

  lemma {:induction false} RunKeepsInv(v: Variant, s: State, acts: seq<Action>)
    requires Inv(s) && Runnable(v, s, acts)
    ensures Inv(Run(v, s, acts))
    decreases |acts|
  {
    if acts != [] {
      StepKeepsInv(v, s, acts[0]);
      RunKeepsInv(v, Apply(v, s, acts[0]), acts[1..]);
    }
  }

  /**
   * Main result. In every run that ends, the appender's output is an interleaving of the threads' streams: restricted
   * to one thread it is everything that thread logged, complete, in order and once; and it holds nothing else.
   */
  lemma OutputIsInterleaving(v: Variant, acts: seq<Action>)
    requires Runnable(v, Initial, acts) && Run(v, Initial, acts).pc.Done?
    ensures var s := Run(v, Initial, acts);
            && (forall t :: t in s.logged ==> Project(s.output, t) == s.logged[t])
            && TagsIn(s.output, s.logged.Keys)
  {
    RunKeepsInv(v, Initial, acts);
    DoneIsDelivered(Run(v, Initial, acts));
  }

  lemma DoneIsDelivered(s: State)
    requires Inv(s) && s.pc.Done?
    ensures (forall t :: t in s.logged ==> Project(s.output, t) == s.logged[t]) && TagsIn(s.output, s.logged.Keys)
  {
    assert s.output + s.staging == s.output;
    forall t | t in s.logged
      ensures Project(s.output, t) == s.logged[t]
    {
      assert Conserved(s, t);
    }
  }

  /** At every moment, what was output so far is a prefix of what each thread logged, and nothing staged is lost. */
  lemma OutputIsPrefix(v: Variant, acts: seq<Action>, t: nat)
    requires Runnable(v, Initial, acts) && t in Run(v, Initial, acts).logged
    ensures var s := Run(v, Initial, acts);
            && Project(s.output, t) <= s.logged[t]
            && Project(s.output, t) + Project(s.staging, t) <= s.logged[t]
  {
    RunKeepsInv(v, Initial, acts);
    var s := Run(v, Initial, acts);
    assert Conserved(s, t);
    ProjectConcat(s.output, s.staging, t);
  }

  /**
   * The staging buffer never overflows, and at the start of each retrieve it has room for 2048 more bytes, so that the
   * call can release something from a ring that is not empty.
   */
  lemma StagingNeverOverflows(v: Variant, acts: seq<Action>)
    requires Runnable(v, Initial, acts)
    ensures var s := Run(v, Initial, acts);
            && |s.staging| <= STAGING_SIZE
            && (s.pc.Drain? ==> s.pc.tid in s.rings && STAGING_SIZE - |s.staging| >= 2048)
            && (s.pc.InCall? && !s.pc.moved ==>
                  s.pc.tid in s.rings
                  && Enabled(v, s, Release(Min(|s.rings[s.pc.tid]|, STAGING_SIZE - |s.staging|))))
  {
    RunKeepsInv(v, Initial, acts);
  }

  // -------- when the appender gets its bytes --------

  /** The steps that hand the staged bytes over: above the high-water mark, or after a scan when there is reason to. */
  predicate IsFlush(s: State, a: Action) {
    || (a.EndRetrieve? && |s.staging| > 63488)
    || (a.EndScan? && s.pc.Scan? && (s.pc.final || |s.staging| > 2048 || a.timeUp))
  }

  /** Exactly these steps give the appender anything, and then everything that is staged. */
  lemma FlushesWhenDue(v: Variant, s: State, a: Action)
    requires Enabled(v, s, a)
    ensures var s' := Apply(v, s, a);
            && s'.output == (if IsFlush(s, a) then s.output + s.staging else s.output)
            && (IsFlush(s, a) ==> s'.staging == [])
            && (!IsFlush(s, a) && !a.Release? ==> s'.staging == s.staging)
  {
  }

  /** Between two scans at most 2048 bytes wait in the staging buffer. */
  lemma LittleIsStagedBetweenScans(v: Variant, acts: seq<Action>)
    requires Runnable(v, Initial, acts) && Run(v, Initial, acts).pc.Top?
    ensures |Run(v, Initial, acts).staging| <= 2048
  {
    RunKeepsInv(v, Initial, acts);
  }

  /** Every logged byte of the thread is in the output, still in its ring, or not sent yet. */
  ghost predicate OutputIsCurrent(s: State, t: nat)
    requires t in s.logged && t in s.rings && t in s.unsent
  {
    s.logged[t] == Project(s.output, t) + s.rings[t] + s.unsent[t]
  }

  /** After a flush nothing is held back: whatever left a ring is in the output. */
  lemma FlushBringsOutputUpToDate(v: Variant, s: State, a: Action, t: nat)
    requires Inv(s) && Enabled(v, s, a) && IsFlush(s, a) && t in s.logged
    ensures var s' := Apply(v, s, a);
            t in s'.logged && t in s'.rings && t in s'.unsent && s'.staging == [] && OutputIsCurrent(s', t)
  {
    StepKeepsInv(v, s, a);
    var s' := Apply(v, s, a);
    FlushesWhenDue(v, s, a);
    assert Conserved(s', t) && s'.output + [] == s'.output;
  }

  /** When two seconds have passed, the end of a scan hands over everything staged. */
  lemma TimeUpHandsOver(v: Variant, acts: seq<Action>, t: nat)
    requires Runnable(v, Initial, acts)
    requires Enabled(v, Run(v, Initial, acts), EndScan(true)) && t in Run(v, Initial, acts).logged
    ensures var s' := Apply(v, Run(v, Initial, acts), EndScan(true));
            t in s'.logged && t in s'.rings && t in s'.unsent && s'.staging == [] && OutputIsCurrent(s', t)
  {
    RunKeepsInv(v, Initial, acts);
    FlushBringsOutputUpToDate(v, Run(v, Initial, acts), EndScan(true), t);
  }

  /** The consumer's steps within one scan. */
  predicate WithinScan(a: Action) {
    a.Select? || a.StartRetrieve? || a.Release? || a.EndRetrieve? || a.Leave?
  }

  /** The rings the scan has passed are empty, as long as nobody logs meanwhile. */
  ghost predicate PassedAreEmpty(s: State) {
    match s.pc
    case Scan(cursor, _) => EmptyBelow(s.rings, cursor)
    case Drain(t, _) => EmptyBelow(s.rings, t)
    case InCall(t, _, _) => EmptyBelow(s.rings, t)
    case _ => false
  }

  lemma {:induction false} ScanEmptiesRings(v: Variant, s: State, acts: seq<Action>)
    requires Runnable(v, s, acts) && PassedAreEmpty(s) && forall i :: 0 <= i < |acts| ==> WithinScan(acts[i])
    ensures PassedAreEmpty(Run(v, s, acts)) && Run(v, s, acts).logged == s.logged && Run(v, s, acts).unsent == s.unsent
    decreases |acts|
  {
    if acts != [] {
      ScanEmptiesRings(v, Apply(v, s, acts[0]), acts[1..]);
    }
  }

  /**
   * A quiet logger does not keep its bytes: one scan during which nobody logs, ended when two seconds have passed,
   * brings everything that was accepted before it to the appender.
   */
  lemma QuietScanDelivers(v: Variant, s: State, acts: seq<Action>, t: nat)
    requires Inv(s) && Enabled(v, s, EnterScan) && Runnable(v, Apply(v, s, EnterScan), acts)
    requires forall i :: 0 <= i < |acts| ==> WithinScan(acts[i])
    requires Enabled(v, Run(v, Apply(v, s, EnterScan), acts), EndScan(true)) && t in s.logged
    ensures var s' := Apply(v, Run(v, Apply(v, s, EnterScan), acts), EndScan(true));
            t in s.unsent && s.logged[t] == Project(s'.output, t) + s.unsent[t]
  {
    var s1 := Apply(v, s, EnterScan);
    StepKeepsInv(v, s, EnterScan);
    ScanEmptiesRings(v, s1, acts);
    RunKeepsInv(v, s1, acts);
    EndOfQuietScan(v, Run(v, s1, acts), t);
  }

  lemma EndOfQuietScan(v: Variant, s: State, t: nat)
    requires Inv(s) && PassedAreEmpty(s) && Enabled(v, s, EndScan(true)) && t in s.logged
    ensures t in s.unsent && s.logged[t] == Project(Apply(v, s, EndScan(true)).output, t) + s.unsent[t]
  {
    var s' := Apply(v, s, EndScan(true));
    ControlKeepsStreams(v, s, EndScan(true));
    FlushBringsOutputUpToDate(v, s, EndScan(true), t);
    assert s.rings[t] == [] && Project(s'.output, t) + [] == Project(s'.output, t);
  }

  // -------- after the stop the logger comes to its end --------

  /** Bytes held by the rings of the threads below `n`. */
  function Held(rings: map<nat, seq<byte>>, n: nat): nat {
    if n == 0 then 0 else Held(rings, n - 1) + |Get(rings, n - 1)|
  }

  lemma {:induction false} HeldAfter(rings: map<nat, seq<byte>>, n: nat, t: nat, bytes: seq<byte>)
    requires t in rings
    ensures Held(rings[t := bytes], n) == Held(rings, n) + (if t < n then |bytes| - |rings[t]| else 0)
  {
    if n > 0 {
      HeldAfter(rings, n - 1, t, bytes);
    }
  }

  /** The final drain still to come. */
  function DrainAhead(final: bool, n: nat): nat {
    if final then 0 else 2 * n + 2
  }

  /** Where the consumer is in its loops, counting down to the end, for threads below `n`. */
  function PlaceWork(pc: Pc, n: nat): int {
    match pc
    case Top => 2 * n + 2
    case Scan(cursor, final) => 2 * (n - cursor) + 1 + DrainAhead(final, n)
    case Drain(t, final) => 2 * (n - t) + DrainAhead(final, n)
    case InCall(t, final, moved) => 2 * (n - t) + (if moved then 1 else -1) + DrainAhead(final, n)
    case Done => 0
  }

  /** Work left after the stop, for threads below `n`: every held byte may cost three steps, every ring two a scan. */
  function Work(s: State, n: nat): int {
    3 * Held(s.rings, n) + PlaceWork(s.pc, n)
  }

  ghost predicate Bounded(s: State, n: nat) {
    && (forall t :: t in s.rings ==> t < n)
    && (s.pc.Scan? ==> s.pc.cursor <= n)
    && (s.pc.Drain? || s.pc.InCall? ==> s.pc.tid < n)
  }

  lemma ReleaseShrinksWork(v: Variant, s: State, k: nat, n: nat)
    requires Inv(s) && Bounded(s, n) && Enabled(v, s, Release(k))
    ensures var s' := Apply(v, s, Release(k)); Bounded(s', n) && Work(s', n) < Work(s, n)
  {
    HeldAfter(s.rings, n, s.pc.tid, s.rings[s.pc.tid][k..]);
  }

  lemma ControlShrinksWork(v: Variant, s: State, a: Action, n: nat)
    requires !s.running && Bounded(s, n) && Enabled(v, s, a) && IsControl(a)
    ensures var s' := Apply(v, s, a); !s'.running && Bounded(s', n) && PlaceWork(s'.pc, n) < PlaceWork(s.pc, n)
  {
    ControlKeepsStreams(v, s, a);
  }

  lemma StoppedStepShrinksWork(v: Variant, s: State, a: Action, n: nat)
    requires Inv(s) && !s.running && Bounded(s, n) && Enabled(v, s, a)
    ensures var s' := Apply(v, s, a); !s'.running && Bounded(s', n) && Work(s', n) < Work(s, n)
  {
    assert AllSent(s.unsent);
    if a.Release? {
      ReleaseShrinksWork(v, s, a.k, n);
    } else {
      ControlShrinksWork(v, s, a, n);
      ControlKeepsStreams(v, s, a);
    }
  }

  lemma WorkIsNatural(s: State, n: nat)
    requires Bounded(s, n)
    ensures Work(s, n) >= 0
  {
  }

  /** Once stopped, the logger ends within the work left: the scan it is in, and the final drain. */
  lemma {:induction false} StoppedLoggerTerminates(v: Variant, s: State, acts: seq<Action>, n: nat)
    requires Inv(s) && !s.running && Bounded(s, n) && Runnable(v, s, acts)
    ensures |acts| <= Work(s, n)
    decreases |acts|
  {
    WorkIsNatural(s, n);
    if acts != [] {
      StepKeepsInv(v, s, acts[0]);
      StoppedStepShrinksWork(v, s, acts[0], n);
      StoppedLoggerTerminates(v, Apply(v, s, acts[0]), acts[1..], n);
    }
  }

  lemma {:induction false} LeastFrom(rings: map<nat, seq<byte>>, cursor: nat, t: nat) returns (u: nat)
    requires t in rings && cursor <= t
    ensures u in rings && cursor <= u <= t && forall w :: cursor <= w < u ==> w !in rings
    decreases t - cursor
  {
    if cursor in rings {
      u := cursor;
    } else {
      u := LeastFrom(rings, cursor + 1, t);
    }
  }

  /** A step of the consumer; outside `retrive` it is one that neither releases nor returns. */
  lemma ConsumerGoesOn(v: Variant, s: State) returns (a: Action)
    requires Inv(s) && !s.pc.Done?
    ensures Enabled(v, s, a) && (WithinScan(a) || a.EnterScan? || a.EndScan?)
    ensures s.pc.InCall? || !(a.Release? || a.EndRetrieve?)
  {
    match s.pc
    case Top => a := EnterScan;
    case Drain(t, _) => a := if s.rings[t] == [] then Leave else StartRetrieve;
    case InCall(_, _, moved) => a := if moved then EndRetrieve else Release(1);
    case Scan(cursor, _) =>
      if t :| t in s.rings && cursor <= t {
        var u := LeastFrom(s.rings, cursor, t);
        a := Select(u);
      } else {
        a := EndScan(false);
      }
  }

  /** Until it is done, the consumer thread always has a step to take: it cannot get stuck. */
  lemma ConsumerIsNeverStuck(v: Variant, s: State)
    requires Inv(s) && !s.pc.Done?
    ensures exists a :: Enabled(v, s, a) && (WithinScan(a) || a.EnterScan? || a.EndScan?)
  {
    var a := ConsumerGoesOn(v, s);
  }
}
