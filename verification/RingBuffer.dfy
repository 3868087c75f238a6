/** The single-producer single-consumer byte ring (src/log/RingBuffer.cpp, src/log/RingBuffer.h), one call at a time. */
module RingBuffers {
  import opened Common

  /** A snapshot of the ring: its storage and the two indices. */
  datatype Ring = Ring(buf: seq<byte>, inp: nat, out: nat)

  ghost predicate WellFormed(r: Ring) {
    r.inp < |r.buf| && r.out < |r.buf|
  }

  /** The bytes that were published and not yet consumed, oldest first. */
  function Contents(r: Ring): seq<byte>
    requires WellFormed(r)
  {
    if r.inp >= r.out then r.buf[r.out..r.inp] else r.buf[r.out..] + r.buf[..r.inp]
  }

  // -------- append --------

  /** Length of the first copy of `append`, from the indices it sees. The repair keeps one slot free when `out` is 0. */
  function FirstLen(v: Variant, size: nat, inp: nat, out: nat, n: nat): int {
    if inp >= out then
      var reserved := if v.Repaired? && out == 0 then 1 else 0;
      Min(n, size - inp - reserved)
    else
      Min(n, out - inp - 1)
  }

  /** Length of the second copy. The repair never lets it go below 0. */
  function SecondLen(v: Variant, out: nat, remain: nat): int {
    if v.Repaired? then Max(0, Min(remain, out - 1)) else Min(remain, out - 1)
  }

  /**
   * What the code as written needs to find at its load of the read index. While a consumer is running a caller cannot
   * rely on it: see `RingProtocol.StableGuard`.
   */
  predicate AppendGuard(size: nat, inp: nat, out: nat, n: nat) {
    inp >= out ==> out > 0 || n < size - inp
  }

  /** BadCopy is a memcpy whose length is negative: nothing is known afterwards. */
  datatype AppendOutcome = Appended(ring: Ring, written: nat) | BadCopy(ring: Ring, length: int)

  function AppendSpec(v: Variant, r: Ring, data: seq<byte>): (o: AppendOutcome)
    requires WellFormed(r)
    ensures o.Appended? ==> WellFormed(o.ring)
  {
    var size := |r.buf|;
    if data == [] then
      Appended(r, 0)
    else
      var len := FirstLen(v, size, r.inp, r.out, |data|);
      var r1 := AddSegment(r, data[..len]);
      if r.inp >= r.out && |data| - len > 0 then AppendRest(v, r1, data[len..], len) else Appended(r1, len)
  }

  /** The second copy of an append whose first copy, of `done` bytes, did not take everything. */
  function AppendRest(v: Variant, r: Ring, rest: seq<byte>, done: nat): AppendOutcome
    requires WellFormed(r) && r.inp + SecondLen(v, r.out, |rest|) <= |r.buf|
  {
    var len2 := SecondLen(v, r.out, |rest|);
    if len2 < 0 then BadCopy(r, len2) else Appended(AddSegment(r, rest[..len2]), done + len2)
  }

  /** What an append is for: the longest prefix that still leaves one slot free is added behind the old contents. */
  ghost predicate AppendsPrefix(r: Ring, data: seq<byte>, o: AppendOutcome)
    requires WellFormed(r)
  {
    && o.Appended?
    && WellFormed(o.ring) && |o.ring.buf| == |r.buf| && o.ring.out == r.out
    && o.written == Min(|data|, |r.buf| - 1 - |Contents(r)|)
    && Contents(o.ring) == Contents(r) + data[..o.written]
  }

  /** The ring after one contiguous segment was copied behind its contents and published. */
  function AddSegment(r: Ring, bytes: seq<byte>): Ring
    requires WellFormed(r) && r.inp + |bytes| <= |r.buf|
  {
    Ring(Overwrite(r.buf, r.inp, bytes), Wrap(r.inp + |bytes|, |r.buf|), r.out)
  }

  /** A segment behind contents that do not wrap; it may end exactly with the storage. */
  lemma SegmentBehindStraight(buf: seq<byte>, inp: nat, out: nat, bytes: seq<byte>)
    requires out <= inp < |buf| && inp + |bytes| <= |buf| && inp - out + |bytes| < |buf|
    ensures var b, end := Overwrite(buf, inp, bytes), inp + |bytes|;
            && b[out..end] == buf[out..inp] + bytes
            && (end == |buf| ==> out > 0 && b[out..] + b[..0] == buf[out..inp] + bytes)
  {
    var b, end := Overwrite(buf, inp, bytes), inp + |bytes|;
    OverwriteSpan(buf, inp, bytes, out);
    if end == |buf| {
      assert b[out..] == b[out..end] && b[..0] == [];
    }
  }

  /** A segment behind contents that wrap: it ends before the read index. */
  lemma SegmentBehindWrapped(buf: seq<byte>, inp: nat, out: nat, bytes: seq<byte>)
    requires inp < out < |buf| && inp + |bytes| < out
    ensures var b := Overwrite(buf, inp, bytes);
            b[out..] + b[..inp + |bytes|] == (buf[out..] + buf[..inp]) + bytes
  {
    OverwriteBehind(buf, inp, bytes);
    OverwriteBeyond(buf, inp, bytes, out);
    ConcatAssociates(buf[out..], buf[..inp], bytes);
  }

  lemma SegmentExtendsContents(r: Ring, bytes: seq<byte>)
    requires WellFormed(r) && r.inp + |bytes| <= |r.buf|
    requires |Contents(r)| + |bytes| < |r.buf|
    ensures var r' := AddSegment(r, bytes);
            WellFormed(r') && |r'.buf| == |r.buf| && Contents(r') == Contents(r) + bytes
  {
    if r.inp >= r.out {
      SegmentBehindStraight(r.buf, r.inp, r.out, bytes);
    } else {
      SegmentBehindWrapped(r.buf, r.inp, r.out, bytes);
    }
  }

  lemma RepairedRestIsCorrect(r: Ring, rest: seq<byte>, done: nat)
    requires WellFormed(r) && (r.out > 0 ==> r.inp == 0) && (r.out == 0 ==> r.inp == |r.buf| - 1)
    ensures var len2 := Min(|rest|, |r.buf| - 1 - |Contents(r)|);
            && AppendRest(Repaired, r, rest, done) == Appended(AddSegment(r, rest[..len2]), done + len2)
            && WellFormed(AddSegment(r, rest[..len2]))
            && Contents(AddSegment(r, rest[..len2])) == Contents(r) + rest[..len2]
  {
    SegmentExtendsContents(r, rest[..SecondLen(Repaired, r.out, |rest|)]);
  }

  /** Both copies: the first fills the storage up to its end, or up to the slot kept free there. */
  lemma RepairedTwoCopies(r: Ring, data: seq<byte>, len: nat)
    requires WellFormed(r) && r.inp >= r.out && len == |r.buf| - r.inp - (if r.out == 0 then 1 else 0) < |data|
    ensures AppendsPrefix(r, data, AppendRest(Repaired, AddSegment(r, data[..len]), data[len..], len))
  {
    var r1 := AddSegment(r, data[..len]);
    SegmentExtendsContents(r, data[..len]);
    RepairedRestIsCorrect(r1, data[len..], len);
    var len2 := Min(|data| - len, |r.buf| - 1 - |Contents(r1)|);
    var a, b := data[..len], data[len..][..len2];
    PrefixSplit(data, len, len2);
    assert Contents(r) + (a + b) == (Contents(r) + a) + b;
  }

  lemma RepairedAppendIsCorrect(r: Ring, data: seq<byte>)
    requires WellFormed(r)
    ensures AppendsPrefix(r, data, AppendSpec(Repaired, r, data))
  {
    if data != [] {
      var len := FirstLen(Repaired, |r.buf|, r.inp, r.out, |data|);
      if r.inp >= r.out && |data| - len > 0 {
        RepairedTwoCopies(r, data, len);
      } else {
        SegmentExtendsContents(r, data[..len]);
      }
    }
  }

  /**
   * The code as written appends correctly exactly when the guard holds. Otherwise it either publishes `inp == 0`
   * with `out == 0`, so that everything held reads as empty, or asks for a copy of length -1.
   */
  lemma WrittenAppendIsCorrectIff(r: Ring, data: seq<byte>)
    requires WellFormed(r) && data != []
    ensures AppendsPrefix(r, data, AppendSpec(AsWritten, r, data)) <==> AppendGuard(|r.buf|, r.inp, r.out, |data|)
    ensures !AppendGuard(|r.buf|, r.inp, r.out, |data|) ==>
              match AppendSpec(AsWritten, r, data)
              case Appended(r', w) => |data| == |r.buf| - r.inp == w && WellFormed(r') && Contents(r') == []
              case BadCopy(r', len) => |data| > |r.buf| - r.inp && len == -1
  {
    if AppendGuard(|r.buf|, r.inp, r.out, |data|) {
      GuardedVariantsAgree(r, data);
      RepairedAppendIsCorrect(r, data);
    }
  }

  /** One append after another, until a copy goes wrong; `written` counts all bytes reported as accepted. */
  function AppendAll(v: Variant, r: Ring, records: seq<seq<byte>>): AppendOutcome
    requires WellFormed(r)
    decreases |records|
  {
    if records == [] then Appended(r, 0) else
    match AppendSpec(v, r, records[0])
    case BadCopy(r', length) => BadCopy(r', length)
    case Appended(r', n) =>
      match AppendAll(v, r', records[1..])
      case BadCopy(r'', length) => BadCopy(r'', length)
      case Appended(r'', m) => Appended(r'', n + m)
  }

  function TotalLength(records: seq<seq<byte>>): nat {
    if records == [] then 0 else |records[0]| + TotalLength(records[1..])
  }

  /**
   * The failure is met by any logging thread whose first records fill the ring exactly before the consumer has taken
   * anything: the code as written reports every byte as accepted, and the ring then holds none of them.
   */
  lemma {:induction false} WrittenFillLosesEverything(buf: seq<byte>, inp: nat, records: seq<seq<byte>>)
    requires inp < |buf| && TotalLength(records) == |buf| - inp
    requires forall i :: 0 <= i < |records| ==> records[i] != []
    ensures var o := AppendAll(AsWritten, Ring(buf, inp, 0), records);
            o.Appended? && o.written == |buf| - inp && WellFormed(o.ring) && Contents(o.ring) == []
    decreases |records|
  {
    var data := records[0];
    var r := AddSegment(Ring(buf, inp, 0), data);
    if |data| < |buf| - inp {
      assert data[..|data|] == data;
      WrittenFillLosesEverything(r.buf, r.inp, records[1..]);
    } else {
      assert data[..|data|] == data;
      assert TotalLength(records[1..]) == 0;
    }
  }

  /** Under the guard the repair changes nothing. */
  lemma GuardedVariantsAgree(r: Ring, data: seq<byte>)
    requires WellFormed(r) && AppendGuard(|r.buf|, r.inp, r.out, |data|)
    ensures AppendSpec(AsWritten, r, data) == AppendSpec(Repaired, r, data)
  {
  }

  // -------- retrive --------

  function FirstRead(size: nat, inp: nat, out: nat, n: nat): int {
    if inp >= out then Min(n, inp - out) else Min(n, size - out)
  }

  /** The ring after a `retrive` of up to `n` bytes, and the bytes it copied out. */
  function RetrieveSpec(r: Ring, n: nat): (Ring, seq<byte>)
    requires WellFormed(r)
  {
    var size := |r.buf|;
    var len := FirstRead(size, r.inp, r.out, n);
    if n == 0 then
      (r, [])
    else if r.inp >= r.out then
      (r.(out := r.out + len), r.buf[r.out..r.out + len])
    else
      var out1 := Wrap(r.out + len, size);
      if n - len > 0 then
        var len2 := Min(n - len, r.inp);
        (r.(out := Wrap(out1 + len2, size)), r.buf[r.out..r.out + len] + r.buf[out1..out1 + len2])
      else
        (r.(out := out1), r.buf[r.out..r.out + len])
  }

  lemma RetrieveTakesPrefix(r: Ring, n: nat)
    requires WellFormed(r)
    ensures var (r', bytes) := RetrieveSpec(r, n);
            && WellFormed(r') && r'.buf == r.buf && r'.inp == r.inp
            && |bytes| == Min(n, |Contents(r)|)
            && Contents(r) == bytes + Contents(r')
  {
    var (r', bytes) := RetrieveSpec(r, n);
    assert Contents(r) == bytes + Contents(r');
  }

  /** Appending to a ring and reading everything back returns the old contents followed by the accepted prefix. */
  lemma AppendThenRetrieve(r: Ring, data: seq<byte>)
    requires WellFormed(r)
    ensures var o := AppendSpec(Repaired, r, data);
            && o.Appended? && WellFormed(o.ring)
            && var (r', bytes) := RetrieveSpec(o.ring, |r.buf|);
            && bytes == Contents(r) + data[..o.written]
            && r'.inp == r'.out
  {
    RepairedAppendIsCorrect(r, data);
    var o := AppendSpec(Repaired, r, data);
    RetrieveTakesPrefix(o.ring, |r.buf|);
    var (r', bytes) := RetrieveSpec(o.ring, |r.buf|);
    assert |Contents(o.ring)| < |r.buf|;
  }

  // -------- size queries --------

  function DataSize(size: int, inp: int, out: int): int {
    if inp >= out then inp - out else size - out + inp
  }

  function AvailSize(size: int, inp: int, out: int): int {
    if inp >= out then out - 1 + size - inp else out - inp - 1
  }

  predicate IsFull(inp: int, out: int) {
    inp + 1 == out
  }

  /** The two size queries split the `size - 1` usable slots; emptiness is index equality. */
  lemma SizesMeasureContents(r: Ring)
    requires WellFormed(r)
    ensures DataSize(|r.buf|, r.inp, r.out) == |Contents(r)|
    ensures AvailSize(|r.buf|, r.inp, r.out) == |r.buf| - 1 - |Contents(r)|
    ensures r.inp == r.out <==> Contents(r) == []
  {
  }

  /** `full()` leaves out the modulo, so it misses exactly the full rings whose read index is 0. */
  lemma FullMissesIndexZero(r: Ring)
    requires WellFormed(r)
    ensures IsFull(r.inp, r.out) <==> |Contents(r)| == |r.buf| - 1 && r.out != 0
  {
  }

  // -------- the class --------

  class RingBuffer {
    const buf: array<byte>
    var inp: nat
    var out: nat

    ghost predicate Valid()
      reads this
    {
      inp < buf.Length && out < buf.Length
    }

    ghost function Value(): Ring
      reads this, buf
    {
      Ring(buf[..], inp, out)
    }

    ghost function Held(): seq<byte>
      requires Valid()
      reads this, buf
    {
      Contents(Value())
    }

    constructor (size: nat)
      requires size > 0
      ensures Valid() && fresh(buf) && buf.Length == size
      ensures inp == out == 0 && Held() == []
    {
      buf := new byte[size];
      inp, out := 0, 0;
    }

    method Empty() returns (b: bool)
      requires Valid()
      ensures b <==> Held() == []
    {
      b := inp == out;
    }

    /** One memcpy behind the write index, then its publication. */
    method WriteSegment(bytes: seq<byte>)
      requires Valid() && inp + |bytes| <= buf.Length
      modifies this`inp, buf
      ensures Valid() && Value() == AddSegment(old(Value()), bytes)
    {
      CopyIn(buf, inp, bytes);
      WrapIsModulo(inp + |bytes|, buf.Length);
      inp := (inp + |bytes|) % buf.Length;
    }

    /** `fault` reports a copy of negative length; the code has no such check and is undefined from there on. */
    method Append(v: Variant, data: seq<byte>, size: int) returns (nWritten: nat, fault: bool)
      requires Valid() && size <= |data|
      modifies this`inp, buf
      ensures Valid()
      ensures AppendSpec(v, old(Value()), data[..Max(0, size)])
              == if fault then BadCopy(Value(), out - 1) else Appended(Value(), nWritten)
    {
      fault, nWritten := false, 0;
      if size <= 0 {
        return;
      }
      var bytes := data[..size];
      var o := out;
      ghost var r, len1 := Value(), FirstLen(v, buf.Length, inp, o, |bytes|);
      if inp >= o {
        var left := buf.Length - inp - (if v.Repaired? && o == 0 then 1 else 0);
        var len := Min(size, left);
        assert len == len1;
        WriteSegment(bytes[..len]);
        nWritten := nWritten + len;
        assert Value() == AddSegment(r, bytes[..len1]);
        var remain := size - len;
        if remain > 0 {
          nWritten, fault := WriteRest(v, bytes[len..], o, nWritten);
        }
      } else {
        var len := Min(size, o - inp - 1);
        WriteSegment(bytes[..len]);
        nWritten := nWritten + len;
      }
    }

    /** The second copy, for a first copy of `done` bytes that did not take everything. */
    method WriteRest(v: Variant, rest: seq<byte>, o: nat, done: nat) returns (nWritten: nat, fault: bool)
      requires Valid() && rest != [] && o == out && inp + SecondLen(v, o, |rest|) <= buf.Length
      modifies this`inp, buf
      ensures Valid()
      ensures AppendRest(v, old(Value()), rest, done)
              == if fault then BadCopy(Value(), o - 1) else Appended(Value(), nWritten)
    {
      var len2 := Min(|rest|, o - 1);
      if v.Repaired? {
        len2 := Max(0, len2);
      }
      fault, nWritten := len2 < 0, done;
      if !fault {
        WriteSegment(rest[..len2]);
        nWritten := done + len2;
      }
    }

    /** One memcpy from the read index, then the release of those slots. */
    method ReadSegment(dst: array<byte>, at: nat, len: nat)
      requires Valid() && dst != buf && at + len <= dst.Length && out + len <= buf.Length
      modifies this`out, dst
      ensures Valid() && Value() == old(Value()).(out := Wrap(old(out) + len, buf.Length))
      ensures dst[..] == Overwrite(old(dst[..]), at, buf[old(out)..old(out) + len])
    {
      CopyIn(dst, at, buf[out..out + len]);
      WrapIsModulo(out + len, buf.Length);
      out := (out + len) % buf.Length;
    }

    /** Copies up to `size` bytes to `dst` from index `at` on. */
    method Retrieve(dst: array<byte>, at: nat, size: int) returns (nRead: nat)
      requires Valid() && dst != buf && at + Max(0, size) <= dst.Length
      modifies this`out, dst
      ensures Valid()
      ensures var (r, bytes) := RetrieveSpec(old(Value()), Max(0, size));
              && Value() == r && nRead == |bytes| <= Max(0, size)
              && dst[..] == Overwrite(old(dst[..]), at, bytes)
    {
      nRead := 0;
      if size <= 0 {
        assert dst[..] == Overwrite(old(dst[..]), at, []);
        return;
      }
      var i := inp;
      if i >= out {
        var len := Min(size, i - out);
        ReadSegment(dst, at, len);
        nRead := len;
      } else {
        nRead := RetrieveWrapped(dst, at, size, i);
      }
    }

    /** The two-segment branch of `Retrieve`, for a write index that is behind the read index. */
    method RetrieveWrapped(dst: array<byte>, at: nat, size: nat, i: nat) returns (nRead: nat)
      requires Valid() && dst != buf && 0 < size && at + size <= dst.Length && i == inp < out
      modifies this`out, dst
      ensures Valid()
      ensures var (r, bytes) := RetrieveSpec(old(Value()), size);
              && Value() == r && nRead == |bytes| <= size
              && dst[..] == Overwrite(old(dst[..]), at, bytes)
    {
      var left := buf.Length - out;
      var len := Min(size, left);
      ghost var r, first := Value(), buf[out..out + len];
      ReadSegment(dst, at, len);
      nRead := len;
      var remain := size - len;
      if remain > 0 {
        var len2 := Min(remain, i);
        ReadSecond(dst, at, len, len2, first, old(dst[..]));
        nRead := nRead + len2;
        SecondOfWrapped(r, size, len, len2);
      }
    }

    /** The second segment, from the start of the storage, behind the `first` bytes of the destination. */
    method ReadSecond(dst: array<byte>, at: nat, len: nat, len2: nat, ghost first: seq<byte>, ghost before: seq<byte>)
      requires Valid() && dst != buf && out == 0 && len2 < buf.Length
      requires |before| == dst.Length && at + len + len2 <= dst.Length && |first| == len
      requires dst[..] == Overwrite(before, at, first)
      modifies this`out, dst
      ensures Valid() && Value() == old(Value()).(out := len2)
      ensures dst[..] == Overwrite(before, at, first + buf[0..len2])
    {
      ghost var second := buf[0..len2];
      OverwriteTwice(before, at, first, second);
      ReadSegment(dst, at + len, len2);
    }
  }

  /** A read that goes past the end of the storage is the read of its two segments. */
  lemma SecondOfWrapped(r: Ring, n: nat, len: nat, len2: nat)
    requires WellFormed(r) && r.inp < r.out && len == |r.buf| - r.out < n && len2 == Min(n - len, r.inp)
    ensures RetrieveSpec(r, n) == (r.(out := len2), r.buf[r.out..r.out + len] + r.buf[0..len2])
  {
  }
}
