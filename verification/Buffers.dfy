/** The linear byte buffer behind every connection (src/Buffer.cpp, src/Buffer.h). */
module Buffers {
  import opened Common

  /** The read pointer's offset, the bytes between the two pointers, and the size of the storage. */
  datatype Buffer = Buffer(start: nat, data: seq<byte>, total: nat)

  ghost predicate WellFormed(b: Buffer) {
    b.start + |b.data| <= b.total
  }

  function Room(b: Buffer): int {
    b.total - b.start - |b.data|
  }

  /** The buffer after an append, and how many bytes fitted. */
  function AppendSpec(b: Buffer, bytes: seq<byte>): (Buffer, nat) {
    var n := Max(0, Min(|bytes|, Room(b)));
    (b.(data := b.data + bytes[..n]), n)
  }

  /** The buffer after the kernel took `n` bytes; a negative `n` is a failed write. Emptying it resets both pointers. */
  function WriteSpec(b: Buffer, n: int): Buffer
    requires n <= |b.data|
  {
    if b.data == [] || n < 0 then b
    else if n == |b.data| then Buffer(0, [], b.total)
    else Buffer(b.start + n, b.data[n..], b.total)
  }

  // -------- conservation over any use --------

  datatype Op = Append(bytes: seq<byte>) | WriteOut(n: int)

  /** The kernel takes at most what it is offered. */
  predicate Possible(b: Buffer, op: Op) {
    op.WriteOut? ==> op.n <= |b.data|
  }

  function Step(b: Buffer, op: Op): Buffer
    requires Possible(b, op)
  {
    match op
    case Append(bytes) => AppendSpec(b, bytes).0
    case WriteOut(n) => WriteSpec(b, n)
  }

  /** The bytes an operation takes in. */
  function Accepted(b: Buffer, op: Op): seq<byte> {
    match op
    case Append(bytes) => bytes[..AppendSpec(b, bytes).1]
    case WriteOut(_) => []
  }

  /** The bytes an operation hands to the kernel. */
  function Handed(b: Buffer, op: Op): seq<byte>
    requires Possible(b, op)
  {
    match op
    case Append(_) => []
    case WriteOut(n) => if n < 0 then [] else b.data[..n]
  }

  predicate AllPossible(b: Buffer, ops: seq<Op>)
    decreases |ops|
  {
    ops == [] || (Possible(b, ops[0]) && AllPossible(Step(b, ops[0]), ops[1..]))
  }

  /** The buffer after a run, everything accepted during it, and everything handed to the kernel. */
  function Run(b: Buffer, ops: seq<Op>): (Buffer, seq<byte>, seq<byte>)
    requires AllPossible(b, ops)
    decreases |ops|
  {
    if ops == [] then (b, [], []) else
    var (b', accepted, handed) := Run(Step(b, ops[0]), ops[1..]);
    (b', Accepted(b, ops[0]) + accepted, Handed(b, ops[0]) + handed)
  }

  lemma StepConserves(b: Buffer, op: Op)
    requires WellFormed(b) && Possible(b, op)
    ensures WellFormed(Step(b, op)) && Step(b, op).total == b.total
    ensures b.data + Accepted(b, op) == Handed(b, op) + Step(b, op).data
  {
  }

  /**
   * Over any run: what was held, followed by what was accepted, is what went to the kernel, followed by what is held.
   */
  lemma {:induction false} RunConserves(b: Buffer, ops: seq<Op>)
    requires WellFormed(b) && AllPossible(b, ops)
    ensures var (b', accepted, handed) := Run(b, ops);
            && WellFormed(b') && b'.total == b.total
            && b.data + accepted == handed + b'.data
    decreases |ops|
  {
    if ops == [] {
      assert b.data + [] == [] + b.data;
    } else {
      StepConserves(b, ops[0]);
      var b1 := Step(b, ops[0]);
      RunConserves(b1, ops[1..]);
      var (b', accepted, handed) := Run(b1, ops[1..]);
      ConcatAssociates(b.data, Accepted(b, ops[0]), accepted);
      ConcatAssociates(Handed(b, ops[0]), b1.data, accepted);
      ConcatAssociates(Handed(b, ops[0]), handed, b'.data);
    }
  }

  // -------- room over any use --------

  /** The bytes accepted since the buffer was last empty; `used` of them came before `ops`. */
  function SinceEmpty(b: Buffer, ops: seq<Op>, used: nat): nat
    requires AllPossible(b, ops)
    decreases |ops|
  {
    if ops == [] then used else
    var b1 := Step(b, ops[0]);
    SinceEmpty(b1, ops[1..], if b1.data == [] then 0 else used + |Accepted(b, ops[0])|)
  }

  /** The bytes of the storage that are not room, in a buffer that starts over whenever it is empty. */
  ghost predicate Uses(b: Buffer, used: nat) {
    b.start + |b.data| == used <= b.total && (b.data == [] ==> used == 0)
  }

  lemma StepUses(b: Buffer, op: Op, used: nat)
    requires Uses(b, used) && Possible(b, op)
    ensures Uses(Step(b, op), if Step(b, op).data == [] then 0 else used + |Accepted(b, op)|)
    ensures Step(b, op).total == b.total
  {
  }

  lemma {:induction false} RunUses(b: Buffer, ops: seq<Op>, used: nat)
    requires Uses(b, used) && AllPossible(b, ops)
    ensures Uses(Run(b, ops).0, SinceEmpty(b, ops, used)) && Run(b, ops).0.total == b.total
    decreases |ops|
  {
    if ops != [] {
      var b1 := Step(b, ops[0]);
      StepUses(b, ops[0], used);
      RunUses(b1, ops[1..], if b1.data == [] then 0 else used + |Accepted(b, ops[0])|);
    }
  }

  /**
   * A buffer that was written out completely has all its room again. In every run from a new buffer, the next append
   * takes the longest prefix that fits into what was not taken since the buffer was last empty, and into the whole
   * storage when nothing is held.
   */
  lemma RoomComesBack(total: nat, ops: seq<Op>, bytes: seq<byte>)
    requires AllPossible(Buffer(0, [], total), ops)
    ensures var b, room := Run(Buffer(0, [], total), ops).0, total - SinceEmpty(Buffer(0, [], total), ops, 0);
            && Room(b) == room >= 0 && (b.data == [] ==> room == total)
            && Accepted(b, Append(bytes)) == bytes[..Min(|bytes|, room)]
  {
    RunUses(Buffer(0, [], total), ops, 0);
  }

  /** The bytes the kernel says it took. */
  function Taken(ops: seq<Op>): nat {
    if ops == [] then 0 else (if ops[0].WriteOut? && ops[0].n > 0 then ops[0].n else 0) + Taken(ops[1..])
  }

  /** What is handed over is as much as the kernel says it took. */
  lemma {:induction false} RunHandsWhatIsTaken(b: Buffer, ops: seq<Op>)
    requires AllPossible(b, ops)
    ensures |Run(b, ops).2| == Taken(ops)
    decreases |ops|
  {
    if ops != [] {
      RunHandsWhatIsTaken(Step(b, ops[0]), ops[1..]);
    }
  }

  // -------- the class --------

  class BufferBase {
    const bytes: array<byte>
    var wptr: nat
    var rptr: nat

    ghost predicate Valid()
      reads this
    {
      rptr <= wptr <= bytes.Length
    }

    ghost function Value(): Buffer
      requires Valid()
      reads this, bytes
    {
      Buffer(rptr, bytes[rptr..wptr], bytes.Length)
    }

    constructor (size: nat)
      ensures Valid() && fresh(bytes) && Value() == Buffer(0, [], size)
    {
      bytes := new byte[size];
      wptr, rptr := 0, 0;
    }

    function DataSize(): int
      reads this
    {
      wptr - rptr
    }

    function RemainSize(): int
      reads this
    {
      bytes.Length - wptr
    }

    predicate IsEmpty()
      reads this
    {
      wptr == rptr
    }

    predicate IsFull()
      reads this
    {
      wptr == bytes.Length
    }

    lemma QueriesMeasureValue()
      requires Valid()
      ensures DataSize() == |Value().data| && RemainSize() == Room(Value())
      ensures IsEmpty() <==> Value().data == []
      ensures IsFull() <==> Room(Value()) == 0
    {
    }

    method Clear()
      modifies this
      ensures Valid() && Value() == Buffer(0, [], bytes.Length)
    {
      wptr, rptr := 0, 0;
    }

    /** Takes as much of the first `len` bytes of `buf` as fits and says how much that was. */
    method Append(buf: seq<byte>, len: int) returns (n: nat)
      requires Valid() && len <= |buf|
      modifies this`wptr, bytes
      ensures Valid() && (Value(), n) == AppendSpec(old(Value()), buf[..Max(0, len)])
      ensures n == Min(Max(0, len), old(RemainSize())) && Value().data == old(Value().data) + buf[..n]
      ensures RemainSize() == old(RemainSize()) - n
    {
      if len <= 0 {
        assert bytes[rptr..wptr] + [] == bytes[rptr..wptr];
        return 0;
      }
      n := RemainSize();
      if len <= n {
        n := len;
      }
      ghost var before := bytes[..];
      CopyIn(bytes, wptr, buf[..n]);
      OverwriteSpan(before, wptr, buf[..n], rptr);
      wptr := wptr + n;
      assert buf[..len][..n] == buf[..n];
    }

    method AppendChar(c: byte) returns (n: nat)
      requires Valid()
      modifies this`wptr, bytes
      ensures Valid() && (Value(), n) == AppendSpec(old(Value()), [c])
      ensures if old(IsFull()) then n == 0 && Value() == old(Value())
              else n == 1 && Value().data == old(Value().data) + [c] && RemainSize() == old(RemainSize()) - 1
    {
      n := 0;
      ghost var held := bytes[rptr..wptr];
      if bytes.Length - wptr > 0 {
        bytes[wptr] := c;
        wptr := wptr + 1;
        n := 1;
        assert bytes[rptr..wptr] == held + [c] && [c][..1] == [c];
      } else {
        assert held + [] == held;
      }
    }

    /** Reads from a descriptor: the kernel delivers `arrived`, at most what was asked for, or fails. */
    method ReadIn(arrived: seq<byte>, failed: bool) returns (n: int)
      requires Valid() && |arrived| <= RemainSize()
      modifies this`wptr, bytes
      ensures Valid() && n == (if failed then -1 else |arrived|)
      ensures Value() == if failed then old(Value()) else AppendSpec(old(Value()), arrived).0
      ensures !failed ==> Value().data == old(Value().data) + arrived
    {
      if failed {
        return -1;
      }
      n := |arrived|;
      ghost var before := bytes[..];
      CopyIn(bytes, wptr, arrived);
      OverwriteSpan(before, wptr, arrived, rptr);
      wptr := wptr + n;
    }

    /** Writes to a descriptor; `taken` is the kernel's answer. The second result is what it was given. */
    method WriteOut(taken: int) returns (n: int, ghost handed: seq<byte>)
      requires Valid() && taken <= DataSize()
      modifies this
      ensures Valid() && Value() == WriteSpec(old(Value()), taken)
      ensures handed == Handed(old(Value()), Op.WriteOut(taken))
      ensures n == if old(DataSize()) == 0 then 0 else taken
      ensures old(Value().data) == handed + Value().data && |handed| == Max(0, taken)
      ensures taken <= 0 ==> Value() == old(Value())
      ensures taken > 0 ==> RemainSize() == if IsEmpty() then bytes.Length else old(RemainSize())
    {
      handed := Handed(Value(), Op.WriteOut(taken));
      if DataSize() <= 0 {
        return 0, handed;
      }
      n := taken;
      if n >= 0 {
        rptr := rptr + n;
        if IsEmpty() {
          Clear();
        }
      }
    }
  }
}
