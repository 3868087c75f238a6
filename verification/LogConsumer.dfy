/** The draining loops of the logger's consumer thread (src/log/Log.cpp:103-150), over real rings. */
module LogConsumers {
  import opened Common
  import opened RingBuffers
  import opened AsyncLoggers

  lemma Regroup<T>(total: seq<T>, sofar: seq<T>, here: seq<T>, rest: seq<T>)
    requires total == sofar + (here + rest)
    ensures total == (sofar + here) + rest
  {
  }

  function Concat(parts: seq<seq<byte>>): seq<byte> {
    if parts == [] then [] else parts[0] + Concat(parts[1..])
  }

  /** The part at index `i` goes behind what was delivered before. */
  lemma ConcatMoves(sofar: seq<byte>, parts: seq<seq<byte>>, i: nat)
    requires i < |parts|
    ensures sofar + Concat(parts[i..]) == (sofar + parts[i]) + Concat(parts[i + 1..])
  {
    assert parts[i..][0] == parts[i] && parts[i..][1..] == parts[i + 1..];
    ConcatAssociates(sofar, parts[i], Concat(parts[i + 1..]));
  }

  lemma ConcatEnds(sofar: seq<byte>, parts: seq<seq<byte>>)
    ensures Concat(parts[0..]) == Concat(parts) && sofar + Concat(parts[|parts|..]) == sofar
  {
    assert parts[0..] == parts && parts[|parts|..] == [];
  }

  /** As long as nothing was flushed, what is staged and comes next is part of what there was in all. */
  lemma LittleSoFar(output: seq<byte>, first: seq<byte>, parts: seq<seq<byte>>, i: nat, staged: seq<byte>)
    requires i < |parts| && |first| + |Concat(parts)| <= 63488
    requires (output + first) + Concat(parts) == (output + staged) + Concat(parts[i..])
    ensures |staged| + |parts[i]| <= 63488
  {
    ConcatMoves([], parts, i);
    assert |(output + first) + Concat(parts)| == |output| + |first| + |Concat(parts)|;
    assert |[] + Concat(parts[i..])| == |parts[i]| + |Concat(parts[i + 1..])|;
  }

  /** Retrieving behind `at` bytes of `dst` moves a part of the ring's content behind them. */
  lemma RetrieveStages(r: Ring, n: nat, dst: seq<byte>, at: nat)
    requires WellFormed(r) && Contents(r) != [] && 0 < n && at + n <= |dst|
    ensures var (r', bytes) := RetrieveSpec(r, n);
            && WellFormed(r') && 0 < |bytes| <= n && Contents(r) == bytes + Contents(r')
            && Overwrite(dst, at, bytes)[..at] == dst[..at]
            && Overwrite(dst, at, bytes)[..at + |bytes|] == dst[..at] + bytes
  {
    RetrieveTakesPrefix(r, n);
    OverwriteBehind(dst, at, RetrieveSpec(r, n).1);
  }

  class LogConsumer {
    const buffer: array<byte>
    var n: nat
    /** Everything the appender was given. */
    var output: seq<byte>

    ghost predicate Valid()
      reads this
    {
      buffer.Length == STAGING_SIZE && n <= HIGH_WATER
    }

    /** What the appender has or will have: its output and the staged bytes. */
    ghost function Delivered(): seq<byte>
      requires Valid()
      reads this, buffer
    {
      output + buffer[..n]
    }

    constructor ()
      ensures Valid() && fresh(buffer) && Delivered() == output == []
    {
      buffer := new byte[STAGING_SIZE];
      n := 0;
      output := [];
    }

    /** One retrive into the free part of the staging buffer. */
    method Fetch(ring: RingBuffer) returns (moved: nat, ghost bytes: seq<byte>)
      requires Valid() && ring.Valid() && ring.buf != buffer && ring.Held() != []
      modifies buffer, ring`out
      ensures ring.Valid() && 0 < moved == |bytes| <= STAGING_SIZE - n
      ensures buffer[..n] == old(buffer[..n]) && buffer[..n + moved] == buffer[..n] + bytes
      ensures old(ring.Held()) == bytes + ring.Held()
    {
      ghost var r, before, room := ring.Value(), buffer[..], STAGING_SIZE - n;
      RetrieveStages(r, room, before, n);
      bytes := RetrieveSpec(r, room).1;
      moved := ring.Retrieve(buffer, n, STAGING_SIZE - n);
      assert before[..n] == old(buffer[..n]);
      assert buffer[..n] == buffer[..][..n] && buffer[..n + moved] == buffer[..][..n + moved];
    }

    /** One retrive, and the flush above the high-water mark. */
    method Pull(ring: RingBuffer)
      requires Valid() && ring.Valid() && ring.buf != buffer && ring.Held() != []
      modifies this`n, this`output, buffer, ring`out
      ensures Valid() && ring.Valid()
      ensures |ring.Held()| < |old(ring.Held())|
      ensures Delivered() + ring.Held() == old(Delivered() + ring.Held())
      ensures old(n + |ring.Held()|) <= 63488 ==> output == old(output)
    {
      ghost var sofar, held := Delivered(), ring.Held();
      var moved, bytes := Fetch(ring);
      Regroup(sofar + held, sofar, bytes, ring.Held());
      Stage(moved, bytes);
    }

    /** Counts `moved` bytes just copied behind the staged ones, and flushes above the high-water mark. */
    method Stage(moved: nat, ghost bytes: seq<byte>)
      requires buffer.Length == STAGING_SIZE && n + moved <= STAGING_SIZE && moved == |bytes|
      requires buffer[..n + moved] == buffer[..n] + bytes
      modifies this`n, this`output
      ensures Valid() && Delivered() == old(output + buffer[..n]) + bytes
      ensures if old(n) + moved > 63488 then n == 0 else n == old(n) + moved && output == old(output)
    {
      assert output + (buffer[..n] + bytes) == (output + buffer[..n]) + bytes;
      n := n + moved;
      if n > HIGH_WATER {
        output := output + buffer[..n];
        n := 0;
        assert output + buffer[..0] == output;
      }
    }

    /** Empties one ring that nobody appends to any more. */
    method DrainRing(ring: RingBuffer)
      requires Valid() && ring.Valid() && ring.buf != buffer
      modifies this`n, this`output, buffer, ring`out
      ensures Valid() && ring.Valid() && ring.Held() == []
      ensures Delivered() == old(Delivered() + ring.Held())
      ensures old(n + |ring.Held()|) <= 63488 ==> output == old(output)
    {
      ghost var total := Delivered() + ring.Held();
      var empty := ring.Empty();
      while !empty
        invariant Valid() && ring.Valid() && empty == (ring.Held() == [])
        invariant Delivered() + ring.Held() == total
        invariant old(n + |ring.Held()|) <= 63488 ==> output == old(output)
        decreases |ring.Held()|
      {
        Pull(ring);
        empty := ring.Empty();
      }
      assert Delivered() + [] == Delivered();
    }

    /** Empties one ring of several; the others keep what they hold. */
    method DrainOneOf(rings: seq<RingBuffer>, i: nat)
      requires Valid() && i < |rings|
      requires forall j :: 0 <= j < |rings| ==> rings[j].Valid() && rings[j].buf != buffer
      requires forall j, k :: 0 <= j < k < |rings| ==> rings[j] != rings[k]
      modifies this`n, this`output, buffer, {rings[i]}
      ensures Valid() && forall j :: 0 <= j < |rings| ==> rings[j].Valid()
      ensures forall j :: 0 <= j < |rings| ==> rings[j].Held() == if j == i then [] else old(rings[j].Held())
      ensures Delivered() == old(Delivered() + rings[i].Held())
      ensures old(n + |rings[i].Held()|) <= 63488 ==> output == old(output)
    {
      DrainRing(rings[i]);
    }

    /** The loop over all rings; `held` is what each of them holds. */
    method DrainAll(rings: seq<RingBuffer>, ghost held: seq<seq<byte>>)
      requires Valid() && |held| == |rings|
      requires forall j :: 0 <= j < |rings| ==> rings[j].Valid() && rings[j].buf != buffer && rings[j].Held() == held[j]
      requires forall j, k :: 0 <= j < k < |rings| ==> rings[j] != rings[k]
      modifies this`n, this`output, buffer, rings
      ensures Valid() && forall j :: 0 <= j < |rings| ==> rings[j].Valid() && rings[j].Held() == []
      ensures Delivered() == old(Delivered()) + Concat(held)
      ensures old(n) + |Concat(held)| <= 63488 ==> output == old(output)
    {
      ghost var start := Delivered();
      ConcatEnds(start, held);
      for i := 0 to |rings|
        invariant Valid() && forall j :: 0 <= j < |rings| ==> rings[j].Valid()
        invariant forall j :: 0 <= j < |rings| ==> rings[j].Held() == if j < i then [] else held[j]
        invariant start + Concat(held) == Delivered() + Concat(held[i..])
        invariant old(n) + |Concat(held)| <= 63488 ==> output == old(output)
      {
        ConcatMoves(Delivered(), held, i);
        if old(n) + |Concat(held)| <= 63488 {
          LittleSoFar(output, old(buffer[..n]), held, i, buffer[..n]);
        }
        DrainOneOf(rings, i);
      }
      ConcatEnds(Delivered(), held);
    }

    /**
     * One turn of the main loop, `timeUp` when more than two seconds have passed since the last flush at its end: at
     * most 2048 bytes stay with the logger, none once the time is up, and only for as long as they are so few.
     */
    method Turn(rings: seq<RingBuffer>, ghost held: seq<seq<byte>>, timeUp: bool)
      requires Valid() && |held| == |rings|
      requires forall j :: 0 <= j < |rings| ==> rings[j].Valid() && rings[j].buf != buffer && rings[j].Held() == held[j]
      requires forall j, k :: 0 <= j < k < |rings| ==> rings[j] != rings[k]
      modifies this`n, this`output, buffer, rings
      ensures Valid() && forall j :: 0 <= j < |rings| ==> rings[j].Valid() && rings[j].Held() == []
      ensures Delivered() == old(Delivered()) + Concat(held)
      ensures n <= 2048 && (timeUp ==> n == 0 && output == Delivered())
      ensures !timeUp && old(n) + |Concat(held)| <= 2048 ==> output == old(output)
    {
      DrainAll(rings, held);
      if n > LOW_WATER || timeUp {
        output := output + buffer[..n];
        n := 0;
        assert output + buffer[..0] == output;
      }
    }

    /**
     * The drain after the main loop: once all producers have finished, every byte `held` in a ring reaches the
     * appender, ring after ring, behind what was staged; nothing is lost, repeated or left over.
     */
    method FinalDrain(rings: seq<RingBuffer>, ghost held: seq<seq<byte>>)
      requires Valid() && |held| == |rings|
      requires forall j :: 0 <= j < |rings| ==> rings[j].Valid() && rings[j].buf != buffer && rings[j].Held() == held[j]
      requires forall j, k :: 0 <= j < k < |rings| ==> rings[j] != rings[k]
      modifies this`n, this`output, buffer, rings
      ensures Valid() && forall j :: 0 <= j < |rings| ==> rings[j].Valid() && rings[j].Held() == []
      ensures output == old(Delivered()) + Concat(held)
    {
      DrainAll(rings, held);
      output := output + buffer[..n];
    }
  }
}
