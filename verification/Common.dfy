/** Definitions shared by every component: bytes, the two readings of the code, and small arithmetic. */
module Common {

  newtype byte = x: int | 0 <= x < 256

  /** AsWritten is the code as it stands; Repaired is the same code with the faulty line corrected. */
  datatype Variant = AsWritten | Repaired

  function Min(a: int, b: int): int {
    if a <= b then a else b
  }

  function Max(a: int, b: int): int {
    if a >= b then a else b
  }

  /** A copy of `bytes` over `dst` starting at index `at`: the effect of one memcpy. */
  function Overwrite<T>(dst: seq<T>, at: nat, bytes: seq<T>): seq<T>
    requires at + |bytes| <= |dst|
  {
    dst[..at] + bytes + dst[at + |bytes|..]
  }

  lemma OverwriteSpan<T>(dst: seq<T>, at: nat, bytes: seq<T>, lo: nat)
    requires lo <= at && at + |bytes| <= |dst|
    ensures Overwrite(dst, at, bytes)[lo..at + |bytes|] == dst[lo..at] + bytes
  {
    assert Overwrite(dst, at, bytes)[..at + |bytes|] == dst[..at] + bytes;
  }

  lemma OverwriteBehind<T>(dst: seq<T>, at: nat, bytes: seq<T>)
    requires at + |bytes| <= |dst|
    ensures Overwrite(dst, at, bytes)[..at] == dst[..at]
    ensures Overwrite(dst, at, bytes)[..at + |bytes|] == dst[..at] + bytes
  {
  }

  lemma OverwriteBeyond<T>(dst: seq<T>, at: nat, bytes: seq<T>, hi: nat)
    requires at + |bytes| <= hi <= |dst|
    ensures Overwrite(dst, at, bytes)[hi..] == dst[hi..]
  {
  }

  lemma OverwriteTwice<T>(dst: seq<T>, at: nat, a: seq<T>, b: seq<T>)
    requires at + |a| + |b| <= |dst|
    ensures Overwrite(Overwrite(dst, at, a), at + |a|, b) == Overwrite(dst, at, a + b)
  {
    var once := Overwrite(dst, at, a);
    assert once[..at + |a|] == dst[..at] + a;
    assert once[at + |a| + |b|..] == dst[at + |a| + |b|..];
  }

  lemma ConcatAssociates<T>(a: seq<T>, b: seq<T>, c: seq<T>)
    ensures a + (b + c) == (a + b) + c
  {
  }

  lemma ConcatSplits<T>(a: seq<T>, b: seq<T>)
    requires a != []
    ensures (a + b)[0] == a[0] && (a + b)[1..] == a[1..] + b
  {
  }

  lemma PrefixSplit<T>(s: seq<T>, i: nat, j: nat)
    requires i + j <= |s|
    ensures s[..i + j] == s[..i] + s[i..][..j]
  {
    assert s[i..][..j] == s[i..i + j];
  }

  lemma PrefixOfSlice<T>(s: seq<T>, from: nat, len: nat, k: nat)
    requires k <= len && from + len <= |s|
    ensures s[from..from + len][..k] == s[from..from + k]
  {
    var a, b := s[from..from + len][..k], s[from..from + k];
    assert forall i :: 0 <= i < k ==> a[i] == b[i];
  }

  /** memcpy, byte by byte. */
  method CopyIn(dst: array<byte>, at: nat, bytes: seq<byte>)
    requires at + |bytes| <= dst.Length
    modifies dst
    ensures dst[..] == Overwrite(old(dst[..]), at, bytes)
  {
    for k := 0 to |bytes|
      invariant dst[..at] == old(dst[..at])
      invariant dst[at..at + k] == bytes[..k]
      invariant dst[at + k..] == old(dst[at + k..])
    {
      dst[at + k] := bytes[k];
      assert bytes[..k + 1] == bytes[..k] + [bytes[k]];
      assert dst[at..at + k + 1] == dst[at..at + k] + [bytes[k]];
    }
    assert dst[..] == dst[..at] + dst[at..at + |bytes|] + dst[at + |bytes|..];
  }

  /** A multiple of `size` strictly between -size and 2 * size is 0 or size. */
  lemma MultipleInRange(size: int, d: int)
    requires -size < size * d < 2 * size
    ensures d == 0 || d == 1
  {
    if d < 0 {
      MulMonotone(size, d, -1);
    } else if d > 1 {
      MulMonotone(size, 2, d);
    }
  }

  lemma MulMonotone(size: int, a: int, b: int)
    requires size >= 0 && a <= b
    ensures size * a <= size * b
  {
    var gap := b - a;
    assert size * gap >= 0;
    assert size * b == size * a + size * gap;
  }

  /** A number written as a multiple of `size` plus a rest below `size` has that rest as its remainder. */
  lemma ModUnique(p: int, q: int, r: int, size: int)
    requires 0 <= r < size && p == size * q + r
    ensures p % size == r && p / size == q
  {
    assert size * (p / size - q) == r - p % size;
    MultipleInRange(size, p / size - q);
  }

  /** Two counters less than one lap apart: their distance, read off their remainders. */
  lemma ModDistance(p: int, c: int, size: int)
    requires c <= p < c + size
    ensures p - c == p % size - c % size + (if p % size >= c % size then 0 else size)
  {
    var d := p / size - c / size;
    assert p - c == size * d + (p % size - c % size);
    MultipleInRange(size, d);
  }

  /** Advancing a counter within its current lap advances its remainder, which wraps only at the very end. */
  lemma ModAdvance(p: int, k: int, size: int)
    requires size > 0 && k >= 0 && p % size + k <= size
    ensures (p + k) % size == if p % size + k == size then 0 else p % size + k
    ensures (p % size + k) % size == (p + k) % size
  {
    var q := p / size;
    if p % size + k == size {
      assert p + k == size * (q + 1);
      ModUnique(p + k, q + 1, 0, size);
      ModUnique(p % size + k, 1, 0, size);
    } else {
      assert p + k == size * q + (p % size + k);
      ModUnique(p + k, q, p % size + k, size);
      ModUnique(p % size + k, 0, p % size + k, size);
    }
  }

  /** `i % size` for an index that runs at most to the end of the storage. */
  function Wrap(i: nat, size: nat): nat {
    if i == size then 0 else i
  }

  lemma WrapIsModulo(i: nat, size: nat)
    requires i <= size && size > 0
    ensures i % size == Wrap(i, size)
  {
    ModUnique(i, if i == size then 1 else 0, Wrap(i, size), size);
  }

  /** The elements of `s` that satisfy `keep`, in order. */
  function Filter<T>(keep: T -> bool, s: seq<T>): seq<T> {
    if s == [] then [] else if keep(s[0]) then [s[0]] + Filter(keep, s[1..]) else Filter(keep, s[1..])
  }

  lemma {:induction false} FilterConcat<T>(keep: T -> bool, a: seq<T>, b: seq<T>)
    ensures Filter(keep, a + b) == Filter(keep, a) + Filter(keep, b)
  {
    if a == [] {
      assert a + b == b;
    } else {
      FilterConcat(keep, a[1..], b);
      ConcatSplits(a, b);
      ConcatAssociates([a[0]], Filter(keep, a[1..]), Filter(keep, b));
    }
  }

  lemma FilterCons<T>(keep: T -> bool, x: T, rest: seq<T>)
    ensures Filter(keep, [x] + rest) == if keep(x) then [x] + Filter(keep, rest) else Filter(keep, rest)
  {
    assert ([x] + rest)[1..] == rest;
  }

  lemma {:induction false} FiltersCommute<T>(p: T -> bool, q: T -> bool, s: seq<T>)
    ensures Filter(p, Filter(q, s)) == Filter(q, Filter(p, s))
  {
    if s != [] {
      FiltersCommute(p, q, s[1..]);
      FilterCons(p, s[0], Filter(q, s[1..]));
      FilterCons(q, s[0], Filter(p, s[1..]));
    }
  }

  /** A weaker filter before a stronger one changes nothing. */
  lemma {:induction false} FilterAbsorbs<T>(strong: T -> bool, weak: T -> bool, s: seq<T>)
    requires forall i :: 0 <= i < |s| && strong(s[i]) ==> weak(s[i])
    ensures Filter(strong, Filter(weak, s)) == Filter(strong, s)
  {
    if s != [] {
      FilterAbsorbs(strong, weak, s[1..]);
      FilterCons(strong, s[0], Filter(weak, s[1..]));
    }
  }

  // -------- loops --------

  /** The state after `n` steps, or after the loop is done. */
  function Iterate<S>(step: S -> S, done: S -> bool, s: S, n: nat): S
    decreases n
  {
    if n == 0 || done(s) then s else Iterate(step, done, step(s), n - 1)
  }

  lemma {:induction false} IterateStays<S>(step: S -> S, done: S -> bool, s: S, n: nat, m: nat)
    requires done(Iterate(step, done, s, n)) && n <= m
    ensures Iterate(step, done, s, m) == Iterate(step, done, s, n)
    decreases n
  {
    if n > 0 && !done(s) {
      IterateStays(step, done, step(s), n - 1, m - 1);
    }
  }

  /**
   * The steps of one loop are steps of another one, or none: `rel` relates their states, and every step that `fires`
   * is a step of the second loop, which then is not done yet.
   */
  ghost predicate Follows<S(!new), F(!new)>(
    step: S -> S, done: S -> bool, fires: S -> bool, fire: F -> F, idle: F -> bool, rel: (S, F) -> bool)
  {
    forall x, y {:trigger step(x), rel(x, y)} :: rel(x, y) && !done(x) ==>
      if fires(x) then !idle(y) && rel(step(x), fire(y)) else rel(step(x), y)
  }

  lemma {:induction false} Simulate<S(!new), F(!new)>(
    step: S -> S, done: S -> bool, fires: S -> bool, fire: F -> F, idle: F -> bool, rel: (S, F) -> bool,
    s: S, f: F, n: nat) returns (k: nat)
    requires rel(s, f) && Follows(step, done, fires, fire, idle, rel)
    ensures rel(Iterate(step, done, s, n), Iterate(fire, idle, f, k))
    decreases n
  {
    k := 0;
    if n > 0 && !done(s) {
      var next := step(s);
      if fires(s) {
        k := Simulate(step, done, fires, fire, idle, rel, next, fire(f), n - 1);
        k := k + 1;
      } else {
        k := Simulate(step, done, fires, fire, idle, rel, next, f, n - 1);
      }
    }
  }

  /** When the second loop ends, so does the first, if its other steps make it smaller. */
  lemma {:induction false} SimulateEnd<S(!new), F(!new)>(
    step: S -> S, done: S -> bool, fires: S -> bool, fire: F -> F, idle: F -> bool, rel: (S, F) -> bool,
    size: S -> nat, s: S, f: F, k: nat) returns (n: nat)
    requires rel(s, f) && Follows(step, done, fires, fire, idle, rel)
    requires forall x, y {:trigger step(x), rel(x, y)} :: rel(x, y) && !done(x) && !fires(x) ==> size(step(x)) < size(x)
    requires idle(Iterate(fire, idle, f, k))
    ensures done(Iterate(step, done, s, n))
    decreases k, size(s)
  {
    n := 0;
    if !done(s) {
      var next := step(s);
      if fires(s) {
        n := SimulateEnd(step, done, fires, fire, idle, rel, size, next, fire(f), k - 1);
      } else {
        n := SimulateEnd(step, done, fires, fire, idle, rel, size, next, f, k);
      }
      n := n + 1;
    }
  }
}
