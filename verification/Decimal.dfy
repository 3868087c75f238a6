/** The integer printer (src/Util.cpp:4-27). */
module Decimals {

  // -------- decimal notation --------

  function Digit(d: nat): char
    requires d < 10
  {
    "0123456789"[d]
  }

  function Natural(n: nat): string {
    if n < 10 then [Digit(n)] else Natural(n / 10) + [Digit(n % 10)]
  }

  function Abs(v: int): nat {
    if v < 0 then -v else v
  }

  /** The decimal form of an integer. */
  function Decimal(v: int): string {
    (if v < 0 then "-" else "") + Natural(Abs(v))
  }

  predicate IsDigit(c: char) {
    '0' <= c <= '9'
  }

  function DigitValue(c: char): int {
    c as int - '0' as int
  }

  function ParseNatural(s: string): int {
    if s == "" then 0 else 10 * ParseNatural(s[..|s| - 1]) + DigitValue(s[|s| - 1])
  }

  function Parse(s: string): int {
    if s != "" && s[0] == '-' then -ParseNatural(s[1..]) else ParseNatural(s)
  }

  predicate CanonicalNatural(s: string) {
    && s != "" && (forall i :: 0 <= i < |s| ==> IsDigit(s[i]))
    && (s[0] == '0' ==> |s| == 1)
  }

  /** Digits without superfluous leading zeros, and a minus sign only in front of a number that is not 0. */
  predicate Canonical(s: string) {
    if s != "" && s[0] == '-' then CanonicalNatural(s[1..]) && s[1] != '0' else CanonicalNatural(s)
  }

  lemma {:induction false} NaturalIsCanonical(n: nat)
    ensures CanonicalNatural(Natural(n)) && ParseNatural(Natural(n)) == n
    ensures Natural(n)[0] == '0' <==> n == 0
  {
    if n >= 10 {
      NaturalIsCanonical(n / 10);
      var head := Natural(n / 10);
      assert Natural(n)[..|head|] == head;
    } else {
      assert [Digit(n)][..0] == "";
    }
  }

  /** Parsing the decimal form gives the value back, and the form is canonical. */
  lemma DecimalIsCanonical(v: int)
    ensures Canonical(Decimal(v)) && Parse(Decimal(v)) == v
  {
    NaturalIsCanonical(Abs(v));
    var n := Natural(Abs(v));
    if v < 0 {
      assert Decimal(v)[1..] == n;
    } else {
      assert Decimal(v) == n;
    }
  }

  lemma {:induction false} CanonicalNaturalIsUnique(s: string)
    requires CanonicalNatural(s)
    ensures ParseNatural(s) >= 0 && (ParseNatural(s) == 0 <==> s[0] == '0') && Natural(ParseNatural(s)) == s
    decreases |s|
  {
    var init, last := s[..|s| - 1], DigitValue(s[|s| - 1]);
    assert s == init + [s[|s| - 1]];
    assert Digit(last) == s[|s| - 1];
    if init != "" {
      CanonicalNaturalIsUnique(init);
      var head := ParseNatural(init);
      assert (10 * head + last) / 10 == head && (10 * head + last) % 10 == last;
    }
  }

  /** The decimal form is the only canonical string that parses to the value. */
  lemma CanonicalIsUnique(s: string)
    requires Canonical(s)
    ensures Decimal(Parse(s)) == s
  {
    if s[0] == '-' {
      CanonicalNaturalIsUnique(s[1..]);
      assert s == "-" + s[1..];
    } else {
      CanonicalNaturalIsUnique(s);
    }
  }

  // -------- C++ division --------

  /** Division and remainder truncate toward zero, so the remainder has the sign of the dividend. */
  function TruncatedDiv(a: int, b: nat): int
    requires b > 0
  {
    if a >= 0 then a / b else -(-a / b)
  }

  function TruncatedMod(a: int, b: nat): int
    requires b > 0
  {
    if a >= 0 then a % b else -(-a % b)
  }

  lemma DivModSplits(n: nat, b: nat)
    requires b > 0
    ensures n == b * (n / b) + n % b && 0 <= n / b && 0 <= n % b < b
  {
  }

  /** Quotient and rest of the absolute value, with the sign of the value. */
  lemma SignedSplit(a: int, b: nat, q: int, r: int)
    requires q >= 0 && 0 <= r < b
    requires (if a < 0 then -a else a) == b * q + r
    ensures var (q', r') := if a < 0 then (-q, -r) else (q, r);
            a == q' * b + r' && Abs(r') == r && Abs(q') == q
  {
  }

  lemma TruncationSplits(a: int, b: nat)
    requires b > 0
    ensures a == TruncatedDiv(a, b) * b + TruncatedMod(a, b)
    ensures Abs(TruncatedMod(a, b)) < b
    ensures Abs(TruncatedDiv(a, b)) == Abs(a) / b && Abs(TruncatedMod(a, b)) == Abs(a) % b
  {
    DivModSplits(Abs(a), b);
    SignedSplit(a, b, Abs(a) / b, Abs(a) % b);
  }

  const DIGITS: string := "9876543210123456789"

  /** The mirrored table gives the digit of a remainder of either sign. */
  lemma MirroredTable(lsd: int)
    requires -10 < lsd < 10
    ensures DIGITS[9 + lsd] == Digit(Abs(lsd))
  {
  }

  // -------- the printer --------

  function Reversed(s: string): (r: string)
    ensures |r| == |s|
  {
    if s == "" then "" else Reversed(s[1..]) + [s[0]]
  }

  lemma {:induction false} ReversedAt(s: string, k: nat)
    requires k < |s|
    ensures Reversed(s)[k] == s[|s| - 1 - k]
  {
    if k < |s| - 1 {
      ReversedAt(s[1..], k);
    }
  }

  lemma {:induction false} ReversedSnoc(s: string, c: char)
    ensures Reversed(s + [c]) == [c] + Reversed(s)
  {
    if s == "" {
      assert s + [c] == [c] && [c][1..] == "";
    } else {
      ReversedSnoc(s[1..], c);
      assert (s + [c])[0] == s[0] && (s + [c])[1..] == s[1..] + [c];
    }
  }

  /** `std::reverse` of the first `n` characters. */
  method ReversePrefix(buf: array<char>, n: nat)
    requires n <= buf.Length
    modifies buf
    ensures buf[..n] == Reversed(old(buf[..n])) && buf[n..] == old(buf[n..])
  {
    var i, j: int := 0, n;
    while i < j - 1
      invariant 0 <= i <= n && j == n - i && i <= j + 1
      invariant forall k :: 0 <= k < i ==> buf[k] == old(buf[n - 1 - k]) && buf[n - 1 - k] == old(buf[k])
      invariant forall k :: i <= k < j ==> buf[k] == old(buf[k])
      invariant buf[n..] == old(buf[n..])
    {
      buf[i], buf[j - 1] := buf[j - 1], buf[i];
      i, j := i + 1, j - 1;
    }
    ghost var was := old(buf[..n]);
    forall k | 0 <= k < n
      ensures buf[..n][k] == Reversed(was)[k]
    {
      ReversedAt(was, k);
    }
  }

  /** One round of the loop moves the last digit of what is left to the end of what is written. */
  lemma DigitMoves(i: int, written: string)
    ensures Abs(TruncatedMod(i, 10)) < 10
    ensures var next, c := TruncatedDiv(i, 10), DIGITS[9 + TruncatedMod(i, 10)];
            Natural(Abs(i)) + Reversed(written)
            == (if next == 0 then "" else Natural(Abs(next))) + Reversed(written + [c])
    ensures TruncatedDiv(i, 10) != 0 ==> Abs(TruncatedDiv(i, 10)) < Abs(i)
  {
    TruncationSplits(i, 10);
    var next, lsd := TruncatedDiv(i, 10), TruncatedMod(i, 10);
    MirroredTable(lsd);
    ReversedSnoc(written, DIGITS[9 + lsd]);
    if next != 0 {
      var head, last, tail := Natural(Abs(next)), [Digit(Abs(lsd))], Reversed(written);
      assert Natural(Abs(i)) == head + last;
      assert (head + last) + tail == head + (last + tail);
    } else {
      assert "" + Reversed(written + [DIGITS[9 + lsd]]) == Reversed(written + [DIGITS[9 + lsd]]);
    }
  }

  lemma TailOfTail(a: string, b: string, p: nat, q: nat)
    requires p <= q <= |a| == |b| && a[p..] == b[p..]
    ensures a[q..] == b[q..]
  {
    assert a[q..] == a[p..][q - p..] && b[q..] == b[p..][q - p..];
  }

  /** One round of the loop: the last digit of `i` is written and taken off. */
  method WriteDigit(buf: array<char>, p: nat, i: int) returns (next: int)
    requires p < buf.Length
    modifies buf
    ensures Abs(TruncatedMod(i, 10)) < 10 && next == TruncatedDiv(i, 10)
    ensures buf[..p + 1] == old(buf[..p]) + [DIGITS[9 + TruncatedMod(i, 10)]]
    ensures buf[p + 1..] == old(buf[p + 1..])
  {
    TruncationSplits(i, 10);
    var lsd := TruncatedMod(i, 10);
    next := TruncatedDiv(i, 10);
    buf[p] := DIGITS[9 + lsd];
  }

  /** The do-while loop: the digits of the value, last one first. */
  method WriteDigits(buf: array<char>, value: int) returns (p: nat)
    requires buf.Length > |Natural(Abs(value))|
    modifies buf
    ensures p == |Natural(Abs(value))| && Reversed(buf[..p]) == Natural(Abs(value))
    ensures buf[p..] == old(buf[p..])
  {
    var i := value;
    p := 0;
    ghost var digits, before := Natural(Abs(value)), buf[..];
    var more := true;
    while more
      invariant 0 <= p <= |digits|
      invariant digits == (if more then Natural(Abs(i)) else "") + Reversed(buf[..p])
      invariant buf[p..] == before[p..]
      decreases more, Abs(i)
    {
      DigitMoves(i, buf[..p]);
      TailOfTail(buf[..], before, p, p + 1);
      i := WriteDigit(buf, p, i);
      p := p + 1;
      more := i != 0;
    }
  }

  /** The sign comes behind the digits, which are still in reverse. */
  method WriteSign(buf: array<char>, value: int, p: nat) returns (end: nat)
    requires p + 1 < buf.Length
    modifies buf
    ensures end == p + (if value < 0 then 1 else 0)
    ensures buf[..end] == old(buf[..p]) + (if value < 0 then "-" else "")
    ensures buf[end..] == old(buf[end..])
  {
    end := p;
    if value < 0 {
      buf[end] := '-';
      end := end + 1;
    }
  }

  /** A terminator behind the text, and nothing else changed. */
  method Terminate(buf: array<char>, p: nat)
    requires p < buf.Length
    modifies buf
    ensures buf[p] == '\0' && buf[..p] == old(buf[..p]) && buf[p + 1..] == old(buf[p + 1..])
  {
    buf[p] := '\0';
  }

  lemma ReversedSigned(digits: string, value: int)
    ensures Reversed(digits + (if value < 0 then "-" else "")) == (if value < 0 then "-" else "") + Reversed(digits)
  {
    if value < 0 {
      ReversedSnoc(digits, '-');
    } else {
      assert digits + "" == digits && "" + Reversed(digits) == Reversed(digits);
    }
  }

  /**
   * Writes the decimal form of any value, with its terminator, and returns its length. The value is never negated, so
   * the smallest value of a signed type is no exception.
   */
  method Convert(buf: array<char>, value: int) returns (len: nat)
    requires buf.Length > |Decimal(value)|
    modifies buf
    ensures len == |Decimal(value)| && buf[..len] == Decimal(value)
    ensures buf[len] == '\0' && buf[len + 1..] == old(buf[len + 1..])
  {
    len := WriteReversed(buf, value);
    Terminate(buf, len);
    ghost var tail := buf[len..];
    ReversePrefix(buf, len);
    assert buf[len] == tail[0] && buf[len + 1..] == tail[1..];
  }

  /** Digits and sign, in reverse. */
  method WriteReversed(buf: array<char>, value: int) returns (p: nat)
    requires buf.Length > |Decimal(value)|
    modifies buf
    ensures p == |Decimal(value)| && Reversed(buf[..p]) == Decimal(value)
    ensures buf[p..] == old(buf[p..])
  {
    ghost var before := buf[..];
    var digits := WriteDigits(buf, value);
    ghost var middle := buf[..];
    ReversedSigned(buf[..digits], value);
    p := digits;
    if value < 0 {
      p := WriteSign(buf, value, digits);
    } else {
      assert buf[..digits] + "" == buf[..digits];
    }
    TailOfTail(middle, before, digits, p);
  }

  /** What a caller of the printer relies on. */
  method ConvertRoundTrips(buf: array<char>, value: int) returns (len: nat)
    requires buf.Length > |Decimal(value)|
    modifies buf
    ensures len < buf.Length && Canonical(buf[..len]) && Parse(buf[..len]) == value
  {
    len := Convert(buf, value);
    DecimalIsCanonical(value);
  }
}
