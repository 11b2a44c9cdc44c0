/** The decimal conversions of src/app_utility.c (lines 60-130). */
module Decimal {

  const LIMIT := 10_000_000_000_000_000
  const MAX_DIGITS := 16

  function Pow10(n: nat): (p: nat)
    ensures p > 0
  {
    if n == 0 then 1 else 10 * Pow10(n - 1)
  }

  predicate IsDigit(c: char) {
    '0' <= c <= '9'
  }

  function DigitValue(c: char): nat
    requires IsDigit(c)
  {
    c as int - '0' as int
  }

  function DigitChar(d: nat): (c: char)
    requires d < 10
    ensures IsDigit(c) && DigitValue(c) == d
  {
    '0' + d as char
  }

  /** The decimal numeral of n, without leading zeros. */
  function Digits(n: nat): (s: string)
    ensures |s| > 0 && forall c :: c in s ==> IsDigit(c)
  {
    (if n < 10 then [] else Digits(n / 10)) + [DigitChar(n % 10)]
  }

  /** The number a string of digits stands for. */
  function Number(s: string): nat
    requires forall c :: c in s ==> IsDigit(c)
  {
    if s == [] then 0 else 10 * Number(s[..|s| - 1]) + DigitValue(s[|s| - 1])
  }

  lemma {:induction false} NumberOfDigits(n: nat)
    ensures Number(Digits(n)) == n
  {
    var s := Digits(n);
    assert s[|s| - 1] == DigitChar(n % 10);
    if n < 10 {
      assert s[..|s| - 1] == [];
    } else {
      NumberOfDigits(n / 10);
      assert s[..|s| - 1] == Digits(n / 10);
    }
  }

  /** The numerals of at most k digits are those below 10^k. */
  lemma {:induction false} FitsExactly(n: nat, k: nat)
    requires k > 0
    ensures |Digits(n)| <= k <==> n < Pow10(k)
  {
    assert Pow10(k) == 10 * Pow10(k - 1) && Pow10(0) == 1;
    if n >= 10 && k > 1 { FitsExactly(n / 10, k - 1); }
  }

  /** The last digit moved from the numeral to the text behind it. */
  lemma MoveDigit(n: nat, tail: string)
    ensures Digits(n) + tail == (if n < 10 then "" else Digits(n / 10)) + ([DigitChar(n % 10)] + tail)
    ensures |Digits(n)| == if n < 10 then 1 else |Digits(n / 10)| + 1
  {
    Regroup(if n < 10 then "" else Digits(n / 10), [DigitChar(n % 10)], tail);
  }

  lemma Regroup(a: string, b: string, c: string)
    ensures (a + b) + c == a + (b + c)
  {
  }

  lemma LimitIsPower()
    ensures Pow10(MAX_DIGITS) == LIMIT
  {
    assert Pow10(4) == 10_000;
    assert Pow10(8) == 100_000_000;
    assert Pow10(12) == 1_000_000_000_000;
  }

  // ----- to text

  /** digit64toString: the numeral, written backwards into a 17-byte buffer from its end; start is
      the pointer returned. A value of 17 digits or more would run out of the front of the buffer. */
  method Digit64ToString(value0: nat, buff: array<char>) returns (start: nat)
    requires value0 < LIMIT && buff.Length >= MAX_DIGITS + 1
    modifies buff
    ensures start < MAX_DIGITS && buff[start..MAX_DIGITS] == Digits(value0) && buff[MAX_DIGITS] == '\0'
  {
    LimitIsPower();
    FitsExactly(value0, MAX_DIGITS);
    var value := value0;
    start := MAX_DIGITS;
    buff[start] := '\0';
    var more := true;
    while more
      invariant start <= MAX_DIGITS && buff[MAX_DIGITS] == '\0'
      invariant if more then Digits(value) + buff[start..MAX_DIGITS] == Digits(value0)
                else start < MAX_DIGITS && buff[start..MAX_DIGITS] == Digits(value0)
      decreases more, value
    {
      ghost var tail := buff[start..MAX_DIGITS];
      MoveDigit(value, tail);
      start := start - 1;
      buff[start] := DigitChar(value % 10);
      assert buff[start..MAX_DIGITS] == [DigitChar(value % 10)] + tail;
      value := value / 10;
      more := value != 0;
    }
  }

  /** itoa: sign, numeral and terminator, and the number of characters before the terminator. The
      smallest 32-bit value has no negation and is excluded. */
  method Itoa(value0: int, buf: array<char>) returns (count: nat)
    requires -0x8000_0000 < value0 < 0x8000_0000 && buf.Length >= 12
    modifies buf
    ensures var text := (if value0 < 0 then "-" else "") + Digits(if value0 < 0 then -value0 else value0);
      count == |text| <= 11 && buf[..count] == text && buf[count] == '\0'
  {
    var ptr: nat := 0;
    count := 0;
    var value := value0;
    if value == 0 {
      buf[0], buf[1] := '0', '\0';
      assert buf[..1] == "0" == Digits(0);
      return 1;
    }
    if value < 0 {
      value := -value;
      buf[0] := '-';
      ptr, count := 1, 1;
    }
    ghost var sign := buf[..ptr];
    assert sign == if value0 < 0 then "-" else "";
    WordDigits(value);
    var n := CountDigits(value);
    ptr := ptr + n;
    buf[ptr] := '\0';
    PutDigits(value, buf, ptr);
    count := count + n;
    assert buf[..ptr] == buf[..|sign|] + buf[|sign|..ptr];
  }

  lemma WordDigits(n: nat)
    requires n < 0x8000_0000
    ensures |Digits(n)| <= 10
  {
    assert Pow10(5) == 100_000;
    assert Pow10(10) == 10_000_000_000;
    FitsExactly(n, 10);
  }

  /** The first division loop of itoa: how far the text reaches. */
  method CountDigits(value: nat) returns (n: nat)
    requires value > 0
    ensures n == |Digits(value)|
  {
    var temp: nat := value;
    n := 0;
    while temp > 0
      invariant temp > 0 ==> n + |Digits(temp)| == |Digits(value)|
      invariant temp == 0 ==> n == |Digits(value)|
    {
      temp := temp / 10;
      n := n + 1;
    }
  }

  /** The second one: the digits, last first, down from the terminator. */
  method PutDigits(value: nat, buf: array<char>, end: nat)
    requires value > 0 && |Digits(value)| <= end < buf.Length
    modifies buf
    ensures buf[end - |Digits(value)|..end] == Digits(value)
    ensures forall i :: 0 <= i < buf.Length && !(end - |Digits(value)| <= i < end) ==> buf[i] == old(buf[i])
  {
    var temp: nat, ptr: nat := value, end;
    ghost var n := |Digits(value)|;
    assert Digits(value) + buf[end..end] == Digits(value);
    while temp > 0
      invariant end - n <= ptr <= end
      invariant temp > 0 ==> ptr == end - n + |Digits(temp)| && Digits(temp) + buf[ptr..end] == Digits(value)
      invariant temp == 0 ==> ptr == end - n && buf[ptr..end] == Digits(value)
      invariant forall i :: 0 <= i < buf.Length && !(ptr <= i < end) ==> buf[i] == old(buf[i])
    {
      ghost var tail := buf[ptr..end];
      ptr := ptr - 1;
      buf[ptr] := DigitChar(temp % 10);
      assert buf[ptr..end] == [DigitChar(temp % 10)] + tail;
      MoveDigit(temp, tail);
      temp := temp / 10;
    }
  }

  // ----- from text

  /** The leading digits of a text. */
  function Leading(s: string): (p: string)
    ensures |p| <= |s| && p == s[..|p|] && (forall c :: c in p ==> IsDigit(c))
    ensures |p| < |s| ==> !IsDigit(s[|p|])
  {
    if s != [] && IsDigit(s[0]) then
      var r := Leading(s[1..]);
      assert [s[0]] + r == s[..|r| + 1];
      [s[0]] + r
    else []
  }

  /** The part of the text the conversion looks at. */
  function Read(data: string): (s: string)
    ensures |s| <= MAX_DIGITS
  {
    if |data| > MAX_DIGITS then data[..MAX_DIGITS] else data
  }

  /** atoi: each digit is weighted by its place in the whole text before the first other character
      is noticed, so what follows the digits scales them as if it were zeros. */
  method Atoi(data: string) returns (value: nat)
    ensures var s := Read(data); value == Number(Leading(s)) * Pow10(|s| - |Leading(s)|)
  {
    var s := Read(data);
    value := 0;
    var i := 0;
    assert s[..0] == [];
    assert 0 * Pow10(|s|) == 0;
    while i < |s|
      invariant 0 <= i <= |Leading(s)| && value == Number(s[..i]) * Pow10(|s| - i)
    {
      var ch := s[i];
      if !IsDigit(ch) {
        LeadingStops(s, i);
        return;
      }
      LeadingGoesOn(s, i);
      var mp := Weighted(DigitValue(ch), |s| - i - 1);
      PlaceValue(s, i);
      value := value + mp;
      i := i + 1;
    }
    assert s[..|s|] == s;
  }

  /** mp * 10, v_len times. */
  method Weighted(mp0: nat, vLen: nat) returns (mp: nat)
    ensures mp == mp0 * Pow10(vLen)
  {
    mp := mp0;
    for i := 0 to vLen
      invariant mp == mp0 * Pow10(i)
    {
      TenTimes(mp0, Pow10(i));
      mp := mp * 10;
    }
  }

  lemma TenTimes(a: nat, p: nat)
    ensures (a * p) * 10 == a * (10 * p)
  {
  }

  lemma LeadingStops(s: string, i: nat)
    requires i < |s| && i <= |Leading(s)| && !IsDigit(s[i])
    ensures Leading(s) == s[..i]
  {
    LeadingAreDigits(s, i);
  }

  lemma LeadingAreDigits(s: string, i: nat)
    requires i < |s|
    ensures i < |Leading(s)| ==> IsDigit(s[i])
  {
    assert i < |Leading(s)| ==> s[i] == Leading(s)[i] && Leading(s)[i] in Leading(s);
  }

  lemma LeadingGoesOn(s: string, i: nat)
    requires i < |s| && i <= |Leading(s)| && IsDigit(s[i])
    ensures i < |Leading(s)|
  {
  }

  lemma PlaceValue(s: string, i: nat)
    requires i < |Leading(s)|
    ensures forall c :: c in s[..i + 1] ==> IsDigit(c)
    ensures Number(s[..i + 1]) * Pow10(|s| - (i + 1))
         == Number(s[..i]) * Pow10(|s| - i) + DigitValue(s[i]) * Pow10(|s| - i - 1)
  {
    assert s[..i + 1] == Leading(s)[..i + 1];
    assert s[..i + 1][..i] == s[..i];
    var p := Pow10(|s| - i - 1);
    assert Pow10(|s| - i) == 10 * p;
    Distribute(Number(s[..i]), DigitValue(s[i]), p);
  }

  lemma Distribute(n: nat, d: nat, p: nat)
    ensures (10 * n + d) * p == n * (10 * p) + d * p
  {
  }

  /** A text stands for the number of its leading digits. What atoi makes of it is that number exactly
      when the leading digits are all it reads, sixteen characters at most, or are zero: characters behind
      them scale the result, and digits beyond the sixteenth are not seen. */
  lemma AtoiExactly(data: string)
    ensures var s := Read(data); var p := Leading(s);
      (Number(p) * Pow10(|s| - |p|) == Number(Leading(data))) <==>
      (|Leading(data)| == |s| || Number(Leading(data)) == 0)
  {
    var s, all := Read(data), Leading(data);
    var p := Leading(s);
    LeadingOfPrefix(data, |s|);
    if |all| > |s| {
      assert p == all[..|s|] == s && Pow10(0) == 1;
      Outgrows(all, |s|);
    } else if |p| < |s| {
      assert Pow10(|s| - |p|) >= 10;
      Bigger(Number(p), Pow10(|s| - |p|));
    } else {
      assert Pow10(0) == 1;
    }
  }

  lemma {:induction false} LeadingOfPrefix(s: string, n: nat)
    requires n <= |s|
    ensures Leading(s[..n]) == if |Leading(s)| <= n then Leading(s) else s[..n]
  {
    if n > 0 && IsDigit(s[0]) {
      assert s[..n][1..] == s[1..][..n - 1];
      LeadingOfPrefix(s[1..], n - 1);
      assert [s[0]] + s[1..][..n - 1] == s[..n];
    }
  }

  /** A longer number is at least ten times its beginning. */
  lemma {:induction false} Outgrows(s: string, n: nat)
    requires n < |s| && forall c :: c in s ==> IsDigit(c)
    ensures Number(s) >= 10 * Number(s[..n])
  {
    var init := s[..|s| - 1];
    assert init[..|init|] == init && s[..n] == init[..n];
    if n < |init| { Outgrows(init, n); }
  }

  lemma Bigger(a: nat, p: nat)
    requires p >= 10
    ensures a * p == a <==> a == 0
  {
    if a > 0 { assert a * p >= a * 10; }
  }

  /** What digit64toString writes, atoi reads back. */
  lemma RoundTrip(n: nat)
    requires n < LIMIT
    ensures Read(Digits(n)) == Digits(n) && Leading(Digits(n)) == Digits(n) && Number(Leading(Digits(n))) == n
  {
    LimitIsPower();
    FitsExactly(n, MAX_DIGITS);
    NumberOfDigits(n);
    AllLeading(Digits(n));
  }

  lemma {:induction false} AllLeading(s: string)
    requires forall c :: c in s ==> IsDigit(c)
    ensures Leading(s) == s
  {
    if s != [] {
      assert s[0] in s;
      AllLeading(s[1..]);
    }
  }
}
