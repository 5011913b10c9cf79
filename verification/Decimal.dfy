/** Printing numbers (to_string of the desktop) and reading them back (atoi of the C library). */
module Decimal {

  import Arith

  const INT_MAX: int := 0x7FFF_FFFF
  const INT_MIN: int := -0x8000_0000
  const BUFFER: int := 128

  predicate IsDigit(c: char) { '0' <= c <= '9' }

  predicate IsBlank(c: char) { c == ' ' || c == '\t' }

  function Digit(d: nat): (c: char)
    requires d < 10
    ensures IsDigit(c) && DigitValue(c) == d
  {
    (d + 48) as char
  }

  function DigitValue(c: char): (d: nat)
    requires IsDigit(c)
    ensures d < 10
  {
    c as int - 48
  }

  // ---- what the texts mean

  /** The number a digit string stands for. */
  function Value(ds: string): (v: nat)
    requires forall i :: 0 <= i < |ds| ==> IsDigit(ds[i])
  {
    if ds == [] then 0 else 10 * Value(ds[..|ds| - 1]) + DigitValue(ds[|ds| - 1])
  }

  /** The usual decimal digits, without leading zeros. */
  function Digits(v: nat): (ds: string)
    ensures ds != [] && forall i :: 0 <= i < |ds| ==> IsDigit(ds[i])
  {
    if v < 10 then [Digit(v)] else Digits(v / 10) + [Digit(v % 10)]
  }

  function SignedDigits(v: int): (s: string)
    ensures s != []
  {
    if v < 0 then ['-'] + Digits(-v) else Digits(v)
  }

  lemma {:induction false} ValueOfDigits(v: nat)
    ensures Value(Digits(v)) == v
  {
    if v >= 10 {
      ValueOfDigits(v / 10);
      assert Digits(v)[..|Digits(v)| - 1] == Digits(v / 10);
    } else {
      assert Digits(v)[..0] == [];
    }
  }

  /** A longer digit string stands for a number that is not smaller. */
  lemma {:induction false} ValueGrows(ds: string, k: nat)
    requires k <= |ds| && forall i :: 0 <= i < |ds| ==> IsDigit(ds[i])
    ensures Value(ds[..k]) <= Value(ds)
  {
    if k < |ds| {
      var init := ds[..|ds| - 1];
      ValueGrows(init, k);
      assert init[..k] == ds[..k];
    } else {
      assert ds[..k] == ds;
    }
  }

  function Clamp(v: int): (r: int)
  {
    if v > INT_MAX then INT_MAX else if v < INT_MIN then INT_MIN else v
  }

  // ---- atoi

  /** First position from i on that holds no blank. The text ends with a terminator. */
  function SkipBlanks(s: string, i: nat): (r: nat)
    requires i <= |s|
    ensures i <= r <= |s|
    decreases |s| - i
  {
    if i < |s| && IsBlank(s[i]) then SkipBlanks(s, i + 1) else i
  }

  function SkipDigits(s: string, i: nat): (r: nat)
    requires i <= |s|
    ensures i <= r <= |s| && forall k :: i <= k < r ==> IsDigit(s[k])
    decreases |s| - i
  {
    if i < |s| && IsDigit(s[i]) then SkipDigits(s, i + 1) else i
  }

  function NumberStart(s: string): (i: nat)
    ensures i <= |s|
  {
    var i := SkipBlanks(s, 0);
    if i < |s| && (s[i] == '-' || s[i] == '+') then i + 1 else i
  }

  predicate Negative(s: string)
  {
    var i := SkipBlanks(s, 0);
    i < |s| && s[i] == '-'
  }

  /** Blanks, one sign, digits: the value of the digits with the sign, clamped to 32 bits. */
  function AtoiValue(s: string): (v: int)
  {
    var i := NumberStart(s);
    var v: int := Value(s[i..SkipDigits(s, i)]);
    Clamp(if Negative(s) then 0 - v else v)
  }

  /** One more digit. */
  lemma ValueStep(s: string, from: nat, i: nat)
    requires from <= i < |s| && forall k :: from <= k <= i ==> IsDigit(s[k])
    ensures Value(s[from..i + 1]) == 10 * Value(s[from..i]) + DigitValue(s[i])
  {
    var ds := s[from..i + 1];
    assert ds[..|ds| - 1] == s[from..i] && ds[|ds| - 1] == s[i];
  }

  /** Once the digits read so far pass the limit, so do all of them. */
  lemma ValuePast(s: string, from: nat, i: nat, end: nat)
    requires from <= i <= end <= |s| && forall k :: from <= k < end ==> IsDigit(s[k])
    ensures Value(s[from..i]) <= Value(s[from..end])
  {
    ValueGrows(s[from..end], i - from);
    assert s[from..end][..i - from] == s[from..i];
  }

  lemma {:induction false} SkipDigitsFrom(s: string, i: nat, j: nat)
    requires i <= j <= |s| && forall k :: i <= k < j ==> IsDigit(s[k])
    ensures SkipDigits(s, i) == SkipDigits(s, j)
    decreases j - i
  {
    if i < j {
      SkipDigitsFrom(s, i + 1, j);
    }
  }

  lemma {:induction false} SkipBlanksFrom(s: string, i: nat, j: nat)
    requires i <= j <= |s| && forall k :: i <= k < j ==> IsBlank(s[k])
    ensures SkipBlanks(s, i) == SkipBlanks(s, j)
    decreases j - i
  {
    if i < j {
      SkipBlanksFrom(s, i + 1, j);
    }
  }

  /** The text from i on is terminated. */
  ghost predicate Terminated(s: string, i: nat)
  {
    i < |s| && exists k :: i <= k < |s| && s[k] == '\0'
  }

  method SkipLeading(s: string) returns (i: nat)
    requires Terminated(s, 0)
    ensures i == SkipBlanks(s, 0) && Terminated(s, i)
  {
    i := 0;
    while s[i] != '\0' && (s[i] == ' ' || s[i] == '\t')
      invariant Terminated(s, i) && forall k :: 0 <= k < i ==> IsBlank(s[k])
      decreases |s| - i
    {
      i := i + 1;
    }
    SkipBlanksFrom(s, 0, i);
  }

  /** Once a prefix of the digits is past the range, the whole is clamped. */
  lemma ClampPast(s: string, from: nat, i: nat, negative: bool)
    requires from <= i <= |s| && (forall k :: from <= k < i ==> IsDigit(s[k])) && Value(s[from..i]) > INT_MAX
    ensures SkipDigits(s, from) >= from
    ensures var v: int := Value(s[from..SkipDigits(s, from)]);
            Clamp(if negative then 0 - v else v) == if negative then -2147483647 - 1 else INT_MAX
  {
    SkipDigitsFrom(s, from, i);
    ValuePast(s, from, i, SkipDigits(s, from));
  }

  /** The digit loop; the accumulator stays below eleven decimal digits, far within 64 bits. */
  method ReadDigits(s: string, from: nat, negative: bool) returns (r: int)
    requires Terminated(s, from)
    ensures var v: int := Value(s[from..SkipDigits(s, from)]);
            r == Clamp(if negative then 0 - v else v)
  {
    var i := from;
    var result: int := 0;
    while s[i] != '\0' && IsDigit(s[i])
      invariant from <= i && Terminated(s, i) && forall k :: from <= k < i ==> IsDigit(s[k])
      invariant result == Value(s[from..i]) <= INT_MAX
      decreases |s| - i
    {
      ValueStep(s, from, i);
      result := result * 10 + DigitValue(s[i]);
      assert result < 0x8000_0000_0000_0000;
      if result > INT_MAX {
        ClampPast(s, from, i + 1, negative);
        return if negative then -2147483647 - 1 else INT_MAX;
      }
      i := i + 1;
    }
    SkipDigitsFrom(s, from, i);
    r := if negative then 0 - result else result;
  }

  /** atoi. */
  method Atoi(s: string) returns (r: int)
    requires Terminated(s, 0)
    ensures r == AtoiValue(s)
  {
    var i := SkipLeading(s);
    var negative := false;
    if s[i] != '\0' && s[i] == '-' {
      negative := true;
      i := i + 1;
    } else if s[i] != '\0' && s[i] == '+' {
      i := i + 1;
    }
    r := ReadDigits(s, i, negative);
  }

  // ---- to_string

  function Pow10(e: nat): (p: nat)
    ensures p > 0
  {
    if e == 0 then 1 else 10 * Pow10(e - 1)
  }

  lemma {:induction false} DigitCount(v: nat, e: nat)
    requires e > 0 && v < Pow10(e)
    ensures |Digits(v)| <= e
  {
    if v >= 10 {
      assert e > 1;
      DigitCount(v / 10, e - 1);
    }
  }

  /** The digits are the decimal places as characters, highest first. */
  lemma {:induction false} DigitAt(v: nat, i: nat)
    requires i < |Digits(v)|
    ensures Digits(v)[i] as int == '0' as int + v / Pow10(|Digits(v)| - 1 - i) % 10
  {
    if v < 10 {
      assert Pow10(0) == 1;
    } else if i < |Digits(v)| - 1 {
      var e := |Digits(v)| - 2 - i;
      DigitAt(v / 10, i);
      Arith.DivDiv(v, 10, Pow10(e));
    } else {
      assert Pow10(0) == 1;
    }
  }

  lemma {:induction false} NoLeadingZero(v: nat)
    ensures Digits(v)[0] == '0' <==> v == 0
  {
    if v >= 10 { NoLeadingZero(v / 10); }
  }

  /** Every 64-bit number has at most twenty digits. */
  lemma DigitCount64(v: nat)
    requires v < 0x1_0000_0000_0000_0000
    ensures |Digits(v)| <= 20
  {
    assert Pow10(10) == 10_000_000_000;
    assert Pow10(20) == 100_000_000_000_000_000_000 by {
      assert Pow10(15) == 1_000_000_000_000_000;
    }
    DigitCount(v, 20);
  }

  /** to_string(uint64_t): digits into the buffer, lowest first, then reversed in place. */
  method ToStringUnsigned(buf: array<char>, value: nat)
    requires buf.Length == BUFFER && value < 0x1_0000_0000_0000_0000
    modifies buf
    ensures |Digits(value)| <= 20
    ensures buf[..|Digits(value)| + 1] == Digits(value) + ['\0']
  {
    DigitCount64(value);
    var i := 0;
    if value == 0 {
      buf[0] := '0';
      buf[1] := '\0';
      assert Digits(0) == ['0'];
      return;
    }
    ghost var ds := Digits(value);
    i := PutBackward(buf, value);
    buf[i] := '\0';
    ghost var backward := buf[..];
    ReverseInPlace(buf, i);
    assert forall k :: 0 <= k < i ==> buf[k] == backward[i - 1 - k] == ds[k];
    assert buf[..i + 1] == ds + ['\0'];
  }

  /** The digits of a positive number, lowest first. */
  method PutBackward(buf: array<char>, value: nat) returns (i: nat)
    requires value > 0 && |Digits(value)| < buf.Length
    modifies buf
    ensures i == |Digits(value)| && forall k :: 0 <= k < i ==> buf[k] == Digits(value)[i - 1 - k]
  {
    i := 0;
    var v := value;
    ghost var ds := Digits(value);
    while v > 0
      invariant v >= 0 && i <= |ds| && (v > 0 ==> Digits(v) == ds[..|ds| - i]) && (v == 0 <==> i == |ds|)
      invariant forall k :: 0 <= k < i ==> buf[k] == ds[|ds| - 1 - k]
    {
      LastDigit(v);
      buf[i] := Digit(v % 10);
      i := i + 1;
      v := v / 10;
    }
  }

  lemma LastDigit(v: nat)
    ensures var ds := Digits(v);
            ds[|ds| - 1] == Digit(v % 10) && if v < 10 then |ds| == 1 else |ds| > 1 && ds[..|ds| - 1] == Digits(v / 10)
  {}

  /** The swapping loop. */
  method ReverseInPlace(buf: array<char>, n: nat)
    requires 0 < n < buf.Length
    modifies buf
    ensures forall k :: 0 <= k < n ==> buf[k] == old(buf[n - 1 - k])
    ensures forall k :: n <= k < buf.Length ==> buf[k] == old(buf[k])
  {
    var left, right := 0, n - 1;
    while left < right
      invariant 0 <= left && right == n - 1 - left && left <= right + 1
      invariant forall k :: 0 <= k < left ==> buf[k] == old(buf[n - 1 - k])
      invariant forall k :: right < k < n ==> buf[k] == old(buf[n - 1 - k])
      invariant forall k :: left <= k <= right || n <= k < buf.Length ==> buf[k] == old(buf[k])
    {
      buf[left], buf[right] := buf[right], buf[left];
      left := left + 1;
      right := right - 1;
    }
  }

  /** Where the terminator is. */
  method Terminator(buf: array<char>, ghost n: nat) returns (len: nat)
    requires n < buf.Length && buf[n] == '\0' && forall k :: 0 <= k < n ==> buf[k] != '\0'
    ensures len == n
  {
    len := 0;
    while buf[len] != '\0'
      invariant 0 <= len <= n
      decreases n - len
    {
      len := len + 1;
    }
  }

  /** Makes room for the sign: the digits and the terminator move up by one, the last of them first. */
  method MoveUp(buf: array<char>, len: nat)
    requires len + 1 < buf.Length
    modifies buf
    ensures buf[1..len + 2] == old(buf[..len + 1])
  {
    ghost var text := buf[..];
    var j: int := len;
    while j >= 0
      invariant -1 <= j <= len
      invariant forall k :: 0 <= k <= j ==> buf[k] == text[k]
      invariant forall k :: j < k <= len ==> buf[k + 1] == text[k]
      decreases j
    {
      buf[j + 1] := buf[j];
      j := j - 1;
    }
    ghost var moved, before := buf[1..len + 2], text[..len + 1];
    assert forall k :: 0 <= k <= len ==> moved[k] == before[k];
  }

  /** to_string(int64_t): a sign in front, after moving the digits and the terminator up by one. */
  method ToStringSigned(buf: array<char>, value: int)
    requires buf.Length == BUFFER && -0x8000_0000_0000_0000 <= value < 0x8000_0000_0000_0000
    modifies buf
    ensures |SignedDigits(value)| <= 21
    ensures buf[..|SignedDigits(value)| + 1] == SignedDigits(value) + ['\0']
  {
    if value < 0 {
      ToStringUnsigned(buf, -value);
      ghost var ds := Digits(-value);
      ghost var text := buf[..|ds| + 1];
      assert forall k :: 0 <= k <= |ds| ==> buf[k] == text[k];
      var len := Terminator(buf, |ds|);
      MoveUp(buf, len);
      ghost var moved := buf[1..len + 2];
      buf[0] := '-';
      assert buf[1..len + 2] == moved == text;
      assert buf[..len + 2] == ['-'] + buf[1..len + 2];
    } else {
      ToStringUnsigned(buf, value);
    }
  }

  // ---- round trip

  lemma DigitsReadBack(s: string, from: nat, u: nat)
    requires from + |Digits(u)| < |s| && s[from..from + |Digits(u)|] == Digits(u) && s[from + |Digits(u)|] == '\0'
    ensures Value(s[from..SkipDigits(s, from)]) == u
  {
    var ds := Digits(u);
    assert forall k :: from <= k < from + |ds| ==> s[k] == s[from..from + |ds|][k - from];
    SkipDigitsFrom(s, from, from + |ds|);
    ValueOfDigits(u);
  }

  /** Reading back what was printed gives the number, clamped; so every 32-bit number survives. */
  lemma PrintThenRead(v: int, rest: string)
    ensures AtoiValue(SignedDigits(v) + ['\0'] + rest) == Clamp(v)
    ensures INT_MIN <= v <= INT_MAX ==> Clamp(v) == v
  {
    var s := SignedDigits(v) + ['\0'] + rest;
    var ds := Digits(if v < 0 then -v else v);
    if v < 0 {
      assert s == ['-'] + ds + ['\0'] + rest;
      assert s[0] == '-' && s[1..1 + |ds|] == ds;
      assert NumberStart(s) == 1 && Negative(s);
      DigitsReadBack(s, 1, -v);
    } else {
      assert s[..|ds|] == ds && s[0] == ds[0];
      assert NumberStart(s) == 0 && !Negative(s);
      assert s[0..0 + |ds|] == ds;
      DigitsReadBack(s, 0, v);
    }
  }
}
