/** Decimal numbers as printf writes them (%d) and as my_strtol reads them. */
module Decimal {
  import opened Bytes

  const TWO31: int := 0x8000_0000
  const TWO32: int := 0x1_0000_0000
  const LONG_MAX: int := 0x7FFF_FFFF_FFFF_FFFF

  /** The value an int keeps of a wider number. */
  function ToInt32(n: int): (r: int)
    ensures -TWO31 <= r < TWO31 && (r - n) % TWO32 == 0
    ensures -TWO31 <= n < TWO31 ==> r == n
  {
    (n + TWO31) % TWO32 - TWO31
  }

  function Digit(d: nat): char
    requires d < 10
  {
    ((('0' as int) + d) as char)
  }

  predicate IsDigit(c: char) {
    '0' <= c <= '9'
  }

  predicate IsSpace(c: char) {
    c == ' ' || '\t' <= c <= '\r'
  }

  predicate AllDigits(s: string) {
    forall i :: 0 <= i < |s| ==> IsDigit(s[i])
  }

  function Digits(n: nat): (s: string)
    ensures s != "" && AllDigits(s)
  {
    if n < 10 then [Digit(n)] else Digits(n / 10) + [Digit(n % 10)]
  }

  /** What %d prints. */
  function Print(n: int): (s: string)
    ensures s != "" && forall i :: 0 <= i < |s| ==> IsDigit(s[i]) || s[i] == '-'
  {
    if n < 0 then "-" + Digits(-n) else Digits(n)
  }

  // ----- strtol

  function SpaceEnd(s: string, i: nat): (k: nat)
    requires i <= |s|
    ensures i <= k <= |s|
    decreases |s| - i
  {
    if i < |s| && IsSpace(s[i]) then SpaceEnd(s, i + 1) else i
  }

  function DigitEnd(s: string, i: nat): (k: nat)
    requires i <= |s|
    ensures i <= k <= |s| && AllDigits(s[i..k])
    decreases |s| - i
  {
    if i < |s| && IsDigit(s[i]) then
      var k := DigitEnd(s, i + 1);
      assert s[i..k] == [s[i]] + s[i + 1..k];
      k
    else i
  }

  function Value(s: string): nat
    requires AllDigits(s)
  {
    if s == "" then 0
    else
      var last := s[|s| - 1];
      assert IsDigit(last);
      10 * Value(s[..|s| - 1]) + (last as int - '0' as int)
  }

  /** strtol(s, &end, 10): white space, an optional sign, digits. Without a digit
      it reads 0 and `end` stays at the start. */
  datatype Long = Long(value: int, end: nat, outOfRange: bool)

  function StrToL(s: string): (r: Long)
    ensures r.end <= |s|
  {
    var i := SpaceEnd(s, 0);
    var signed := i < |s| && (s[i] == '-' || s[i] == '+');
    var from := if signed then i + 1 else i;
    var to := DigitEnd(s, from);
    if to == from then Long(0, 0, false)
    else
      var n: int := Value(s[from..to]);
      Clamp(if signed && s[i] == '-' then -n else n, to)
  }

  function Clamp(n: int, end: nat): Long {
    if n > LONG_MAX then Long(LONG_MAX, end, true)
    else if n < -LONG_MAX - 1 then Long(-LONG_MAX - 1, end, true)
    else Long(n, end, false)
  }

  datatype Errno = NoError | OutOfRange | Trailing

  datatype Parsed = Parsed(number: int, errno: Errno)

  /** What my_strtol returns and leaves in errno: the long cut down to an int, and
      ETRAILING if anything but white space follows the number. */
  function Parse(s: string): Parsed {
    var l := StrToL(s);
    Parsed(ToInt32(l.value),
           if exists k :: l.end <= k < |s| && !IsSpace(s[k]) then Trailing
           else if l.outOfRange then OutOfRange else NoError)
  }

  /** my_strtol */
  method MyStrtol(s: string) returns (nr: int, errno: Errno)
    ensures Parsed(nr, errno) == Parse(s)
  {
    var l := StrToL(s);
    errno := if l.outOfRange then OutOfRange else NoError;
    nr := ToInt32(l.value);
    var end := l.end;
    while end < |s|
      invariant l.end <= end <= |s|
      invariant forall k :: l.end <= k < end ==> IsSpace(s[k])
      invariant errno == if l.outOfRange then OutOfRange else NoError
    {
      if !IsSpace(s[end]) {
        errno := Trailing;
        break;
      }
      end := end + 1;
    }
  }

  // ----- what is read, described without a scan

  predicate AllSpace(s: string) {
    forall i :: 0 <= i < |s| ==> IsSpace(s[i])
  }

  /** White space, a sign or none, all the digits that follow, and the rest. */
  ghost predicate NumberParts(s: string, lead: string, sign: string, digits: string, rest: string) {
    && s == lead + sign + digits + rest
    && AllSpace(lead) && (sign == "" || sign == "+" || sign == "-")
    && digits != "" && AllDigits(digits) && (rest != "" ==> !IsDigit(rest[0]))
  }

  function Signed(sign: string, digits: string): int
    requires AllDigits(digits)
  {
    if sign == "-" then -(Value(digits) as int) else Value(digits)
  }

  predicate FitsLong(n: int) {
    -LONG_MAX - 1 <= n <= LONG_MAX
  }

  lemma {:induction false} SpaceEndIs(s: string, i: nat, j: nat)
    requires i <= j <= |s| && AllSpace(s[i..j]) && (j < |s| ==> !IsSpace(s[j]))
    ensures SpaceEnd(s, i) == j
    decreases j - i
  {
    if i < j {
      assert IsSpace(s[i..j][0]);
      assert s[i + 1..j] == s[i..j][1..];
      SpaceEndIs(s, i + 1, j);
    }
  }

  lemma {:induction false} SpaceEndFits(s: string, i: nat)
    requires i <= |s|
    ensures var k := SpaceEnd(s, i); AllSpace(s[i..k]) && (k < |s| ==> !IsSpace(s[k]))
    decreases |s| - i
  {
    if i < |s| && IsSpace(s[i]) {
      SpaceEndFits(s, i + 1);
      assert s[i..SpaceEnd(s, i)] == [s[i]] + s[i + 1..SpaceEnd(s, i)];
    }
  }

  lemma {:induction false} DigitEndIs(s: string, i: nat, j: nat)
    requires i <= j <= |s| && AllDigits(s[i..j]) && (j < |s| ==> !IsDigit(s[j]))
    ensures DigitEnd(s, i) == j
    decreases j - i
  {
    if i < j {
      assert IsDigit(s[i..j][0]);
      assert s[i + 1..j] == s[i..j][1..];
      DigitEndIs(s, i + 1, j);
    }
  }

  lemma {:induction false} DigitEndStops(s: string, i: nat)
    requires i <= |s|
    ensures var k := DigitEnd(s, i); k < |s| ==> !IsDigit(s[k])
    decreases |s| - i
  {
    if i < |s| && IsDigit(s[i]) {
      DigitEndStops(s, i + 1);
    }
  }

  lemma StrToLOfParts(s: string, lead: string, sign: string, digits: string, rest: string)
    requires NumberParts(s, lead, sign, digits, rest)
    ensures StrToL(s) == Clamp(Signed(sign, digits), |s| - |rest|)
  {
    hide Value;
    var i, from, to := |lead|, |lead| + |sign|, |s| - |rest|;
    assert s[0..i] == lead && s[from..to] == digits;
    assert s[from] == digits[0] && (sign != "" ==> s[i] == sign[0]);
    assert rest != "" ==> s[to] == rest[0];
    SpaceEndIs(s, 0, i);
    DigitEndIs(s, from, to);
  }

  /** A text that starts with such a number is read as that number, cut off at the
      ends of the long and down to an int. It is an error if anything but white space
      follows, and otherwise if the long could not hold the number. */
  lemma ParseOfParts(s: string, lead: string, sign: string, digits: string, rest: string)
    requires NumberParts(s, lead, sign, digits, rest)
    ensures var n := Signed(sign, digits);
      Parse(s) == Parsed(
        ToInt32(if n > LONG_MAX then LONG_MAX else if n < -LONG_MAX - 1 then -LONG_MAX - 1 else n),
        if !AllSpace(rest) then Trailing else if FitsLong(n) then NoError else OutOfRange)
  {
    hide StrToL, Value;
    StrToLOfParts(s, lead, sign, digits, rest);
    var to := |s| - |rest|;
    assert forall k :: to <= k < |s| ==> s[k] == rest[k - to];
    assert forall k :: 0 <= k < |rest| ==> rest[k] == s[to + k];
  }

  /** Any other text is read as 0, and is an error unless it is all white space. */
  lemma ParseOfNone(s: string)
    requires forall lead, sign, digits, rest :: !NumberParts(s, lead, sign, digits, rest)
    ensures Parse(s) == Parsed(0, if AllSpace(s) then NoError else Trailing)
  {
    hide NumberParts, SpaceEnd, DigitEnd, Value, AllDigits;
    var i := SpaceEnd(s, 0);
    var from := if i < |s| && (s[i] == '-' || s[i] == '+') then i + 1 else i;
    if from < DigitEnd(s, from) {
      PartsOfNumber(s, i, from);
    }
    assert StrToL(s) == Long(0, 0, false);
  }

  lemma PartsOfNumber(s: string, i: nat, from: nat)
    requires i == SpaceEnd(s, 0) && i <= from <= |s| && from < DigitEnd(s, from)
    requires from == i || (from == i + 1 && (s[i] == '-' || s[i] == '+'))
    ensures var to := DigitEnd(s, from); NumberParts(s, s[0..i], s[i..from], s[from..to], s[to..])
  {
    hide SpaceEnd, DigitEnd;
    var to := DigitEnd(s, from);
    SpaceEndFits(s, 0);
    DigitEndStops(s, from);
    assert s[i..from] == if from == i then "" else [s[i]];
    assert s == s[0..i] + s[i..from] + s[from..to] + s[to..];
  }

  /** The text is a number with white space around it, and nothing else. */
  ghost predicate IsNumeral(s: string, n: int) {
    exists lead, sign, digits, rest ::
      NumberParts(s, lead, sign, digits, rest) && AllSpace(rest) && n == Signed(sign, digits)
  }

  lemma SpaceIsNoNumeral(s: string, lead: string, sign: string, digits: string, rest: string)
    requires NumberParts(s, lead, sign, digits, rest)
    ensures !AllSpace(s)
  {
    assert s[|lead| + |sign|] == digits[0];
  }

  /** my_strtol reports no error exactly for white space, which counts as 0, and for
      numerals that a long can hold; the numerals it cannot hold are out of range, and
      everything else has trailing bytes. */
  lemma ParseIff(s: string)
    ensures Parse(s).errno.NoError? <==> AllSpace(s) || exists n :: IsNumeral(s, n) && FitsLong(n)
    ensures Parse(s).errno.OutOfRange? <==> exists n :: IsNumeral(s, n) && !FitsLong(n)
    ensures AllSpace(s) ==> Parse(s).number == 0
    ensures forall n :: IsNumeral(s, n) && FitsLong(n) ==> Parse(s).number == ToInt32(n)
  {
    hide Parse, ToInt32, AllSpace, Value;
    forall n | IsNumeral(s, n)
      ensures Parse(s).errno == if FitsLong(n) then NoError else OutOfRange
      ensures FitsLong(n) ==> Parse(s).number == ToInt32(n)
    {
      var lead, sign, digits, rest :|
        NumberParts(s, lead, sign, digits, rest) && AllSpace(rest) && n == Signed(sign, digits);
      ParseOfParts(s, lead, sign, digits, rest);
    }
    if lead, sign, digits, rest :| NumberParts(s, lead, sign, digits, rest) {
      ParseOfParts(s, lead, sign, digits, rest);
      assert AllSpace(rest) ==> IsNumeral(s, Signed(sign, digits));
      SpaceIsNoNumeral(s, lead, sign, digits, rest);
    } else {
      ParseOfNone(s);
    }
  }

  /** The text is read without an error, as this number. */
  ghost predicate ReadsAs(s: string, n: int) {
    (AllSpace(s) && n == 0) || exists m :: IsNumeral(s, m) && FitsLong(m) && n == ToInt32(m)
  }

  lemma ParseReads(s: string, n: int)
    ensures Parse(s) == Parsed(n, NoError) <==> ReadsAs(s, n)
  {
    hide Parse, ToInt32, IsNumeral, AllSpace;
    ParseIff(s);
  }

  /** Digits are worth what their places say, leading zeros included. */
  lemma {:induction false} ValueOfPlaces(a: string, b: string)
    requires AllDigits(a) && AllDigits(b)
    ensures AllDigits(a + b) && Value(a + b) == Value(a) * Power10(|b|) + Value(b)
    decreases |b|
  {
    if b == "" {
      assert a + b == a;
    } else {
      var front, last := b[..|b| - 1], b[|b| - 1];
      assert IsDigit(last);
      ValueOfPlaces(a, front);
      assert (a + b)[..|a + b| - 1] == a + front && (a + b)[|a + b| - 1] == last;
      TenTimes(Value(a), Power10(|front|));
    }
  }

  lemma TenTimes(x: nat, y: nat)
    ensures x * (10 * y) == 10 * (x * y)
  {
  }

  // ----- round trip

  lemma {:induction false} ValueOfDigits(n: nat)
    ensures Value(Digits(n)) == n
  {
    if n >= 10 {
      ValueOfDigits(n / 10);
      assert Digits(n)[..|Digits(n)| - 1] == Digits(n / 10);
    } else {
      assert Digits(n)[..0] == "";
    }
  }

  lemma {:induction false} DigitEndOfDigits(s: string, i: nat)
    requires i <= |s| && AllDigits(s[i..])
    ensures DigitEnd(s, i) == |s|
    decreases |s| - i
  {
    if i < |s| {
      assert IsDigit(s[i..][0]);
      assert s[i + 1..] == s[i..][1..];
      DigitEndOfDigits(s, i + 1);
    }
  }

  lemma StrToLOfPrinted(s: string, from: nat)
    requires from < |s| && AllDigits(s[from..])
    requires from == 0 || (from == 1 && s[0] == '-')
    ensures var n: int := Value(s[from..]); StrToL(s) == Clamp(if from == 1 then -n else n, |s|)
  {
    hide Value;
    assert IsDigit(s[from..][0]);
    assert SpaceEnd(s, 0) == 0;
    DigitEndOfDigits(s, from);
    assert s[from..|s|] == s[from..];
  }

  /** Reading what was printed gives the number back, for every number a long
      can hold, cut down to an int. */
  lemma ParsePrint(n: int)
    requires -LONG_MAX - 1 <= n <= LONG_MAX
    ensures Parse(Print(n)) == Parsed(ToInt32(n), NoError)
  {
    hide Digits, Value, StrToL;
    var s := Print(n);
    var from := if n < 0 then 1 else 0;
    assert s[from..] == Digits(if n < 0 then -n else n);
    ValueOfDigits(if n < 0 then -n else n);
    StrToLOfPrinted(s, from);
  }

  lemma PrintedIsClean(n: int)
    ensures NUL !in Print(n) && LF !in Print(n) && !EndsWith(Print(n), CR)
    ensures CString(Print(n)) == Print(n)
  {
  }

  function Power10(d: nat): nat {
    if d == 0 then 1 else 10 * Power10(d - 1)
  }

  lemma {:induction false} DigitsAreFew(n: nat, d: nat)
    requires d > 0 && n < Power10(d)
    ensures |Digits(n)| <= d
    decreases d
  {
    if n >= 10 {
      assert Power10(d) == 10 * Power10(d - 1);
      assert d > 1 by {
        assert Power10(0) == 1;
      }
      DigitsAreFew(n / 10, d - 1);
    }
  }

  lemma PrintIsShort(n: int)
    requires -TWO31 <= n < TWO31
    ensures |Print(n)| + 2 <= 16
  {
    assert Power10(10) == 10 * Power10(9) == 100 * Power10(8) == 1000 * Power10(7) == 10000 * Power10(6);
    assert Power10(6) == 10 * Power10(5) == 100 * Power10(4) == 1000 * Power10(3) == 10000 * Power10(2);
    assert Power10(2) == 10 * Power10(1) == 100 * Power10(0);
    DigitsAreFew(if n < 0 then -n else n, 10);
  }
}
