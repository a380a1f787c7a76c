/** Text as the C library sees it: strchr, splitting at a separator, decimal and hexadecimal digits,
    and the number scanners strtol(3) and sscanf(3) "%x". */
module Text {

  datatype Option<+T> = None | Some(value: T)

  /** strchr(3): the position of the first `c`, or the length of `s` when there is none. */
  function IndexOf(s: string, c: char): (i: nat)
    ensures i <= |s|
    ensures c !in s[..i]
    ensures i < |s| ==> s[i] == c
  {
    if s == "" || s[0] == c then 0 else
      var i := IndexOf(s[1..], c);
      assert s[..1 + i] == [s[0]] + s[1..][..i];
      1 + i
  }

  /** The contents of a char buffer as a C string. */
  function CString(buf: seq<char>): string {
    buf[..IndexOf(buf, '\0')]
  }

  function Split(s: string, c: char): (fields: seq<string>)
    ensures |fields| >= 1
    decreases |s|
  {
    var i := IndexOf(s, c);
    if i == |s| then [s] else [s[..i]] + Split(s[i + 1..], c)
  }

  function Join(fields: seq<string>, c: char): string
    requires |fields| >= 1
  {
    if |fields| == 1 then fields[0] else fields[0] + [c] + Join(fields[1..], c)
  }

  function Count(s: string, c: char): nat {
    if s == "" then 0 else (if s[0] == c then 1 else 0) + Count(s[1..], c)
  }

  lemma IndexOfUnique(s: string, c: char, i: nat)
    requires i <= |s|
    requires c !in s[..i]
    requires i < |s| ==> s[i] == c
    ensures IndexOf(s, c) == i
  {
  }

  /** Splitting loses nothing. */
  lemma {:induction false} JoinOfSplit(s: string, c: char)
    ensures Join(Split(s, c), c) == s
    decreases |s|
  {
    hide IndexOf;
    hide Join;
    var i := IndexOf(s, c);
    if i < |s| {
      var rest := Split(s[i + 1..], c);
      JoinOfSplit(s[i + 1..], c);
      assert Split(s, c) == [s[..i]] + rest;
      hide Split;
      JoinCons(s[..i], rest, c);
      assert s == s[..i] + [c] + s[i + 1..];
    } else {
      assert Split(s, c) == [s];
      JoinOne(s, c);
    }
  }

  lemma JoinOne(f: string, c: char)
    ensures Join([f], c) == f
  {
  }

  lemma JoinCons(f: string, rest: seq<string>, c: char)
    requires |rest| >= 1
    ensures Join([f] + rest, c) == f + [c] + Join(rest, c)
  {
    assert ([f] + rest)[1..] == rest;
  }

  lemma SplitHead(f: string, rest: string, c: char)
    requires c !in f
    ensures Split(f + [c] + rest, c) == [f] + Split(rest, c)
  {
    var s := f + [c] + rest;
    assert s[..|f|] == f && s[|f| + 1..] == rest;
    IndexOfUnique(s, c, |f|);
  }

  lemma {:induction false} SplitOfJoin(fields: seq<string>, c: char)
    requires |fields| >= 1
    requires forall k | 0 <= k < |fields| :: c !in fields[k]
    ensures Split(Join(fields, c), c) == fields
  {
    if |fields| == 1 {
      IndexOfUnique(fields[0], c, |fields[0]|);
    } else {
      SplitHead(fields[0], Join(fields[1..], c), c);
      SplitOfJoin(fields[1..], c);
    }
  }

  lemma {:induction false} CountFree(s: string, c: char)
    requires c !in s
    ensures Count(s, c) == 0
  {
    if s != "" {
      assert s[0] in s;
      CountFree(s[1..], c);
    }
  }

  lemma {:induction false} CountConcat(s: string, t: string, c: char)
    ensures Count(s + t, c) == Count(s, c) + Count(t, c)
  {
    if s == "" {
      assert s + t == t;
    } else {
      CountConcat(s[1..], t, c);
      assert (s + t)[1..] == s[1..] + t;
    }
  }

  /** There is one field more than there are separators. */
  lemma {:induction false} SplitCount(s: string, c: char)
    ensures |Split(s, c)| == 1 + Count(s, c)
    decreases |s|
  {
    var i := IndexOf(s, c);
    if i == |s| {
      assert s[..i] == s;
      CountFree(s, c);
    } else {
      SplitCount(s[i + 1..], c);
      CountFree(s[..i], c);
      CountConcat(s[..i], s[i..], c);
      assert s == s[..i] + s[i..];
      assert s[i..][1..] == s[i + 1..];
    }
  }

  // ----- digits -----

  predicate IsDigit(c: char) { '0' <= c <= '9' }

  predicate IsHexDigit(c: char) { IsDigit(c) || 'a' <= c <= 'f' || 'A' <= c <= 'F' }

  function Digit(d: nat): char
    requires d < 10
  {
    '0' + d as char
  }

  function HexDigit(d: nat, upper: bool): char
    requires d < 16
  {
    if d < 10 then '0' + d as char else (if upper then 'A' else 'a') + (d - 10) as char
  }

  function DigitValue(c: char): (d: nat)
    requires IsHexDigit(c)
    ensures d < 16
  {
    if IsDigit(c) then (c - '0') as nat
    else if 'a' <= c <= 'f' then 10 + (c - 'a') as nat
    else 10 + (c - 'A') as nat
  }

  /** The number a run of digits denotes, most significant digit first. */
  function Value(s: string, base: nat): nat
    requires forall c | c in s :: IsHexDigit(c)
  {
    if s == "" then 0
    else
      assert s[|s| - 1] in s;
      Value(s[..|s| - 1], base) * base + DigitValue(s[|s| - 1])
  }

  /** The length of the longest prefix of `s` made of digits (hexadecimal ones when `hex`). */
  function DigitRun(s: string, hex: bool): (n: nat)
    ensures n <= |s|
    ensures forall c | c in s[..n] :: if hex then IsHexDigit(c) else IsDigit(c)
    ensures n < |s| ==> !(if hex then IsHexDigit(s[n]) else IsDigit(s[n]))
  {
    if s == "" || !(if hex then IsHexDigit(s[0]) else IsDigit(s[0])) then 0
    else
      var n := DigitRun(s[1..], hex);
      assert s[..1 + n] == [s[0]] + s[1..][..n];
      1 + n
  }

  // ----- isspace(3) in the C locale -----

  predicate IsSpace(c: char) {
    c == ' ' || '\U{0009}' <= c <= '\U{000D}'
  }

  function SkipSpace(s: string): (t: string)
    ensures |t| <= |s|
    ensures t != "" ==> !IsSpace(t[0])
  {
    if s != "" && IsSpace(s[0]) then SkipSpace(s[1..]) else s
  }

  // ----- integers of C -----

  const EXIT_FAILURE: nat := 1

  /** A bool used as a number. */
  function One(b: bool): nat {
    if b then 1 else 0
  }

  const INT_MAX: int := 0x7FFF_FFFF
  const UINT32: int := 0x1_0000_0000
  const LONG_MAX: int := 0x7FFF_FFFF_FFFF_FFFF
  const ULONG_MAX: int := 0xFFFF_FFFF_FFFF_FFFF

  /** Conversion to `int`: the low 32 bits, read as two's complement. */
  function ToInt(v: int): (r: int)
    ensures -INT_MAX - 1 <= r <= INT_MAX
  {
    var low := v % UINT32;
    if low <= INT_MAX then low else low - UINT32
  }

  /** What strtol(s, &end, 10) reports: the long it returns, whether errno is set, and whether
      `*end` is the terminating NUL. A text without digits leaves `end` at its start. */
  datatype Long = Long(value: int, outOfRange: bool, atEnd: bool)

  function Strtol(s: string): (r: Long)
    ensures -LONG_MAX - 1 <= r.value <= LONG_MAX
  {
    var t := SkipSpace(s);
    var negative := t != "" && t[0] == '-';
    var u := if t != "" && (t[0] == '-' || t[0] == '+') then t[1..] else t;
    var n := DigitRun(u, false);
    if n == 0 then Long(0, false, s == "")
    else
      var v: int := Value(u[..n], 10);
      var w := if negative then -v else v;
      Long(if w > LONG_MAX then LONG_MAX else if w < -LONG_MAX - 1 then -LONG_MAX - 1 else w,
           w > LONG_MAX || w < -LONG_MAX - 1, n == |u|)
  }

  // ----- decimal text -----

  function Decimal(n: nat): (s: string)
    ensures |s| >= 1
  {
    if n < 10 then [Digit(n)] else Decimal(n / 10) + [Digit(n % 10)]
  }

  lemma {:induction false} DecimalDigits(n: nat)
    ensures forall c | c in Decimal(n) :: IsDigit(c)
    ensures Value(Decimal(n), 10) == n
  {
    var s := Decimal(n);
    if n < 10 {
      assert s[..0] == "";
    } else {
      DecimalDigits(n / 10);
      assert s[..|s| - 1] == Decimal(n / 10);
    }
  }

  lemma {:induction false} DigitRunOfDigits(s: string)
    requires forall c | c in s :: IsDigit(c)
    ensures DigitRun(s, false) == |s|
  {
    if s != "" {
      assert s[0] in s && forall c | c in s[1..] :: c in s;
      DigitRunOfDigits(s[1..]);
    }
  }

  /** The numerals that strtol reads to their end: white space, a sign, digits. */
  predicate Digits(s: string) {
    s != "" && forall c | c in s :: IsDigit(c)
  }

  predicate Signed(t: string, v: int) {
    || (Digits(t) && v == Value(t, 10))
    || (t != "" && t[0] == '+' && Digits(t[1..]) && v == Value(t[1..], 10))
    || (t != "" && t[0] == '-' && Digits(t[1..]) && v == -(Value(t[1..], 10) as int))
  }

  /** `s` is white space up to position `i` and from there a numeral of value `v`. */
  predicate Numeral(s: string, i: nat, v: int) {
    i <= |s| && (forall c | c in s[..i] :: IsSpace(c)) && Signed(s[i..], v)
  }

  lemma {:induction false} SkipSpaceIsSuffix(s: string) returns (i: nat)
    ensures i <= |s| && SkipSpace(s) == s[i..] && forall c | c in s[..i] :: IsSpace(c)
  {
    i := 0;
    if s != "" && IsSpace(s[0]) {
      var j := SkipSpaceIsSuffix(s[1..]);
      i := j + 1;
      assert s[..i] == [s[0]] + s[1..][..j];
    }
  }

  lemma {:induction false} SkipSpaceStopsAt(s: string, i: nat)
    requires i < |s| && !IsSpace(s[i]) && forall c | c in s[..i] :: IsSpace(c)
    ensures SkipSpace(s) == s[i..]
  {
    if i > 0 {
      assert s[..i][0] == s[0];
      forall c | c in s[1..][..i - 1] ensures IsSpace(c) {
        assert s[1..][..i - 1] == s[..i][1..];
      }
      SkipSpaceStopsAt(s[1..], i - 1);
    }
  }

  lemma DigitRunWhole(s: string)
    ensures s != "" && DigitRun(s, false) == |s| <==> Digits(s)
  {
    assert s[..|s|] == s;
    if Digits(s) {
      DigitRunOfDigits(s);
    }
  }

  /** The number between the bounds of a long that is nearest to `v`. */
  function ClampLong(v: int): int {
    if v > LONG_MAX then LONG_MAX else if v < -LONG_MAX - 1 then -LONG_MAX - 1 else v
  }

  /** What strtol makes of text without leading white space. */
  lemma StrtolOfSigned(s: string, t: string, v: int)
    requires t == SkipSpace(s) && Signed(t, v)
    ensures Strtol(s) == Long(ClampLong(v), ClampLong(v) != v, true)
  {
    hide Value;
    hide DigitRun;
    hide SkipSpace;
    assert t[0] in t;
    var u := if t[0] == '-' || t[0] == '+' then t[1..] else t;
    if Digits(t) {
      assert IsDigit(t[0]);
    }
    assert Digits(u);
    DigitRunWhole(u);
    assert u[..|u|] == u;
  }

  /** strtol reads a whole text exactly when it is empty or a numeral; then it returns the numeral's value,
      clamped to a long with a range error, and 0 for the empty text. */
  lemma StrtolOfNumeral(s: string, i: nat, v: int)
    requires Numeral(s, i, v)
    ensures Strtol(s) == Long(ClampLong(v), ClampLong(v) != v, true)
  {
    hide Value;
    hide Strtol;
    assert s[i] == s[i..][0];
    assert s[i..][0] in s[i..];
    if Digits(s[i..]) {
      assert IsDigit(s[i]);
    }
    SkipSpaceStopsAt(s, i);
    StrtolOfSigned(s, s[i..], v);
  }

  lemma NumeralOfStrtol(s: string) returns (i: nat, v: int)
    requires Strtol(s).atEnd && s != ""
    ensures Numeral(s, i, v)
  {
    hide Value;
    hide DigitRun;
    i := SkipSpaceIsSuffix(s);
    hide SkipSpace;
    var t := s[i..];
    var u := if t != "" && (t[0] == '-' || t[0] == '+') then t[1..] else t;
    DigitRunWhole(u);
    v := if t != "" && t[0] == '-' then -(Value(u, 10) as int) else Value(u, 10);
  }

  /** A number in decimal, with a minus sign if negative. */
  function IntText(v: int): string {
    if v < 0 then "-" + Decimal(-v) else Decimal(v)
  }

  lemma IntTextIsNumeral(v: int)
    ensures Numeral(IntText(v), 0, v)
  {
    hide Value;
    hide Decimal;
    if v < 0 {
      DecimalDigits(-v);
      assert IntText(v)[1..] == Decimal(-v);
    } else {
      DecimalDigits(v);
    }
    assert IntText(v)[0..] == IntText(v);
  }
}
