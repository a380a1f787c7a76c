/** Dotted-quad IPv4 text: inet_ntop(3) and inet_pton(3) for AF_INET, over host-order words. */
module Ipv4 {
  import opened Text
  import opened Words

  function OctetText(n: nat): (s: string)
    requires n < 256
    ensures 1 <= |s| <= 3
    ensures forall c | c in s :: IsDigit(c)
  {
    if n < 10 then [Digit(n)]
    else if n < 100 then [Digit(n / 10), Digit(n % 10)]
    else [Digit(n / 10 / 10), Digit(n / 10 % 10), Digit(n % 10)]
  }

  /** One octet: one to three digits, no leading zero, at most 255. */
  function ParseOctet(s: string): (r: Option<nat>)
    ensures r.Some? ==> r.value < 256
  {
    if 1 <= |s| <= 3 && (forall c | c in s :: IsDigit(c)) && (|s| > 1 ==> s[0] != '0') && Value(s, 10) < 256
    then Some(Value(s, 10)) else None
  }

  function Print(a: nat): string {
    Join([OctetText(Octet(a, 0)), OctetText(Octet(a, 1)), OctetText(Octet(a, 2)), OctetText(Octet(a, 3))], '.')
  }

  function Parse(s: string): (r: Option<nat>)
    ensures r.Some? ==> r.value < WORD
  {
    var f := Split(s, '.');
    if |f| != 4 then None
    else
      match (ParseOctet(f[0]), ParseOctet(f[1]), ParseOctet(f[2]), ParseOctet(f[3]))
      case (Some(a), Some(b), Some(c), Some(d)) => WordOfOctets(a, b, c, d); Some(FromOctets(a, b, c, d))
      case _ => None
  }

  lemma JoinFour(a: string, b: string, c: string, d: string)
    ensures Join([a, b, c, d], '.') == a + "." + b + "." + c + "." + d
  {
    assert [c, d][1..] == [d];
    assert Join([c, d], '.') == c + "." + d;
    assert [b, c, d][1..] == [c, d];
    assert Join([b, c, d], '.') == b + "." + (c + "." + d);
    assert [a, b, c, d][1..] == [b, c, d];
    assert Join([a, b, c, d], '.') == a + "." + (b + "." + (c + "." + d));
  }

  lemma ValueShort(s: string)
    requires 1 <= |s| <= 3 && forall c | c in s :: IsDigit(c)
    ensures |s| == 1 ==> Value(s, 10) == DigitValue(s[0])
    ensures |s| == 2 ==> Value(s, 10) == DigitValue(s[0]) * 10 + DigitValue(s[1])
    ensures |s| == 3 ==> Value(s, 10) == (DigitValue(s[0]) * 10 + DigitValue(s[1])) * 10 + DigitValue(s[2])
  {
    var t := s[..|s| - 1];
    if |s| > 1 {
      assert forall c | c in t :: c in s;
      ValueShort(t);
    }
  }

  lemma DigitRoundTrip(d: nat, c: char)
    requires d < 10 && IsDigit(c)
    ensures IsDigit(Digit(d)) && DigitValue(Digit(d)) == d
    ensures DigitValue(c) < 10 && Digit(DigitValue(c)) == c
  {
  }

  lemma LeadingDigit(c: char)
    requires IsDigit(c)
    ensures DigitValue(c) == 0 <==> c == '0'
    ensures Digit(0) == '0'
  {
  }

  lemma ParseOfOctetText(n: nat)
    requires n < 256
    ensures ParseOctet(OctetText(n)) == Some(n)
    ensures '.' !in OctetText(n)
  {
    hide Value;
    hide Digit;
    hide DigitValue;
    hide OctetText;
    var s := OctetText(n);
    OctetTextValue(n);
    assert s[0] in s;
    assert forall c | c in s :: c != '.';
  }

  lemma OctetTextValue(n: nat)
    requires n < 256
    ensures Value(OctetText(n), 10) == n
    ensures |OctetText(n)| > 1 ==> OctetText(n)[0] != '0'
  {
    hide Value;
    hide Digit;
    hide DigitValue;
    var s := OctetText(n);
    ValueShort(s);
    LeadingDigit(s[0]);
    DigitRoundTrip(n % 10, '0');
    if n >= 100 {
      DigitRoundTrip(n / 10 % 10, '0');
      DigitRoundTrip(n / 10 / 10, '0');
    } else if n >= 10 {
      DigitRoundTrip(n / 10, '0');
    }
  }

  lemma OctetTextOfParse(s: string)
    requires ParseOctet(s).Some?
    ensures OctetText(ParseOctet(s).value) == s
  {
    hide Value;
    hide Digit;
    hide DigitValue;
    ValueShort(s);
    assert forall i | 0 <= i < |s| :: s[i] in s;
    DigitRoundTrip(0, s[0]);
    if |s| > 1 { DigitRoundTrip(0, s[1]); }
    if |s| > 2 { DigitRoundTrip(0, s[2]); }
    LeadingDigit(s[0]);
  }

  /** Printing an address and reading it back gives the same address. */
  lemma ParseOfPrint(a: nat)
    requires a < WORD
    ensures Parse(Print(a)) == Some(a)
  {
    var f := [OctetText(Octet(a, 0)), OctetText(Octet(a, 1)), OctetText(Octet(a, 2)), OctetText(Octet(a, 3))];
    ParseOfOctetText(Octet(a, 0));
    ParseOfOctetText(Octet(a, 1));
    ParseOfOctetText(Octet(a, 2));
    ParseOfOctetText(Octet(a, 3));
    SplitOfJoin(f, '.');
    OctetsOfWord(a);
  }

  /** Every text that reads as an address is exactly how that address is printed. */
  lemma PrintOfParse(s: string)
    requires Parse(s).Some?
    ensures Print(Parse(s).value) == s
  {
    var f := Split(s, '.');
    var a, b, c, d := ParseOctet(f[0]).value, ParseOctet(f[1]).value, ParseOctet(f[2]).value, ParseOctet(f[3]).value;
    WordOfOctets(a, b, c, d);
    OctetTextOfParse(f[0]);
    OctetTextOfParse(f[1]);
    OctetTextOfParse(f[2]);
    OctetTextOfParse(f[3]);
    assert f == [f[0], f[1], f[2], f[3]];
    JoinOfSplit(s, '.');
  }

  lemma PrintOctets(a: nat, b: nat, c: nat, d: nat)
    requires a < 256 && b < 256 && c < 256 && d < 256
    ensures Print(FromOctets(a, b, c, d)) == OctetText(a) + "." + OctetText(b) + "." + OctetText(c) + "." + OctetText(d)
  {
    hide OctetText;
    WordOfOctets(a, b, c, d);
    JoinFour(OctetText(a), OctetText(b), OctetText(c), OctetText(d));
  }

  lemma PrintZero()
    ensures Print(0) == "0.0.0.0"
  {
    PrintOctets(0, 0, 0, 0);
    assert OctetText(0) == "0";
  }
}
