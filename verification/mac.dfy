/** The --macaddress option: slirp4netns_macaddr_hexstring_to_data of main.c and its printed form. */
module Mac {
  import opened Text

  type Byte = n: nat | n < 256

  // ----- sscanf(s, "%x", &temp) -----

  /** Drops an optional sign. */
  function SkipSign(s: string): (t: string) {
    if s != "" && (s[0] == '-' || s[0] == '+') then s[1..] else s
  }

  predicate StartsWithPrefix(s: string) {
    |s| >= 2 && s[0] == '0' && (s[1] == 'x' || s[1] == 'X')
  }

  /** Drops an optional 0x. */
  function SkipHexPrefix(s: string): (t: string) {
    if StartsWithPrefix(s) then s[2..] else s
  }

  /** White space, a sign, 0x, then as many hexadecimal digits as there are; the unsigned long they
      denote saturates, and its low half is stored in an int. No digit is a matching failure. */
  function ScanHex(s: string): Option<int> {
    var t := SkipSpace(s);
    var u := SkipHexPrefix(SkipSign(t));
    var n := DigitRun(u, true);
    if n == 0 then None
    else
      var v: int := Value(u[..n], 16);
      Some(ToInt(if v > ULONG_MAX then ULONG_MAX else if t[0] == '-' then -v else v))
  }

  /** The scan and the range check of one octet. */
  function ScanOctet(s: string): Option<Byte> {
    match ScanHex(s)
    case Some(v) => if 0 <= v <= 255 then Some(v) else None
    case None => None
  }

  /** What the scan reads, part by part. */
  datatype Field = Field(space: string, sign: string, prefix: string, digits: string, rest: string)

  function FieldText(f: Field): string {
    f.space + (f.sign + (f.prefix + (f.digits + f.rest)))
  }

  predicate IsSign(s: string) {
    s == "" || (|s| == 1 && (s[0] == '+' || s[0] == '-'))
  }

  predicate IsPrefix(s: string) {
    s == "" || (|s| == 2 && StartsWithPrefix(s))
  }

  /** White space, an optional sign, an optional 0x and all the digits that follow. A 0 before an x is the
      start of a prefix, never a digit. */
  predicate IsField(f: Field) {
    && (forall c | c in f.space :: IsSpace(c)) && IsSign(f.sign) && IsPrefix(f.prefix)
    && f.digits != "" && (forall c | c in f.digits :: IsHexDigit(c))
    && (f.rest != "" ==> !IsHexDigit(f.rest[0]))
    && (f.prefix == "" ==> !StartsWithPrefix(f.digits + f.rest))
  }

  /** The digits as an unsigned long, negated if signed so, saturating, and cut to an int. */
  function Stored(f: Field): int
    requires IsField(f)
  {
    var v: int := Value(f.digits, 16);
    ToInt(if v > ULONG_MAX then ULONG_MAX else if f.sign != "" && f.sign[0] == '-' then -v else v)
  }

  lemma {:induction false} RunOfDigits(digits: string, rest: string)
    requires (forall c | c in digits :: IsHexDigit(c)) && (rest != "" ==> !IsHexDigit(rest[0]))
    ensures DigitRun(digits + rest, true) == |digits|
  {
    if digits == "" {
      assert digits + rest == rest;
    } else {
      assert digits[0] in digits && forall c | c in digits[1..] :: c in digits;
      assert (digits + rest)[1..] == digits[1..] + rest;
      RunOfDigits(digits[1..], rest);
    }
  }

  lemma HexDigitIsPlain(c: char)
    requires IsHexDigit(c)
    ensures !IsSpace(c) && c != '+' && c != '-'
  {
  }

  lemma PrefixSkipped(f: Field)
    requires IsField(f)
    ensures SkipHexPrefix(f.prefix + (f.digits + f.rest)) == f.digits + f.rest
  {
    hide IsHexDigit;
    hide IsSpace;
    var d := f.digits + f.rest;
    if f.prefix == "" {
      assert f.prefix + d == d;
    } else {
      assert (f.prefix + d)[2..] == d;
    }
  }

  lemma SignSkipped(f: Field)
    requires IsField(f)
    ensures var d := f.prefix + (f.digits + f.rest);
            var t := f.sign + d;
            t != "" && !IsSpace(t[0]) && SkipSign(t) == d && (t[0] == '-' <==> f.sign != "" && f.sign[0] == '-')
  {
    hide IsHexDigit;
    var d := f.prefix + (f.digits + f.rest);
    assert f.digits[0] in f.digits;
    HexDigitIsPlain(f.digits[0]);
    assert d[0] == if f.prefix == "" then f.digits[0] else '0';
    if f.sign == "" {
      assert f.sign + d == d;
    } else {
      assert (f.sign + d)[0] == f.sign[0] && (f.sign + d)[1..] == d;
    }
  }

  lemma SpaceSkipped(f: Field)
    requires IsField(f)
    ensures SkipSpace(FieldText(f)) == f.sign + (f.prefix + (f.digits + f.rest))
  {
    SignSkipped(f);
    hide SkipSign;
    var s, t := FieldText(f), f.sign + (f.prefix + (f.digits + f.rest));
    assert s[..|f.space|] == f.space && s[|f.space|..] == t;
    SkipSpaceStopsAt(s, |f.space|);
  }

  /** The scan of a field stores its value. */
  lemma ScanOfField(s: string, f: Field)
    requires IsField(f) && s == FieldText(f)
    ensures ScanHex(s) == Some(Stored(f))
  {
    hide Value;
    hide DigitRun;
    hide SkipSpace;
    hide SkipSign;
    hide SkipHexPrefix;
    SpaceSkipped(f);
    SignSkipped(f);
    PrefixSkipped(f);
    RunOfDigits(f.digits, f.rest);
    assert (f.digits + f.rest)[..|f.digits|] == f.digits;
  }

  lemma SplitSpace(s: string) returns (space: string)
    ensures s == space + SkipSpace(s) && forall c | c in space :: IsSpace(c)
  {
    var i := SkipSpaceIsSuffix(s);
    space := s[..i];
  }

  lemma SplitSign(t: string) returns (sign: string)
    ensures IsSign(sign) && t == sign + SkipSign(t)
  {
    sign := if SkipSign(t) == t then "" else [t[0]];
  }

  lemma SplitPrefix(d: string) returns (prefix: string)
    ensures IsPrefix(prefix) && d == prefix + SkipHexPrefix(d)
    ensures prefix == "" ==> !StartsWithPrefix(SkipHexPrefix(d))
  {
    prefix := if StartsWithPrefix(d) then [d[0], d[1]] else "";
  }

  lemma SplitDigits(u: string) returns (digits: string, rest: string)
    requires DigitRun(u, true) > 0
    ensures u == digits + rest && digits != "" && (forall c | c in digits :: IsHexDigit(c))
    ensures rest != "" ==> !IsHexDigit(rest[0])
  {
    hide DigitRun;
    digits, rest := u[..DigitRun(u, true)], u[DigitRun(u, true)..];
  }

  lemma ScanFindsDigits(s: string)
    requires ScanHex(s).Some?
    ensures DigitRun(SkipHexPrefix(SkipSign(SkipSpace(s))), true) > 0
  {
  }

  lemma MakeField(f: Field, s: string, t: string, d: string, u: string)
    requires s == f.space + t && t == f.sign + d && d == f.prefix + u && u == f.digits + f.rest
    requires (forall c | c in f.space :: IsSpace(c)) && IsSign(f.sign) && IsPrefix(f.prefix)
    requires f.digits != "" && (forall c | c in f.digits :: IsHexDigit(c))
    requires f.rest != "" ==> !IsHexDigit(f.rest[0])
    requires f.prefix == "" ==> !StartsWithPrefix(u)
    ensures IsField(f) && s == FieldText(f)
  {
  }

  /** Everything the scan accepts is a field. */
  lemma FieldOfScan(s: string) returns (f: Field)
    requires ScanHex(s).Some?
    ensures IsField(f) && s == FieldText(f)
  {
    ScanFindsDigits(s);
    var space := SplitSpace(s);
    var sign := SplitSign(SkipSpace(s));
    var prefix := SplitPrefix(SkipSign(SkipSpace(s)));
    var digits, rest := SplitDigits(SkipHexPrefix(SkipSign(SkipSpace(s))));
    hide *;
    f := Field(space, sign, prefix, digits, rest);
    MakeField(f, s, SkipSpace(s), SkipSign(SkipSpace(s)), SkipHexPrefix(SkipSign(SkipSpace(s))));
  }

  lemma {:induction false} SkipSpaceStops(f: string, rest: string)
    ensures SkipSpace(f + ":" + rest) == SkipSpace(f) + ":" + rest
  {
    var s := f + ":" + rest;
    if f != "" {
      assert s[1..] == f[1..] + ":" + rest;
      if IsSpace(f[0]) {
        SkipSpaceStops(f[1..], rest);
      }
    }
  }

  lemma {:induction false} RunStops(f: string, rest: string)
    ensures DigitRun(f + ":" + rest, true) == DigitRun(f, true)
  {
    var s := f + ":" + rest;
    if f != "" {
      assert s[1..] == f[1..] + ":" + rest;
      RunStops(f[1..], rest);
    }
  }

  lemma PrefixStops(f: string, rest: string)
    ensures SkipSign(f + ":" + rest) == SkipSign(f) + ":" + rest
    ensures SkipHexPrefix(f + ":" + rest) == SkipHexPrefix(f) + ":" + rest
  {
    var s := f + ":" + rest;
    if f != "" {
      assert s[1..] == f[1..] + ":" + rest;
    }
    if |f| >= 2 {
      assert s[2..] == f[2..] + ":" + rest;
    }
  }

  /** The scan never reads past the next colon: handed the rest of the string, it sees one field. */
  lemma ScanStopsAtColon(f: string, rest: string)
    ensures ScanHex(f + ":" + rest) == ScanHex(f)
  {
    hide SkipSpace;
    hide SkipSign;
    hide SkipHexPrefix;
    hide DigitRun;
    hide Value;
    SkipSpaceStops(f, rest);
    PrefixStops(SkipSpace(f), rest);
    PrefixStops(SkipSign(SkipSpace(f)), rest);
    var u := SkipHexPrefix(SkipSign(SkipSpace(f)));
    RunStops(u, rest);
    assert (u + ":" + rest)[..DigitRun(u, true)] == u[..DigitRun(u, true)];
    if SkipSpace(f) == "" {
      NothingToScan();
    }
  }

  lemma NothingToScan()
    ensures SkipHexPrefix(SkipSign("")) == "" && DigitRun("", true) == 0
    ensures ScanOctet("") == None
  {
    assert SkipSpace("") == "";
  }

  // ----- the whole address -----

  function ScanOctets(fields: seq<string>): (r: Option<seq<Byte>>)
    ensures r.Some? ==> |r.value| == |fields|
    ensures r.Some? <==> forall k | 0 <= k < |fields| :: ScanOctet(fields[k]).Some?
    ensures r.Some? ==> forall k | 0 <= k < |fields| :: ScanOctet(fields[k]) == Some(r.value[k])
  {
    if fields == [] then Some([])
    else
      match (ScanOctet(fields[0]), ScanOctets(fields[1..]))
      case (Some(b), Some(bs)) => Some([b] + bs)
      case _ => None
  }

  /** A MAC text is one to six octets separated by colons. */
  function Parse(mac: string): (r: Option<seq<Byte>>) {
    var fields := Split(mac, ':');
    if |fields| > 6 then None else ScanOctets(fields)
  }

  /** The parser of main.c, walking the text with strchr and storing into `data`. */
  method HexstringToData(mac: string, data: array<Byte>) returns (rc: int)
    requires data.Length >= 6
    modifies data
    ensures rc == match Parse(mac) case Some(bytes) => |bytes| case None => -1
    ensures Parse(mac).Some? ==> rc <= 6 && data[..rc] == Parse(mac).value
    ensures Parse(mac).Some? ==> forall k | rc <= k < data.Length :: data[k] == old(data[k])
    ensures forall k | 6 <= k < data.Length :: data[k] == old(data[k])
  {
    hide ScanOctet;
    hide Split;
    hide Parse;
    hide IndexOf;
    ghost var fields, done := Split(mac, ':'), [];
    var ptr, isNull := 0, false;
    var d := 0;
    assert mac[0..] == mac;
    while !isNull && d < 6
      invariant 0 <= d <= 6 && |done| == d
      invariant isNull ==> done == fields
      invariant !isNull ==> ptr <= |mac| && (ptr == 0 <==> d == 0) && (d > 0 ==> ptr < |mac|)
      invariant !isNull ==> done + Split(mac[if d == 0 then 0 else ptr + 1..], ':') == fields
      invariant forall k | 0 <= k < d :: ScanOctet(done[k]) == Some(data[k])
      invariant forall k | d <= k < data.Length :: data[k] == old(data[k])
      decreases !isNull, 6 - d
    {
      if ptr != 0 {
        ptr := ptr + 1;
      }
      var rest := mac[ptr..];
      var i := IndexOf(rest, ':');
      FirstField(rest);
      var temp := ScanOctet(rest);
      ScanOfRest(rest);
      if temp.None? {
        assert fields[d] == rest[..i];
        ParseFails(mac, d);
        return -1;
      }
      assert i > 0 by { NothingToScan(); }
      data[d] := temp.value;
      d := d + 1;
      done := done + [rest[..i]];
      if i == |rest| {
        isNull := true;
      } else {
        ptr := ptr + i;
        assert rest[i + 1..] == mac[ptr + 1..];
      }
    }
    if !isNull {
      assert |fields| > 6;
      ParseFails(mac, 0);
      return -1;
    }
    ParseSucceeds(mac, data[..d]);
    return d;
  }

  lemma ParseFails(mac: string, k: nat)
    requires k < |Split(mac, ':')|
    requires ScanOctet(Split(mac, ':')[k]).None? || |Split(mac, ':')| > 6
    ensures Parse(mac).None?
  {
    hide ScanOctet;
    hide Split;
  }

  lemma ParseSucceeds(mac: string, bytes: seq<Byte>)
    requires |Split(mac, ':')| == |bytes| <= 6
    requires forall k | 0 <= k < |bytes| :: ScanOctet(Split(mac, ':')[k]) == Some(bytes[k])
    ensures Parse(mac) == Some(bytes)
  {
    hide ScanOctet;
    hide Split;
    assert ScanOctets(Split(mac, ':')).value == bytes;
  }

  lemma FirstField(rest: string)
    ensures var i := IndexOf(rest, ':');
            && Split(rest, ':')[0] == rest[..i]
            && Split(rest, ':') == [rest[..i]] + if i == |rest| then [] else Split(rest[i + 1..], ':')
  {
  }

  lemma ScanOfRest(rest: string)
    ensures ScanOctet(rest) == ScanOctet(rest[..IndexOf(rest, ':')])
  {
    hide ScanHex;
    var i := IndexOf(rest, ':');
    if i == |rest| {
      assert rest[..i] == rest;
    } else {
      assert rest == rest[..i] + ":" + rest[i + 1..];
      ScanStopsAtColon(rest[..i], rest[i + 1..]);
    }
  }

  /** A success has one octet more than there are colons, and six or more colons always fail. */
  lemma LengthIsColonsPlusOne(mac: string)
    ensures Parse(mac).Some? ==> |Parse(mac).value| == 1 + Count(mac, ':')
    ensures Count(mac, ':') >= 6 ==> Parse(mac).None?
    ensures Parse(mac).Some? ==> (|Parse(mac).value| == 6 <==> Count(mac, ':') == 5)
  {
    SplitCount(mac, ':');
  }

  // ----- printing -----

  /** printf "%02x", or "%02X". */
  function Hex2(b: Byte, upper: bool): string {
    [HexDigit(b / 16, upper), HexDigit(b % 16, upper)]
  }

  function Hex2All(mac: seq<Byte>, upper: bool): seq<string>
    requires |mac| == 6
  {
    [Hex2(mac[0], upper), Hex2(mac[1], upper), Hex2(mac[2], upper), Hex2(mac[3], upper), Hex2(mac[4], upper),
     Hex2(mac[5], upper)]
  }

  function Print(mac: seq<Byte>, upper: bool): string
    requires |mac| == 6
  {
    Join(Hex2All(mac, upper), ':')
  }

  lemma HexDigitRoundTrip(d: nat, upper: bool)
    requires d < 16
    ensures var c := HexDigit(d, upper);
            && c == (if upper then "0123456789ABCDEF" else "0123456789abcdef")[d]
            && IsHexDigit(c) && DigitValue(c) == d && !IsSpace(c) && c !in "-+xX:"
  {
  }

  lemma ValueOfTwo(s: string)
    requires |s| == 2 && IsHexDigit(s[0]) && IsHexDigit(s[1])
    ensures Value(s, 16) == DigitValue(s[0]) * 16 + DigitValue(s[1])
  {
    var t := s[..1];
    assert t[..0] == "" && Value(t[..0], 16) == 0;
    assert t[|t| - 1] == s[0];
    assert Value(t, 16) == DigitValue(s[0]);
  }

  lemma ScanOfDigits(s: string)
    requires s != "" && (forall c | c in s :: IsHexDigit(c)) && Value(s, 16) <= ULONG_MAX && !StartsWithPrefix(s)
    ensures ScanHex(s) == Some(ToInt(Value(s, 16)))
  {
    hide Value;
    hide ScanHex;
    hide IsHexDigit;
    hide StartsWithPrefix;
    var f := Field("", "", "", s, "");
    assert s + "" == s && FieldText(f) == s;
    ScanOfField(s, f);
  }

  lemma Hex2Shape(b: Byte, upper: bool)
    ensures var s := Hex2(b, upper);
            s != "" && (forall c | c in s :: IsHexDigit(c)) && Value(s, 16) == b && !StartsWithPrefix(s) && ':' !in s
  {
    hide HexDigit;
    hide DigitValue;
    hide Value;
    hide IsHexDigit;
    HexDigitRoundTrip(b / 16, upper);
    HexDigitRoundTrip(b % 16, upper);
    ValueOfTwo(Hex2(b, upper));
  }

  lemma ScanOfHex2(b: Byte, upper: bool)
    ensures ScanOctet(Hex2(b, upper)) == Some(b)
    ensures ':' !in Hex2(b, upper)
  {
    Hex2Shape(b, upper);
    hide Hex2;
    hide Value;
    hide IsHexDigit;
    hide StartsWithPrefix;
    hide ScanHex;
    ScanOfDigits(Hex2(b, upper));
  }

  /** Six printed bytes parse back to themselves, whether the digits are in lower or in upper case. */
  lemma ParseOfPrint(mac: seq<Byte>, upper: bool)
    requires |mac| == 6
    ensures Parse(Print(mac, upper)) == Some(mac)
  {
    hide ScanOctet;
    hide Hex2;
    var f := Hex2All(mac, upper);
    forall k | 0 <= k < 6 ensures ScanOctet(f[k]) == Some(mac[k]) && ':' !in f[k] { ScanOfHex2(mac[k], upper); }
    SplitOfJoin(f, ':');
    assert ScanOctets(f).value == mac;
  }

  /** One octet alone is accepted, although the documented form has six. */
  lemma OneOctetAccepted(b: Byte, upper: bool)
    ensures Parse(Hex2(b, upper)) == Some([b])
  {
    hide ScanOctet;
    hide Hex2;
    var s := Hex2(b, upper);
    ScanOfHex2(b, upper);
    SplitOfJoin([s], ':');
    assert Join([s], ':') == s;
    assert ScanOctets([s]).value == [b];
  }

  // ----- the caller -----

  /** The bytes that follow a short address. */
  function Zeros(n: nat): (z: seq<Byte>)
    ensures |z| == n && forall k | 0 <= k < n :: z[k] == 0
  {
    seq(n, _ => 0)
  }

  /** The MAC part of slirp4netns_config_from_options: sa_data is zeroed, then parsed into. A text of
      fewer than six octets is accepted and configures the octets given, followed by zeros; the
      address it configures prints as a text that parses to the same six bytes. */
  method ConfigMac(mac: string) returns (rc: int, len: int, saData: seq<Byte>)
    ensures |saData| == 14
    ensures rc == 0 <==> Parse(mac).Some?
    ensures rc == 0 ==> 1 <= len <= 6 && len == 1 + Count(mac, ':')
    ensures rc == 0 ==> saData == Parse(mac).value + Zeros(14 - len)
    ensures rc == 0 ==> Parse(Print(saData[..6], false)) == Some(saData[..6])
    ensures rc != 0 ==> rc == -1 && len == 0
  {
    hide Parse;
    hide Print;
    hide Count;
    var data := new Byte[14](_ => 0);
    rc := HexstringToData(mac, data);
    saData := data[..];
    LengthIsColonsPlusOne(mac);
    if rc < 0 {
      return -1, 0, saData;
    }
    len, rc := rc, 0;
    ParseOfPrint(saData[..6], false);
  }
}
