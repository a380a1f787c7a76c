/** The --cidr option: parse_cidr, from_regmatch and slirp4netns_config_from_cidr of main.c. */
module Cidr {
  import opened Text
  import opened Words
  import Ipv4

  const DEFAULT_CIDR: string := "10.0.2.0/24"
  const PREFIX_MIN: nat := 1
  const PREFIX_MAX: nat := 25
  const VHOST_OFFSET: nat := 2
  const VNAMESERVER_OFFSET: nat := 3
  const VDHCPSTART_OFFSET: nat := 15
  const VGUEST_OFFSET: nat := 100
  const NB_BOOTP_CLIENTS: nat := 16

  // ----- networks, in host order -----

  /** The netmask word of a prefix length: `prefix` ones, then zeros. */
  function Mask(p: nat): (m: nat)
    requires p <= 32
    ensures m < WORD
  {
    Pow2Values();
    Pow2Monotone(32 - p, 32);
    WORD - Pow2(32 - p)
  }

  /** The mask as the source computes it: shift, decrement, complement. */
  lemma MaskIsComplement(p: nat)
    requires p <= 32
    ensures Mask(p) == Not(Pow2(32 - p) - 1, 32)
  {
    Pow2Values();
    Pow2Monotone(32 - p, 32);
    NotIsDifference(Pow2(32 - p) - 1, 32);
  }

  /** A byte of `r` ones, then zeros. */
  function OnesByte(r: nat): (b: nat)
    requires r <= 8
    ensures b < 256
  {
    Pow2Values();
    Pow2Monotone(8 - r, 8);
    256 - Pow2(8 - r)
  }

  /** How many of `p` leading ones fall on byte `i`. */
  function OnesIn(p: nat, i: nat): (r: nat)
    requires i < 4
    ensures r <= 8
  {
    if p <= 8 * i then 0 else if p >= 8 * i + 8 then 8 else p - 8 * i
  }

  lemma Pow2Bytes(p: nat)
    requires p <= 32
    ensures Pow2(0) == 1 && Pow2(8) == 256
    ensures p <= 8 ==> Pow2(32 - p) == Pow2(8 - p) * 0x100_0000
    ensures 8 < p <= 16 ==> Pow2(32 - p) == Pow2(16 - p) * 0x1_0000
    ensures 16 < p <= 24 ==> Pow2(32 - p) == Pow2(24 - p) * 256
  {
    Pow2Values();
    Pow2Add(8, 8);
    Pow2Add(16, 8);
    if p <= 8 {
      Pow2Add(8 - p, 24);
    } else if p <= 16 {
      Pow2Add(16 - p, 16);
    } else if p <= 24 {
      Pow2Add(24 - p, 8);
    }
  }

  lemma MaskFromBytes(p: nat)
    requires p <= 32
    ensures Mask(p) == FromOctets(OnesByte(OnesIn(p, 0)), OnesByte(OnesIn(p, 1)), OnesByte(OnesIn(p, 2)),
                                  OnesByte(OnesIn(p, 3)))
  {
    Pow2Bytes(p);
    hide Pow2;
  }

  lemma MaskBytes(p: nat)
    requires p <= 32
    ensures forall i | 0 <= i < 4 :: Octet(Mask(p), i) == OnesByte(OnesIn(p, i))
  {
    MaskFromBytes(p);
    hide Octet;
    hide Mask;
    hide FromOctets;
    WordOfOctets(OnesByte(OnesIn(p, 0)), OnesByte(OnesIn(p, 1)), OnesByte(OnesIn(p, 2)), OnesByte(OnesIn(p, 3)));
  }

  /** Bit `k` of a byte, the most significant first. */
  predicate BitSet(b: nat, k: nat)
    requires k < 8
  {
    b / Pow2(7 - k) % 2 == 1
  }

  lemma OnesByteBits(r: nat, k: nat)
    requires r <= 8 && k < 8
    ensures BitSet(OnesByte(r), k) <==> k < r
  {
    assert Pow2(0) == 1 && Pow2(1) == 2 && Pow2(2) == 4 && Pow2(3) == 8 && Pow2(4) == 16;
    assert Pow2(5) == 32 && Pow2(6) == 64 && Pow2(7) == 128 && Pow2(8) == 256;
    hide Pow2;
    match k
    case 0 =>
    case 1 =>
    case 2 =>
    case 3 =>
    case 4 =>
    case 5 =>
    case 6 =>
    case _ =>
  }

  /** In memory the word is `p` ones, then zeros. */
  ghost predicate OnesInMemory(e: Endian, w: nat, p: nat) {
    forall i, k | 0 <= i < 4 && 0 <= k < 8 :: BitSet(ByteAt(e, w, i), k) <==> 8 * i + k < p
  }

  /** On either kind of host the stored mask is the prefix in ones, then zeros. */
  lemma MaskInMemory(e: Endian, p: nat)
    requires p <= 32
    ensures OnesInMemory(e, Htonl(e, Mask(p)), p)
  {
    var w := Htonl(e, Mask(p));
    HtonlInMemory(e, Mask(p));
    OctetIsQuotient(Mask(p));
    MaskBytes(p);
    forall i, k | 0 <= i < 4 && 0 <= k < 8 ensures BitSet(ByteAt(e, w, i), k) <==> 8 * i + k < p {
      assert ByteAt(e, w, i) == OnesByte(OnesIn(p, i));
      OnesByteBits(OnesIn(p, i), k);
    }
  }

  predicate Aligned(n: nat, p: nat)
    requires p <= 32
  {
    n < WORD && n % Pow2(32 - p) == 0
  }

  /** Address `a` belongs to the network `n` of prefix length `p`. */
  predicate InNetwork(a: nat, n: nat, p: nat)
    requires p <= 32
  {
    a < WORD && And(a, Mask(p)) == n
  }

  lemma MaskRoundsDown(a: nat, p: nat)
    requires a < WORD && p <= 32
    ensures And(a, Mask(p)) == a - a % Pow2(32 - p)
  {
    hide And;
    hide LowBits;
    Pow2Values();
    hide Pow2;
    AndMask(a, p, 32 - p);
    assert p + (32 - p) == 32;
    LowBitsIsMod(a, 32 - p);
  }

  /** The mask test accepts exactly the multiples of 2^(32-p). */
  lemma MaskTestIsAlignment(n: nat, p: nat)
    requires n < WORD && p <= 32
    ensures And(n, Mask(p)) == n <==> Aligned(n, p)
  {
    hide And;
    MaskRoundsDown(n, p);
  }

  /** Done on words in network order, the test means the same on either kind of host. */
  lemma NetworkOrderMaskTest(e: Endian, n: nat, p: nat)
    requires n < WORD && p <= 32
    ensures And(Htonl(e, n), Htonl(e, Mask(p))) == Htonl(e, n) <==> Aligned(n, p)
  {
    hide And;
    hide ByteSwap;
    HtonlAnd(e, n, Mask(p));
    MaskTestIsAlignment(n, p);
    HtonlTwice(e, n);
    HtonlTwice(e, And(n, Mask(p)));
  }

  lemma MultipleEnd(n: nat, size: nat, parts: nat)
    requires size > 0 && n % size == 0 && n < parts * size
    ensures n + size <= parts * size
  {
    var q := n / size;
    assert n == q * size;
    if q < parts {
      MulGap(q, parts, size);
    } else if parts < q {
      MulGap(parts, q, size);
    }
  }

  /** An aligned network ends inside the 32-bit space. */
  lemma AlignedEnd(n: nat, p: nat)
    requires p <= 32 && Aligned(n, p)
    ensures n + Pow2(32 - p) <= WORD
  {
    Pow2Values();
    Pow2Add(p, 32 - p);
    MultipleEnd(n, Pow2(32 - p), Pow2(p));
  }

  lemma ModOfSum(n: nat, j: nat, m: nat)
    requires m > 0 && n % m == 0 && j < m
    ensures (n + j) % m == j
  {
    ModUnique(n + j, m, n / m, j);
  }

  /** Exactly the addresses n .. n + 2^(32-p) - 1 belong to an aligned network. */
  lemma NetworkIsRange(a: nat, n: nat, p: nat)
    requires p <= 32 && Aligned(n, p)
    ensures InNetwork(a, n, p) <==> n <= a < n + Pow2(32 - p)
  {
    hide And;
    AlignedEnd(n, p);
    if a < WORD {
      MaskRoundsDown(a, p);
      if n <= a < n + Pow2(32 - p) {
        ModOfSum(n, a - n, Pow2(32 - p));
      }
    }
  }

  // ----- the address layout -----

  /** Adding to an address as `uint32_t` does. */
  function Offset(n: nat, k: nat): (a: nat)
    ensures a < WORD
  {
    (n + k) % WORD
  }

  /** Inside the network, and neither its network nor its broadcast address. */
  predicate IsHostAddress(a: nat, n: nat, p: nat)
    requires p <= 32
  {
    InNetwork(a, n, p) && a != n && a != n + Pow2(32 - p) - 1
  }

  /** The DHCP range that parent() prints: 16 consecutive addresses from the start. */
  predicate InDhcpRange(a: nat, start: nat)
  {
    start <= a <= Offset(start, NB_BOOTP_CLIENTS - 1)
  }

  /** Gateway, name server, DHCP range and recommended guest fit the network without clashing. */
  ghost predicate GoodLayout(n: nat, p: nat, host: nat, dns: nat, dhcp: nat, guest: nat)
    requires p <= 32
  {
    && IsHostAddress(host, n, p) && IsHostAddress(dns, n, p) && IsHostAddress(guest, n, p)
    && (forall a: nat | InDhcpRange(a, dhcp) :: IsHostAddress(a, n, p))
    && Offset(dhcp, NB_BOOTP_CLIENTS - 1) == dhcp + NB_BOOTP_CLIENTS - 1
    && host != dns && dns != guest && host != guest
    && !InDhcpRange(host, dhcp) && !InDhcpRange(dns, dhcp) && !InDhcpRange(guest, dhcp)
  }

  lemma LowOffsetsAreHosts(n: nat, p: nat, k: nat)
    requires PREFIX_MIN <= p <= PREFIX_MAX && Aligned(n, p) && 1 <= k <= VGUEST_OFFSET
    ensures n + k < WORD && IsHostAddress(n + k, n, p)
  {
    hide And;
    Pow2Values();
    Pow2Monotone(7, 32 - p);
    AlignedEnd(n, p);
    NetworkIsRange(n + k, n, p);
  }

  lemma LayoutFits(n: nat, p: nat)
    requires PREFIX_MIN <= p <= PREFIX_MAX && Aligned(n, p)
    ensures n + VGUEST_OFFSET < WORD
    ensures GoodLayout(n, p, n + VHOST_OFFSET, n + VNAMESERVER_OFFSET, n + VDHCPSTART_OFFSET, n + VGUEST_OFFSET)
  {
    hide Pow2;
    hide InNetwork;
    LowOffsetsAreHosts(n, p, VHOST_OFFSET);
    LowOffsetsAreHosts(n, p, VNAMESERVER_OFFSET);
    LowOffsetsAreHosts(n, p, VGUEST_OFFSET);
    forall a: nat | InDhcpRange(a, n + VDHCPSTART_OFFSET) ensures IsHostAddress(a, n, p) {
      LowOffsetsAreHosts(n, p, a - n);
    }
  }

  /** The prefix limit is tight: the recommended guest stays inside an aligned network exactly up to
      prefix 25, also where the sum wraps at the top of the address space. */
  lemma PrefixLimitIsTight(n: nat, p: nat)
    requires PREFIX_MIN <= p <= 32 && Aligned(n, p)
    ensures InNetwork(Offset(n, VGUEST_OFFSET), n, p) <==> p <= PREFIX_MAX
  {
    hide And;
    Pow2Values();
    AlignedEnd(n, p);
    NetworkIsRange(Offset(n, VGUEST_OFFSET), n, p);
    if p <= PREFIX_MAX {
      Pow2Monotone(7, 32 - p);
    } else {
      Pow2Monotone(32 - p, 6);
    }
  }

  // ----- the text -----

  predicate DigitField(s: string, max: nat) {
    1 <= |s| <= max && forall c | c in s :: IsDigit(c)
  }

  /** The language of the regular expression ^(([0-9]{1,3}\.){3}[0-9]{1,3})/([0-9]{1,2})$. */
  predicate InLanguage(cidr: string, a: string, b: string, c: string, d: string, prefix: string) {
    && cidr == a + "." + b + "." + c + "." + d + "/" + prefix
    && DigitField(a, 3) && DigitField(b, 3) && DigitField(c, 3) && DigitField(d, 3)
    && DigitField(prefix, 2)
  }

  /** Groups 1 and 3 of a match, as start and end offsets. */
  datatype Match = Match(so1: nat, eo1: nat, so3: nat, eo3: nat)

  /** regexec(3) with that expression. */
  function Regexec(cidr: string): (r: Option<Match>)
    ensures r.Some? ==> r.value.so1 == 0 && r.value.eo1 + 1 == r.value.so3 <= r.value.eo3 == |cidr|
    ensures r.Some? ==> cidr[r.value.eo1] == '/' && DigitField(cidr[r.value.so3..], 2)
  {
    var slash := IndexOf(cidr, '/');
    var f := Split(cidr[..slash], '.');
    if slash < |cidr| && |f| == 4 && DigitField(f[0], 3) && DigitField(f[1], 3) && DigitField(f[2], 3)
       && DigitField(f[3], 3) && DigitField(cidr[slash + 1..], 2)
    then Some(Match(0, slash, slash + 1, |cidr|))
    else None
  }

  lemma RegexecSound(cidr: string) returns (a: string, b: string, c: string, d: string)
    requires Regexec(cidr).Some?
    ensures InLanguage(cidr, a, b, c, d, cidr[Regexec(cidr).value.so3..])
    ensures cidr[..Regexec(cidr).value.eo1] == a + "." + b + "." + c + "." + d
  {
    hide IndexOf;
    hide Split;
    hide Join;
    hide DigitField;
    var slash := IndexOf(cidr, '/');
    var f := Split(cidr[..slash], '.');
    JoinOfSplit(cidr[..slash], '.');
    a, b, c, d := f[0], f[1], f[2], f[3];
    assert f == [a, b, c, d];
    Ipv4.JoinFour(a, b, c, d);
    assert cidr == cidr[..slash] + "/" + cidr[slash + 1..];
  }

  lemma RegexecComplete(cidr: string, a: string, b: string, c: string, d: string, prefix: string)
    requires InLanguage(cidr, a, b, c, d, prefix)
    ensures Regexec(cidr).Some?
    ensures cidr[..Regexec(cidr).value.eo1] == a + "." + b + "." + c + "." + d
    ensures cidr[Regexec(cidr).value.so3..] == prefix
  {
    var net := a + "." + b + "." + c + "." + d;
    assert cidr[..|net|] == net && cidr[|net|] == '/' && cidr[|net| + 1..] == prefix;
    IndexOfUnique(cidr, '/', |net|);
    Ipv4.JoinFour(a, b, c, d);
    SplitOfJoin([a, b, c, d], '.');
  }

  /** Copies a group into a zeroed buffer, unless it is too long for it. */
  method FromRegmatch(buf: array<char>, so: nat, eo: nat, orig: string) returns (rc: int)
    requires buf.Length >= 1 && so <= eo <= |orig| && '\0' !in orig
    modifies buf
    ensures rc == if eo - so > buf.Length - 1 then -1 else 0
    ensures rc == 0 ==> CString(buf[..]) == orig[so..eo]
    ensures rc < 0 ==> buf[..] == old(buf[..])
  {
    var len := eo - so;
    if len > buf.Length - 1 {
      return -1;
    }
    for i := 0 to buf.Length
      invariant forall k | 0 <= k < i :: buf[k] == '\0'
    {
      buf[i] := '\0';
    }
    for i := 0 to len
      invariant buf[..i] == orig[so..so + i]
      invariant forall k | i <= k < buf.Length :: buf[k] == '\0'
    {
      buf[i] := orig[so + i];
    }
    assert buf[..][..len] == orig[so..eo];
    IndexOfUnique(buf[..], '\0', len);
    return 0;
  }

  /** Both groups of every match fit the 16-byte buffers, so the copies never fail. */
  lemma GroupsFit(cidr: string)
    requires Regexec(cidr).Some?
    ensures Regexec(cidr).value.eo1 <= 15 && Regexec(cidr).value.eo3 - Regexec(cidr).value.so3 <= 2
  {
    var a, b, c, d := RegexecSound(cidr);
    assert |a + "." + b + "." + c + "." + d| <= 15;
  }

  /** The two calls of from_regmatch, on the buffers for the network and for the prefix length. */
  method CopyGroups(cidr: string, m: Match) returns (net: string, digits: string)
    requires '\0' !in cidr && Regexec(cidr) == Some(m)
    ensures net == cidr[..m.eo1] && digits == cidr[m.so3..]
  {
    GroupsFit(cidr);
    hide Regexec;
    hide CString;
    var snetwork, sprefix := new char[16], new char[16];
    var rc := FromRegmatch(snetwork, m.so1, m.eo1, cidr);
    assert rc == 0;
    var rc' := FromRegmatch(sprefix, m.so3, m.eo3, cidr);
    assert rc' == 0;
    net, digits := CString(snetwork[..]), CString(sprefix[..]);
  }

  // ----- parse_cidr -----

  /** The prefix length in decimal: one or two digits, and below ten a leading zero is allowed. */
  predicate PrefixText(z: string, p: nat) {
    p < 100 && (z == [Digit(p / 10), Digit(p % 10)] || (p < 10 && z == [Digit(p)]))
  }

  /** `cidr` is a spelling of network `n` with prefix length `p`. */
  predicate Spells(cidr: string, n: nat, p: nat) {
    && PREFIX_MIN <= p <= PREFIX_MAX
    && Aligned(n, p)
    && Ipv4.Print(n) + "/" <= cidr
    && PrefixText(cidr[|Ipv4.Print(n)| + 1..], p)
  }

  /** What the text and range checks leave: the network word in host order, and the prefix length. */
  function Decode(cidr: string): (r: Option<(nat, nat)>)
    ensures r.Some? ==> r.value.0 < WORD && r.value.1 <= 32
  {
    match Regexec(cidr)
    case None => None
    case Some(m) =>
      var prefix := Value(cidr[m.so3..], 10);
      match Ipv4.Parse(cidr[..m.eo1])
      case Some(n) => if PREFIX_MIN <= prefix <= PREFIX_MAX then Some((n, prefix)) else None
      case None => None
  }

  lemma PrefixTextValue(z: string)
    requires DigitField(z, 2)
    ensures PrefixText(z, Value(z, 10))
  {
    hide Value;
    hide Digit;
    hide DigitValue;
    Ipv4.ValueShort(z);
    assert forall i | 0 <= i < |z| :: z[i] in z;
    Ipv4.DigitRoundTrip(0, z[0]);
    Ipv4.DigitRoundTrip(0, z[|z| - 1]);
  }

  lemma ValueOfPrefixText(z: string, p: nat)
    requires PrefixText(z, p)
    ensures DigitField(z, 2) && Value(z, 10) == p
  {
    hide Value;
    hide Digit;
    hide DigitValue;
    Ipv4.DigitRoundTrip(p / 10, '0');
    Ipv4.DigitRoundTrip(p % 10, '0');
    Ipv4.ValueShort(z);
  }

  lemma SpellsOfDecode(cidr: string)
    requires Decode(cidr).Some? && Aligned(Decode(cidr).value.0, Decode(cidr).value.1)
    ensures Spells(cidr, Decode(cidr).value.0, Decode(cidr).value.1)
  {
    hide Value;
    hide Regexec;
    hide Ipv4.Parse;
    hide Ipv4.Print;
    hide Pow2;
    var m := Regexec(cidr).value;
    Ipv4.PrintOfParse(cidr[..m.eo1]);
    PrefixTextValue(cidr[m.so3..]);
  }

  lemma DecodeOfSpells(cidr: string, n: nat, p: nat)
    requires Spells(cidr, n, p)
    ensures Decode(cidr) == Some((n, p))
  {
    hide Value;
    hide Regexec;
    hide Ipv4.Parse;
    hide Pow2;
    var net, z := Ipv4.Print(n), cidr[|Ipv4.Print(n)| + 1..];
    var a, b, c, d := Ipv4.OctetText(Octet(n, 0)), Ipv4.OctetText(Octet(n, 1)), Ipv4.OctetText(Octet(n, 2)),
                      Ipv4.OctetText(Octet(n, 3));
    Ipv4.JoinFour(a, b, c, d);
    ValueOfPrefixText(z, p);
    assert cidr == net + "/" + z;
    RegexecComplete(cidr, a, b, c, d, z);
    Ipv4.ParseOfPrint(n);
  }

  /** The bytes of a stored address, in the order they have in memory, as dotted text. */
  function DottedBytes(e: Endian, w: nat): string {
    Ipv4.OctetText(ByteAt(e, w, 0)) + "." + Ipv4.OctetText(ByteAt(e, w, 1)) + "."
    + Ipv4.OctetText(ByteAt(e, w, 2)) + "." + Ipv4.OctetText(ByteAt(e, w, 3))
  }

  /** In memory the network is the four octets of the text, in order, and the mask `p` ones, then zeros. */
  ghost predicate StoredFrom(e: Endian, cidr: string, network: nat, netmask: nat, p: nat) {
    DottedBytes(e, network) + "/" <= cidr && OnesInMemory(e, netmask, p)
  }

  lemma CidrInMemory(e: Endian, cidr: string, n: nat, p: nat)
    requires Spells(cidr, n, p)
    ensures StoredFrom(e, cidr, Htonl(e, n), Htonl(e, Mask(p)), p)
  {
    hide Htonl;
    hide Octet;
    hide OnesInMemory;
    HtonlInMemory(e, n);
    OctetIsQuotient(n);
    MaskInMemory(e, p);
    Ipv4.JoinFour(Ipv4.OctetText(Octet(n, 0)), Ipv4.OctetText(Octet(n, 1)), Ipv4.OctetText(Octet(n, 2)),
                  Ipv4.OctetText(Octet(n, 3)));
    hide ByteAt;
    hide Ipv4.OctetText;
  }

  /** parse_cidr: accepts exactly the spellings of aligned networks with prefix 1 to 25. */
  method ParseCidr(e: Endian, cidr: string) returns (rc: int, network: nat, netmask: nat)
    requires '\0' !in cidr
    ensures rc == 0 || rc == -1
    ensures network < WORD
    ensures forall n: nat, p: nat | Spells(cidr, n, p) ::
              && rc == 0 && network == Htonl(e, n) && netmask == Htonl(e, Mask(p))
              && StoredFrom(e, cidr, network, netmask, p)
    ensures rc == 0 ==> exists p: nat :: 1 <= p <= 25 && Spells(cidr, Htonl(e, network), p)
  {
    network, netmask := 0, 0;
    forall n: nat, p: nat | Spells(cidr, n, p)
      ensures Decode(cidr) == Some((n, p)) && Aligned(n, p)
      ensures StoredFrom(e, cidr, Htonl(e, n), Htonl(e, Mask(p)), p)
    {
      DecodeOfSpells(cidr, n, p);
      CidrInMemory(e, cidr, n, p);
    }
    hide Spells;
    hide Aligned;
    hide StoredFrom;
    hide Regexec;
    hide Ipv4.Parse;
    hide Value;
    hide And;
    hide Not;
    hide Mask;
    hide Pow2;
    hide Htonl;
    var m := Regexec(cidr);
    if m.None? {
      return -1, network, netmask;
    }
    var net, digits := CopyGroups(cidr, m.value);
    var addr := Ipv4.Parse(net);
    if addr.None? {
      return -1, network, netmask;
    }
    network := Htonl(e, addr.value);
    var prefix := Value(digits, 10);
    if prefix < PREFIX_MIN || prefix > PREFIX_MAX {
      return -1, network, netmask;
    }
    MaskIsComplement(prefix);
    netmask := Htonl(e, Not(Pow2(32 - prefix) - 1, 32));
    NetworkOrderMaskTest(e, addr.value, prefix);
    HtonlTwice(e, addr.value);
    if And(network, netmask) != network {
      return -1, network, netmask;
    }
    SpellsOfDecode(cidr);
    assert Spells(cidr, Htonl(e, network), prefix);
    return 0, network, netmask;
  }

  // ----- slirp4netns_config_from_cidr -----

  /** The addresses of struct slirp4netns_config, as the words stored in memory. */
  datatype Config = Config(vnetwork: nat, vnetmask: nat, vhost: nat, vdhcpStart: nat, vnameserver: nat, vguest: nat)

  /** The stored words are those of network `n`, prefix `p`: read back in host order they form a good layout
      at the documented offsets, and in memory the addresses are in network order and the mask is `p`
      ones, then zeros. */
  ghost predicate Configures(e: Endian, cfg: Config, n: nat, p: nat)
    requires p <= 32
  {
    && n < WORD && cfg.vhost < WORD && cfg.vnameserver < WORD && cfg.vdhcpStart < WORD && cfg.vguest < WORD
    && cfg.vnetwork == Htonl(e, n) && cfg.vnetmask == Htonl(e, Mask(p))
    && Htonl(e, cfg.vhost) == n + VHOST_OFFSET && Htonl(e, cfg.vnameserver) == n + VNAMESERVER_OFFSET
    && Htonl(e, cfg.vdhcpStart) == n + VDHCPSTART_OFFSET && Htonl(e, cfg.vguest) == n + VGUEST_OFFSET
    && InNetworkOrder(e, cfg.vnetwork, n) && OnesInMemory(e, cfg.vnetmask, p)
    && InNetworkOrder(e, cfg.vhost, n + 2) && InNetworkOrder(e, cfg.vnameserver, n + 3)
    && InNetworkOrder(e, cfg.vdhcpStart, n + 15) && InNetworkOrder(e, cfg.vguest, n + 100)
    && GoodLayout(n, p, Htonl(e, cfg.vhost), Htonl(e, cfg.vnameserver), Htonl(e, cfg.vdhcpStart), Htonl(e, cfg.vguest))
  }

  lemma StoredOffset(e: Endian, n: nat, k: nat)
    requires n + k < WORD
    ensures Htonl(e, Htonl(e, Offset(n, k))) == n + k
    ensures InNetworkOrder(e, Htonl(e, Offset(n, k)), n + k)
  {
    hide Htonl;
    HtonlTwice(e, n + k);
    HtonlInMemory(e, n + k);
  }

  lemma LayoutStored(e: Endian, n: nat, p: nat)
    requires PREFIX_MIN <= p <= PREFIX_MAX && Aligned(n, p)
    ensures Configures(e, Config(Htonl(e, n), Htonl(e, Mask(p)), Htonl(e, Offset(n, VHOST_OFFSET)),
                                 Htonl(e, Offset(n, VDHCPSTART_OFFSET)), Htonl(e, Offset(n, VNAMESERVER_OFFSET)),
                                 Htonl(e, Offset(n, VGUEST_OFFSET))), n, p)
  {
    hide Htonl;
    hide GoodLayout;
    hide Pow2;
    hide InNetworkOrder;
    hide OnesInMemory;
    LayoutFits(n, p);
    HtonlInMemory(e, n);
    MaskInMemory(e, p);
    StoredOffset(e, n, VHOST_OFFSET);
    StoredOffset(e, n, VDHCPSTART_OFFSET);
    StoredOffset(e, n, VNAMESERVER_OFFSET);
    StoredOffset(e, n, VGUEST_OFFSET);
  }

  /** For every accepted CIDR, and on either kind of host, the configuration is a good layout. */
  method ConfigFromCidr(e: Endian, cidr: string) returns (rc: int, cfg: Config)
    requires '\0' !in cidr
    ensures rc == 0 || rc == -1
    ensures rc == 0 <==> exists n: nat, p: nat :: Spells(cidr, n, p)
    ensures forall n: nat, p: nat | Spells(cidr, n, p) :: Configures(e, cfg, n, p)
  {
    hide Htonl;
    hide Configures;
    hide Pow2;
    cfg := Config(0, 0, 0, 0, 0, 0);
    var network, netmask;
    rc, network, netmask := ParseCidr(e, cidr);
    cfg := cfg.(vnetwork := network, vnetmask := netmask);
    if rc < 0 {
      return;
    }
    cfg := cfg.(vhost := Htonl(e, Offset(Htonl(e, network), VHOST_OFFSET)));
    cfg := cfg.(vdhcpStart := Htonl(e, Offset(Htonl(e, network), VDHCPSTART_OFFSET)));
    cfg := cfg.(vnameserver := Htonl(e, Offset(Htonl(e, network), VNAMESERVER_OFFSET)));
    cfg := cfg.(vguest := Htonl(e, Offset(Htonl(e, network), VGUEST_OFFSET)));
    forall n: nat, p: nat | Spells(cidr, n, p) ensures Configures(e, cfg, n, p) {
      HtonlTwice(e, n);
      LayoutStored(e, n, p);
    }
  }

  /** Every aligned network with prefix 1 to 25 has a spelling, with or without a leading zero. */
  lemma EveryNetworkSpelled(n: nat, p: nat, z: string)
    requires 1 <= p <= 25 && Aligned(n, p) && PrefixText(z, p)
    ensures Spells(Ipv4.Print(n) + "/" + z, n, p)
  {
    hide Ipv4.Print;
    hide Pow2;
    assert (Ipv4.Print(n) + "/" + z)[|Ipv4.Print(n)| + 1..] == z;
  }

  /** The default network is accepted and has the documented addresses. */
  lemma DefaultNetwork()
    ensures var n := FromOctets(10, 0, 2, 0);
            && Spells(DEFAULT_CIDR, n, 24)
            && Ipv4.Print(n + VHOST_OFFSET) == "10.0.2.2" && Ipv4.Print(n + VNAMESERVER_OFFSET) == "10.0.2.3"
            && Ipv4.Print(n + VDHCPSTART_OFFSET) == "10.0.2.15" && Ipv4.Print(n + VGUEST_OFFSET) == "10.0.2.100"
            && Ipv4.Print(Offset(n + VDHCPSTART_OFFSET, NB_BOOTP_CLIENTS - 1)) == "10.0.2.30"
  {
    hide Ipv4.Print;
    var n := FromOctets(10, 0, 2, 0);
    DefaultAddress(0, "0");
    DefaultAddress(2, "2");
    DefaultAddress(3, "3");
    DefaultAddress(15, "15");
    DefaultAddress(30, "30");
    DefaultAddress(100, "100");
    DefaultAligned();
    assert PrefixText("24", 24);
    EveryNetworkSpelled(n, 24, "24");
    assert "10.0.2." + "0" + "/" + "24" == DEFAULT_CIDR;
  }

  lemma DefaultAddress(d: nat, text: string)
    requires d < 256 && text == Ipv4.OctetText(d)
    ensures Ipv4.Print(FromOctets(10, 0, 2, 0) + d) == "10.0.2." + text
  {
    hide Ipv4.Print;
    Ipv4.PrintOctets(10, 0, 2, d);
    assert Ipv4.OctetText(10) == "10" && Ipv4.OctetText(0) == "0" && Ipv4.OctetText(2) == "2";
  }

  lemma DefaultAligned()
    ensures Aligned(FromOctets(10, 0, 2, 0), 24)
  {
    Pow2Values();
  }

  /** A text spells at most one network. */
  lemma SpellingIsUnique(cidr: string, n: nat, p: nat, n': nat, p': nat)
    ensures Spells(cidr, n, p) && Spells(cidr, n', p') ==> n == n' && p == p'
  {
    hide Spells;
    hide Decode;
    if Spells(cidr, n, p) && Spells(cidr, n', p') {
      DecodeOfSpells(cidr, n, p);
      DecodeOfSpells(cidr, n', p');
    }
  }
}
