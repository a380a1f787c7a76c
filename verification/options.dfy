/** The command line: parse_args of main.c, over the options that getopt_long(3) yields and the
    positional arguments it leaves. `onDisk` stands for access(path, F_OK). */
module Options {
  import opened Text

  datatype FlagKind =
    | Configure | DisableHostLoopback | NoHostLoopback | EnableIpv6 | EnableSandbox | CreateSandbox
    | EnableSeccomp | DisableDns | Help | Version | Unrecognized

  datatype ValueKind =
    | ExitFd | ReadyFd | Mtu | Cidr | NetnsType | UsernsPath | ApiSocket | OutboundAddr | OutboundAddr6
    | MacAddress | TargetType

  datatype Opt = Flag(flag: FlagKind) | Valued(kind: ValueKind, arg: string)

  predicate SameKind(x: Opt, y: Opt) {
    (x.Flag? && x == y) || (x.Valued? && y.Valued? && x.kind == y.kind)
  }

  /** What the option loop collects: flags, numbers, and the optarg of each text option. */
  datatype Raw = Raw(
    configure: bool, disableHostLoopback: bool, enableIpv6: bool, enableSandbox: bool, enableSeccomp: bool,
    disableDns: bool, exitFd: int, readyFd: int, mtu: int, cidr: Option<string>, netnsType: Option<string>,
    usernsPath: Option<string>, apiSocket: Option<string>, outboundAddr: Option<string>,
    outboundAddr6: Option<string>, macAddress: Option<string>, targetType: Option<string>)

  /** struct options after a successful parse: the collected options and the target. */
  datatype Options = Options(raw: Raw, targetPid: int, tapfd: int, netnsPath: Option<string>,
                             bessSocket: Option<string>, tapname: Option<string>)

  /** parse_args either fills the struct or exits the process. */
  datatype Outcome = Exit(status: nat) | Parsed(options: Options)

  const DEFAULT_MTU: int := 1500
  const MTU_MAX: int := 65521

  // ----- numbers -----

  /** A strtol result assigned to an int and checked for errors and for a lower bound. */
  function IntArg(s: string, min: int): (r: Option<int>)
    ensures r.Some? ==> r.value >= min
  {
    var l := Strtol(s);
    if l.outOfRange || !l.atEnd || ToInt(l.value) < min then None else Some(ToInt(l.value))
  }

  /** The MTU is assigned to an unsigned int. */
  function MtuArg(s: string): (r: Option<int>)
    ensures r.Some? ==> 1 <= r.value <= MTU_MAX
  {
    var l := Strtol(s);
    var mtu := l.value % UINT32;
    if l.outOfRange || !l.atEnd || mtu <= 0 || mtu > MTU_MAX then None else Some(mtu)
  }

  /** The conversion to int accepts a text exactly when it is a numeral that fits a long and whose low 32
      bits, read as an int, reach the bound; the empty text counts as 0. */
  lemma IntArgMeaning(s: string, min: int, r: int)
    ensures IntArg(s, min) == Some(r) <==>
              && r >= min
              && ((s == "" && r == 0) || exists i: nat, v :: Numeral(s, i, v) && ClampLong(v) == v && r == ToInt(v))
  {
    hide Strtol;
    LongMeaning(s);
    if s != "" && Strtol(s).atEnd {
      var i, v := NumeralOfStrtol(s);
      StrtolOfNumeral(s, i, v);
    }
    forall i: nat, v | Numeral(s, i, v)
      ensures Strtol(s) == Long(ClampLong(v), ClampLong(v) != v, true) && s != ""
    {
      StrtolOfNumeral(s, i, v);
    }
  }

  lemma LongMeaning(s: string)
    ensures s == "" ==> Strtol(s) == Long(0, false, true)
    ensures forall i: nat, v :: !Numeral("", i, v)
  {
  }

  /** The same for the MTU, which is converted to an unsigned int; the empty text is refused. */
  lemma MtuArgMeaning(s: string, r: int)
    ensures MtuArg(s) == Some(r) <==>
              1 <= r <= 65521 && exists i: nat, v :: Numeral(s, i, v) && ClampLong(v) == v && r == v % UINT32
  {
    hide Strtol;
    LongMeaning(s);
    if s != "" && Strtol(s).atEnd {
      var i, v := NumeralOfStrtol(s);
      StrtolOfNumeral(s, i, v);
    }
    forall i: nat, v | Numeral(s, i, v)
      ensures Strtol(s) == Long(ClampLong(v), ClampLong(v) != v, true)
    {
      StrtolOfNumeral(s, i, v);
    }
  }

  lemma IntArgOfText(v: int)
    ensures IntArg(IntText(v), 0) == if ClampLong(v) == v && v % UINT32 <= INT_MAX then Some(v % UINT32) else None
  {
    hide Strtol;
    hide IntText;
    IntTextIsNumeral(v);
    StrtolOfNumeral(IntText(v), 0, v);
  }

  lemma MtuArgOfText(v: int)
    ensures MtuArg(IntText(v)) == if ClampLong(v) == v && 1 <= v % UINT32 <= 65521 then Some(v % UINT32) else None
  {
    hide Strtol;
    hide IntText;
    IntTextIsNumeral(v);
    StrtolOfNumeral(IntText(v), 0, v);
  }

  /** A descriptor is documented as a non-negative integer and is taken as written up to INT_MAX. Any other
      number that fits a long is accepted too when its low 32 bits are not negative as an int, such as
      -4294967295 for 1; and so is the empty text, for 0. */
  lemma DescriptorAccepted(v: int)
    ensures IntArg(IntText(v), 0) == if ClampLong(v) == v && v % UINT32 <= INT_MAX then Some(v % UINT32) else None
    ensures 0 <= v <= INT_MAX ==> IntArg(IntText(v), 0) == Some(v)
    ensures IntArg(IntText(-4294967295), 0) == Some(1) && IntArg("", 0) == Some(0)
    ensures IntArg(IntText(-9223372036854775808), 0) == Some(0) && IntArg(IntText(9223372036854775808), 0) == None
  {
    IntArgOfText(v);
    IntArgOfText(-4294967295);
    IntArgOfText(-9223372036854775808);
    IntArgOfText(9223372036854775808);
    LongMeaning("");
    hide Strtol;
    hide IntText;
  }

  /** An MTU from 1 to 65521 is taken as written. Any other number that fits a long is accepted too when its
      low 32 bits are in that range, such as 4294968796 and -4294965796 for 1500: the documented maximum
      holds of the MTU used, not of the text. */
  lemma MtuAccepted(v: int)
    ensures MtuArg(IntText(v)) == if ClampLong(v) == v && 1 <= v % UINT32 <= 65521 then Some(v % UINT32) else None
    ensures 1 <= v <= 65521 ==> MtuArg(IntText(v)) == Some(v)
    ensures MtuArg(IntText(4294968796)) == MtuArg(IntText(-4294965796)) == Some(1500) && MtuArg("") == None
  {
    MtuArgOfText(v);
    MtuArgOfText(4294968796);
    MtuArgOfText(-4294965796);
    LongMeaning("");
    hide Strtol;
    hide IntText;
  }

  // ----- the option loop, in closed form -----

  /** The option makes the loop fail. */
  predicate Bad(o: Opt, onDisk: string -> bool) {
    match o
    case Flag(f) => f == Unrecognized
    case Valued(ExitFd, a) => IntArg(a, 0).None?
    case Valued(ReadyFd, a) => IntArg(a, 0).None?
    case Valued(Mtu, a) => MtuArg(a).None?
    case Valued(UsernsPath, a) => !onDisk(a)
    case Valued(_, _) => false
  }

  predicate Informs(o: Opt) {
    o == Flag(Help) || o == Flag(Version)
  }

  /** The exit status of the first option that ends the process, if any does. */
  function FirstStop(opts: seq<Opt>, onDisk: string -> bool): Option<nat> {
    if opts == [] then None
    else if Bad(opts[0], onDisk) then Some(EXIT_FAILURE)
    else if Informs(opts[0]) then Some(0)
    else FirstStop(opts[1..], onDisk)
  }

  /** The arguments given to options of one kind, in order. */
  function Values(opts: seq<Opt>, k: ValueKind): seq<string> {
    if opts == [] then []
    else
      var o := opts[|opts| - 1];
      Values(opts[..|opts| - 1], k) + if o.Valued? && o.kind == k then [o.arg] else []
  }

  /** The last one wins. */
  function LastValue(opts: seq<Opt>, k: ValueKind): Option<string> {
    var v := Values(opts, k);
    if v == [] then None else Some(v[|v| - 1])
  }

  predicate Has(opts: seq<Opt>, f: FlagKind) {
    Flag(f) in opts
  }

  /** A file descriptor option, -1 when it is not given. */
  function FdOf(v: Option<string>): int {
    if v.Some? && IntArg(v.value, 0).Some? then IntArg(v.value, 0).value else -1
  }

  function MtuOf(v: Option<string>): int {
    if v.Some? && MtuArg(v.value).Some? then MtuArg(v.value).value else DEFAULT_MTU
  }

  /** What the loop has collected from `opts`: it depends on the options of each kind separately. */
  function Collected(opts: seq<Opt>): Raw {
    Raw(Has(opts, Configure),
        Has(opts, DisableHostLoopback) || Has(opts, NoHostLoopback),
        Has(opts, EnableIpv6),
        Has(opts, EnableSandbox) || Has(opts, CreateSandbox),
        Has(opts, EnableSeccomp),
        Has(opts, DisableDns),
        FdOf(LastValue(opts, ExitFd)),
        FdOf(LastValue(opts, ReadyFd)),
        MtuOf(LastValue(opts, Mtu)),
        LastValue(opts, Cidr), LastValue(opts, NetnsType), LastValue(opts, UsernsPath), LastValue(opts, ApiSocket),
        LastValue(opts, OutboundAddr), LastValue(opts, OutboundAddr6), LastValue(opts, MacAddress),
        LastValue(opts, TargetType))
  }

  // ----- after the loop -----

  /** The target and the tap name in netns mode. */
  function NetnsTarget(raw: Raw, args: seq<string>, onDisk: string -> bool): Outcome
    requires args != []
  {
    var tapname := if |args| < 2 then None else Some(args[1]);
    if raw.netnsType.None? || raw.netnsType.value == "pid" then
      match IntArg(args[0], 1)
      case Some(pid) => if tapname.None? then Exit(EXIT_FAILURE)
                        else Parsed(Options(raw, pid, -1, None, None, tapname))
      case None => Exit(EXIT_FAILURE)
    else if raw.netnsType.value == "tapfd" then
      match IntArg(args[0], 0)
      case Some(fd) => Parsed(Options(raw, 0, fd, None, None, None))
      case None => Exit(EXIT_FAILURE)
    else if !onDisk(args[0]) || tapname.None? then Exit(EXIT_FAILURE)
    else Parsed(Options(raw, 0, -1, Some(args[0]), None, tapname))
  }

  function Finish(raw: Raw, args: seq<string>, onDisk: string -> bool): Outcome {
    if raw.macAddress.Some? && !raw.configure then Exit(EXIT_FAILURE)
    else if raw.targetType == Some("bess") then
      if |args| != 1 || raw.configure || raw.netnsType.Some? || raw.usernsPath.Some? then Exit(EXIT_FAILURE)
      else Parsed(Options(raw, 0, -1, None, Some(args[0]), None))
    else if raw.targetType.Some? && raw.targetType.value != "netns" then Exit(EXIT_FAILURE)
    else if args == [] then Exit(EXIT_FAILURE)
    else NetnsTarget(raw, args, onDisk)
  }

  /** The outcome of a command line. */
  function Parse(opts: seq<Opt>, args: seq<string>, onDisk: string -> bool): Outcome {
    match FirstStop(opts, onDisk)
    case Some(status) => Exit(status)
    case None => Finish(Collected(opts), args, onDisk)
  }

  // ----- parse_args -----

  lemma ValuesSnoc(opts: seq<Opt>, o: Opt, k: ValueKind)
    ensures Values(opts + [o], k) == if o.Valued? && o.kind == k then Values(opts, k) + [o.arg] else Values(opts, k)
  {
    assert (opts + [o])[..|opts|] == opts;
  }

  lemma LastValueSnoc(opts: seq<Opt>, o: Opt, k: ValueKind)
    ensures LastValue(opts + [o], k) == if o.Valued? && o.kind == k then Some(o.arg) else LastValue(opts, k)
  {
    hide Values;
    ValuesSnoc(opts, o, k);
  }

  /** One iteration of the loop on an option that does not stop it. */
  function Collect(raw: Raw, o: Opt): Raw {
    match o
    case Flag(Configure) => raw.(configure := true)
    case Flag(DisableHostLoopback) => raw.(disableHostLoopback := true)
    case Flag(NoHostLoopback) => raw.(disableHostLoopback := true)
    case Flag(EnableIpv6) => raw.(enableIpv6 := true)
    case Flag(EnableSandbox) => raw.(enableSandbox := true)
    case Flag(CreateSandbox) => raw.(enableSandbox := true)
    case Flag(EnableSeccomp) => raw.(enableSeccomp := true)
    case Flag(DisableDns) => raw.(disableDns := true)
    case Flag(_) => raw
    case Valued(ExitFd, a) => raw.(exitFd := FdOf(Some(a)))
    case Valued(ReadyFd, a) => raw.(readyFd := FdOf(Some(a)))
    case Valued(Mtu, a) => raw.(mtu := MtuOf(Some(a)))
    case Valued(Cidr, a) => raw.(cidr := Some(a))
    case Valued(NetnsType, a) => raw.(netnsType := Some(a))
    case Valued(UsernsPath, a) => raw.(usernsPath := Some(a))
    case Valued(ApiSocket, a) => raw.(apiSocket := Some(a))
    case Valued(OutboundAddr, a) => raw.(outboundAddr := Some(a))
    case Valued(OutboundAddr6, a) => raw.(outboundAddr6 := Some(a))
    case Valued(MacAddress, a) => raw.(macAddress := Some(a))
    case Valued(TargetType, a) => raw.(targetType := Some(a))
  }

  /** One more option changes what is known of its own kind only. */
  lemma KindsSnoc(opts: seq<Opt>, o: Opt)
    ensures forall f: FlagKind :: Has(opts + [o], f) <==> Has(opts, f) || o == Flag(f)
    ensures forall k: ValueKind :: LastValue(opts + [o], k)
                                == if o.Valued? && o.kind == k then Some(o.arg) else LastValue(opts, k)
  {
    hide LastValue;
    forall k: ValueKind
      ensures LastValue(opts + [o], k) == if o.Valued? && o.kind == k then Some(o.arg) else LastValue(opts, k)
    {
      LastValueSnoc(opts, o, k);
    }
  }

  lemma CollectedFlag(opts: seq<Opt>, f: FlagKind)
    ensures Collected(opts + [Flag(f)]) == Collect(Collected(opts), Flag(f))
  {
    hide Has;
    hide LastValue;
    hide FdOf;
    hide MtuOf;
    KindsSnoc(opts, Flag(f));
    var c, c' := Collected(opts), Collected(opts + [Flag(f)]);
    assert c'.exitFd == c.exitFd && c'.readyFd == c.readyFd && c'.mtu == c.mtu && c'.cidr == c.cidr;
    assert c'.netnsType == c.netnsType && c'.usernsPath == c.usernsPath && c'.apiSocket == c.apiSocket;
    assert c'.outboundAddr == c.outboundAddr && c'.outboundAddr6 == c.outboundAddr6;
    assert c'.macAddress == c.macAddress && c'.targetType == c.targetType;
    assert forall g: FlagKind :: Has(opts + [Flag(f)], g) <==> Has(opts, g) || f == g;
  }

  lemma CollectedValue(opts: seq<Opt>, k: ValueKind, a: string)
    ensures Collected(opts + [Valued(k, a)]) == Collect(Collected(opts), Valued(k, a))
  {
    hide Has;
    hide LastValue;
    hide FdOf;
    hide MtuOf;
    KindsSnoc(opts, Valued(k, a));
  }

  lemma CollectedSnoc(opts: seq<Opt>, o: Opt)
    ensures Collected(opts + [o]) == Collect(Collected(opts), o)
  {
    hide Collected;
    hide Collect;
    if o.Flag? {
      CollectedFlag(opts, o.flag);
    } else {
      CollectedValue(opts, o.kind, o.arg);
    }
  }

  /** parse_args. */
  method ParseArgs(opts: seq<Opt>, args: seq<string>, onDisk: string -> bool) returns (r: Outcome)
    ensures r == Parse(opts, args, onDisk)
    ensures forall o :: r == Parsed(o) <==> Accepts(opts, args, onDisk, o)
  {
    ParseMeaning(opts, args, onDisk);
    hide Accepts;
    hide Collect;
    hide Collected;
    hide Finish;
    hide Bad;
    var raw := Raw(false, false, false, false, false, false, -1, -1, DEFAULT_MTU,
                   None, None, None, None, None, None, None, None);
    assert raw == Collected([]) by { NothingCollected(); }
    var i := 0;
    assert opts[0..] == opts && opts[..0] == [];
    while i < |opts|
      invariant i <= |opts|
      invariant raw == Collected(opts[..i])
      invariant FirstStop(opts[i..], onDisk) == FirstStop(opts, onDisk)
    {
      var o := opts[i];
      assert opts[i..][0] == o && opts[i..][1..] == opts[i + 1..];
      if Bad(o, onDisk) {
        return Exit(EXIT_FAILURE);
      }
      if Informs(o) {
        return Exit(0);
      }
      raw := Collect(raw, o);
      CollectedSnoc(opts[..i], o);
      assert opts[..i + 1] == opts[..i] + [o];
      i := i + 1;
    }
    assert opts[..i] == opts;
    return Finish(raw, args, onDisk);
  }

  lemma NothingCollected()
    ensures Collected([]) == Raw(false, false, false, false, false, false, -1, -1, DEFAULT_MTU,
                                 None, None, None, None, None, None, None, None)
  {
  }

  // ----- order -----

  /** Two option lists that agree kind by kind: the same flags, and for each text option the same
      arguments in the same order. */
  ghost predicate SameByKind(x: seq<Opt>, y: seq<Opt>) {
    && (forall f: FlagKind :: Flag(f) in x <==> Flag(f) in y)
    && (forall k: ValueKind :: Values(x, k) == Values(y, k))
  }

  lemma ValuesConcatSnoc(x: seq<Opt>, y: seq<Opt>, o: Opt, k: ValueKind)
    requires Values(x + y, k) == Values(x, k) + Values(y, k)
    ensures Values(x + (y + [o]), k) == Values(x, k) + Values(y + [o], k)
  {
    hide Values;
    assert x + (y + [o]) == x + y + [o];
    ValuesSnoc(x + y, o, k);
    ValuesSnoc(y, o, k);
  }

  lemma {:induction false} ValuesConcat(x: seq<Opt>, y: seq<Opt>, k: ValueKind)
    ensures Values(x + y, k) == Values(x, k) + Values(y, k)
    decreases |y|
  {
    if y == [] {
      assert x + y == x;
    } else {
      hide Values;
      var front, o := y[..|y| - 1], y[|y| - 1];
      assert y == front + [o];
      ValuesConcat(x, front, k);
      ValuesConcatSnoc(x, front, o, k);
    }
  }

  /** Swapping two neighbours of different kinds leaves the lists the same kind by kind. */
  lemma SwapDifferentKinds(x: seq<Opt>, o: Opt, p: Opt, y: seq<Opt>)
    requires !SameKind(o, p)
    ensures SameByKind(x + [o, p] + y, x + [p, o] + y)
  {
    hide Values;
    forall k: ValueKind ensures Values(x + [o, p] + y, k) == Values(x + [p, o] + y, k) {
      ValuesConcat(x + [o, p], y, k);
      ValuesConcat(x + [p, o], y, k);
      ValuesSnoc(x + [o], p, k);
      ValuesSnoc(x, o, k);
      ValuesSnoc(x + [p], o, k);
      ValuesSnoc(x, p, k);
      assert x + [o, p] == x + [o] + [p] && x + [p, o] == x + [p] + [o];
    }
  }

  lemma {:induction false} ValuesMember(opts: seq<Opt>, k: ValueKind, a: string)
    ensures a in Values(opts, k) <==> Valued(k, a) in opts
    decreases |opts|
  {
    if opts != [] {
      var front, o := opts[..|opts| - 1], opts[|opts| - 1];
      assert opts == front + [o];
      ValuesMember(front, k, a);
    }
  }

  lemma SameMembers(x: seq<Opt>, y: seq<Opt>, o: Opt)
    requires SameByKind(x, y)
    ensures o in x <==> o in y
  {
    hide Values;
    if o.Valued? {
      ValuesMember(x, o.kind, o.arg);
      ValuesMember(y, o.kind, o.arg);
    }
  }

  lemma {:induction false} FirstStopMeaning(opts: seq<Opt>, onDisk: string -> bool)
    ensures FirstStop(opts, onDisk).None? <==> forall o | o in opts :: !Bad(o, onDisk) && !Informs(o)
    ensures FirstStop(opts, onDisk).Some? ==> FirstStop(opts, onDisk).value in {0, EXIT_FAILURE}
    ensures FirstStop(opts, onDisk) == Some(0) ==> Helps(opts)
    ensures FirstStop(opts, onDisk) == Some(EXIT_FAILURE) ==> Fails(opts, onDisk)
  {
    hide Bad;
    if opts != [] {
      FirstStopMeaning(opts[1..], onDisk);
      assert opts[0] in opts && forall o | o in opts[1..] :: o in opts;
      assert forall o | o in opts :: o == opts[0] || o in opts[1..];
    }
  }

  lemma SameCollected(x: seq<Opt>, y: seq<Opt>)
    requires SameByKind(x, y)
    ensures Collected(x) == Collected(y)
  {
    hide Values;
    hide FdOf;
    hide MtuOf;
    assert forall k: ValueKind :: LastValue(x, k) == LastValue(y, k);
    assert forall f: FlagKind :: Has(x, f) <==> Has(y, f);
    hide LastValue;
    hide Has;
  }

  /** Lists that agree kind by kind have the same outcome unless different sorts of stop come first. */
  lemma SameStopSameOutcome(x: seq<Opt>, y: seq<Opt>, args: seq<string>, onDisk: string -> bool)
    requires SameByKind(x, y) && FirstStop(x, onDisk) == FirstStop(y, onDisk)
    ensures Parse(x, args, onDisk) == Parse(y, args, onDisk)
  {
    hide FirstStop;
    hide Finish;
    hide Collected;
    SameCollected(x, y);
  }

  predicate Fails(opts: seq<Opt>, onDisk: string -> bool) {
    exists o | o in opts :: Bad(o, onDisk)
  }

  predicate Helps(opts: seq<Opt>) {
    Flag(Help) in opts || Flag(Version) in opts
  }

  /** Which stop comes first is settled when there is only one sort. */
  lemma OneSortOfStop(opts: seq<Opt>, onDisk: string -> bool)
    requires !(Fails(opts, onDisk) && Helps(opts))
    ensures FirstStop(opts, onDisk)
         == if Fails(opts, onDisk) then Some(EXIT_FAILURE) else if Helps(opts) then Some(0) else None
  {
    hide FirstStop;
    hide Bad;
    FirstStopMeaning(opts, onDisk);
  }

  /** `y` is `x` with options of different kinds reordered. */
  ghost predicate Reorders(x: seq<Opt>, y: seq<Opt>) {
    multiset(x) == multiset(y) && forall k: ValueKind :: Values(x, k) == Values(y, k)
  }

  lemma ReordersSameByKind(x: seq<Opt>, y: seq<Opt>)
    requires Reorders(x, y)
    ensures SameByKind(x, y)
  {
    hide Values;
    forall f: FlagKind ensures Flag(f) in x <==> Flag(f) in y {
      assert Flag(f) in x <==> Flag(f) in multiset(x);
      assert Flag(f) in y <==> Flag(f) in multiset(y);
    }
  }

  /** The options of the kind of `o`, or all the others, in order. */
  function Kind(opts: seq<Opt>, o: Opt, same: bool): seq<Opt> {
    if opts == [] then []
    else
      var last := opts[|opts| - 1];
      Kind(opts[..|opts| - 1], o, same) + if SameKind(o, last) == same then [last] else []
  }

  lemma KindSnoc(opts: seq<Opt>, last: Opt, o: Opt, same: bool)
    ensures Kind(opts + [last], o, same)
         == if SameKind(o, last) == same then Kind(opts, o, same) + [last] else Kind(opts, o, same)
  {
    assert (opts + [last])[..|opts|] == opts;
  }

  lemma {:induction false} KindSplits(opts: seq<Opt>, o: Opt)
    ensures multiset(Kind(opts, o, true)) + multiset(Kind(opts, o, false)) == multiset(opts)
    decreases |opts|
  {
    if opts != [] {
      hide Kind;
      var front, last := opts[..|opts| - 1], opts[|opts| - 1];
      assert opts == front + [last];
      KindSplits(front, o);
      KindSnoc(front, last, o, true);
      KindSnoc(front, last, o, false);
    }
  }

  lemma {:induction false} KindIsSame(opts: seq<Opt>, o: Opt)
    ensures forall p | p in Kind(opts, o, true) :: SameKind(o, p)
    decreases |opts|
  {
    if opts != [] {
      KindIsSame(opts[..|opts| - 1], o);
    }
  }

  lemma KindValuesSnoc(front: seq<Opt>, last: Opt, o: Opt, k: ValueKind)
    ensures SameKind(o, last) ==>
              && Values(Kind(front + [last], o, false), k) == Values(Kind(front, o, false), k)
              && Values(Kind(front + [last], o, true), k)
              == if last.Valued? && last.kind == k then Values(Kind(front, o, true), k) + [last.arg]
                 else Values(Kind(front, o, true), k)
    ensures !SameKind(o, last) ==>
              && Values(Kind(front + [last], o, true), k) == Values(Kind(front, o, true), k)
              && Values(Kind(front + [last], o, false), k)
              == if last.Valued? && last.kind == k then Values(Kind(front, o, false), k) + [last.arg]
                 else Values(Kind(front, o, false), k)
  {
    hide Kind;
    hide Values;
    KindSnoc(front, last, o, true);
    KindSnoc(front, last, o, false);
    ValuesSnoc(Kind(front, o, SameKind(o, last)), last, k);
  }

  lemma {:induction false} KindValues(opts: seq<Opt>, o: Opt, k: ValueKind)
    ensures Values(Kind(opts, o, true), k) == if o.Valued? && o.kind == k then Values(opts, k) else []
    ensures Values(Kind(opts, o, false), k) == if o.Valued? && o.kind == k then [] else Values(opts, k)
    decreases |opts|
  {
    if opts != [] {
      hide Kind;
      hide Values;
      var front, last := opts[..|opts| - 1], opts[|opts| - 1];
      assert opts == front + [last];
      KindValues(front, o, k);
      KindValuesSnoc(front, last, o, k);
      ValuesSnoc(front, last, k);
    }
  }

  /** Moving all options of one kind to the front is a reordering. */
  function Advance(opts: seq<Opt>, o: Opt): seq<Opt> {
    Kind(opts, o, true) + Kind(opts, o, false)
  }

  lemma AdvanceReorders(opts: seq<Opt>, o: Opt)
    ensures Reorders(opts, Advance(opts, o))
  {
    hide Values;
    hide Kind;
    KindSplits(opts, o);
    forall k: ValueKind ensures Values(opts, k) == Values(Advance(opts, o), k) {
      KindValues(opts, o, k);
      ValuesConcat(Kind(opts, o, true), Kind(opts, o, false), k);
    }
  }

  lemma {:induction false} KindHolds(opts: seq<Opt>, o: Opt)
    requires o in opts
    ensures o in Kind(opts, o, true)
    decreases |opts|
  {
    var front, last := opts[..|opts| - 1], opts[|opts| - 1];
    assert opts == front + [last];
    if o != last {
      KindHolds(front, o);
    }
  }

  lemma {:induction false} FailsFirst(a: seq<Opt>, b: seq<Opt>, onDisk: string -> bool)
    requires Fails(a, onDisk) && !Helps(a)
    ensures FirstStop(a + b, onDisk) == Some(EXIT_FAILURE)
    decreases |a|
  {
    hide Bad;
    var o :| o in a && Bad(o, onDisk);
    assert a[0] in a && (a + b)[0] == a[0];
    if !Bad(a[0], onDisk) {
      assert o in a[1..] && forall p | p in a[1..] :: p in a;
      assert (a + b)[1..] == a[1..] + b;
      FailsFirst(a[1..], b, onDisk);
    }
  }

  /** A list that holds a failing option can be reordered to fail first. */
  lemma CanFailFirst(x: seq<Opt>, o: Opt, onDisk: string -> bool)
    requires o in x && Bad(o, onDisk)
    ensures FirstStop(Advance(x, o), onDisk) == Some(EXIT_FAILURE)
  {
    KindHolds(x, o);
    KindIsSame(x, o);
    hide Kind;
    FailsFirst(Kind(x, o, true), Kind(x, o, false), onDisk);
  }

  /** A list that holds an informing option can be reordered to inform first. */
  lemma CanHelpFirst(x: seq<Opt>, o: Opt, onDisk: string -> bool)
    requires o in x && Informs(o)
    ensures FirstStop(Advance(x, o), onDisk) == Some(0)
  {
    KindHolds(x, o);
    KindIsSame(x, o);
    hide Kind;
    var y := Advance(x, o);
    assert y[0] == Kind(x, o, true)[0] && y[0] in Kind(x, o, true);
    assert y[0] == o;
  }

  /** Reordering options of different kinds is harmless exactly for the lists that do not hold both a failing
      option and --help or --version. */
  lemma ReorderingIsHarmless(x: seq<Opt>, args: seq<string>, onDisk: string -> bool)
    ensures (forall y | Reorders(x, y) :: Parse(y, args, onDisk) == Parse(x, args, onDisk))
            <==> !(Fails(x, onDisk) && Helps(x))
  {
    hide Parse;
    hide Bad;
    if Fails(x, onDisk) && Helps(x) {
      var o :| o in x && Bad(o, onDisk);
      var h := if Flag(Help) in x then Flag(Help) else Flag(Version);
      AdvanceReorders(x, o);
      AdvanceReorders(x, h);
      CanFailFirst(x, o, onDisk);
      CanHelpFirst(x, h, onDisk);
      ExitsWith(Advance(x, o), args, onDisk);
      ExitsWith(Advance(x, h), args, onDisk);
      assert Parse(Advance(x, o), args, onDisk) != Parse(Advance(x, h), args, onDisk);
    } else {
      forall y | Reorders(x, y) ensures Parse(y, args, onDisk) == Parse(x, args, onDisk) {
        ReordersSameByKind(x, y);
        AgreeingOutcome(x, y, args, onDisk);
      }
    }
  }

  lemma ExitsWith(x: seq<Opt>, args: seq<string>, onDisk: string -> bool)
    ensures FirstStop(x, onDisk).Some? ==> Parse(x, args, onDisk) == Exit(FirstStop(x, onDisk).value)
  {
    hide FirstStop;
    hide Finish;
  }

  /** Lists that agree kind by kind, even with flags repeated, have the same outcome if there is only one
      sort of stop. */
  lemma AgreeingOutcome(x: seq<Opt>, y: seq<Opt>, args: seq<string>, onDisk: string -> bool)
    requires SameByKind(x, y) && !(Fails(x, onDisk) && Helps(x))
    ensures Parse(x, args, onDisk) == Parse(y, args, onDisk)
  {
    hide Parse;
    hide Bad;
    forall o ensures o in x <==> o in y { SameMembers(x, y, o); }
    OneSortOfStop(x, onDisk);
    OneSortOfStop(y, onDisk);
    SameStopSameOutcome(x, y, args, onDisk);
  }

  /** Without --help and --version, reordering options of different kinds never changes the outcome. */
  lemma OrderIsIrrelevant(x: seq<Opt>, y: seq<Opt>, args: seq<string>, onDisk: string -> bool)
    requires SameByKind(x, y)
    requires Flag(Help) !in x && Flag(Version) !in x
    ensures Parse(x, args, onDisk) == Parse(y, args, onDisk)
  {
    hide Parse;
    AgreeingOutcome(x, y, args, onDisk);
  }

  /** With --help it can: before a bad option it exits successfully, after it does not. */
  lemma HelpOrderMatters(args: seq<string>, onDisk: string -> bool)
    ensures var x, y := [Flag(Help), Flag(Unrecognized)], [Flag(Unrecognized), Flag(Help)];
            && SameByKind(x, y)
            && Parse(x, args, onDisk) == Exit(0) && Parse(y, args, onDisk) == Exit(EXIT_FAILURE)
  {
    SwapDifferentKinds([], Flag(Help), Flag(Unrecognized), []);
    assert [] + [Flag(Help), Flag(Unrecognized)] + [] == [Flag(Help), Flag(Unrecognized)];
    assert [] + [Flag(Unrecognized), Flag(Help)] + [] == [Flag(Unrecognized), Flag(Help)];
  }

  // ----- what every successful parse guarantees -----

  /** Exactly one target, a tap name exactly when one is opened by name, and no conflicting options. */
  predicate Consistent(o: Options) {
    && One(o.targetPid > 0) + One(o.tapfd >= 0) + One(o.netnsPath.Some?) + One(o.bessSocket.Some?) == 1
    && o.targetPid >= 0 && o.tapfd >= -1 // 0 and -1 when not given
    && (o.tapname.Some? <==> o.targetPid > 0 || o.netnsPath.Some?)
    && (o.bessSocket.Some? <==> o.raw.targetType == Some("bess"))
    && 1 <= o.raw.mtu <= 65521
    && o.raw.exitFd >= -1 && o.raw.readyFd >= -1
    && (o.raw.macAddress.Some? ==> o.raw.configure)
    && (o.bessSocket.Some? ==> !o.raw.configure && o.raw.macAddress.None?)
    && (o.bessSocket.Some? ==> o.raw.netnsType.None? && o.raw.usernsPath.None?)
  }

  /** The target named on the command line: what the positional arguments mean under each type. */
  predicate TargetGiven(o: Options, args: seq<string>, onDisk: string -> bool) {
    && |args| >= 1
    && (o.bessSocket.Some? ==> args == [o.bessSocket.value])
    && (o.targetPid > 0 ==> PidType(o.raw) && IntArg(args[0], 1) == Some(o.targetPid))
    && (o.tapfd >= 0 ==> TapfdType(o.raw) && IntArg(args[0], 0) == Some(o.tapfd))
    && (o.netnsPath.Some? ==> !PidType(o.raw) && !TapfdType(o.raw) && o.netnsPath.value == args[0] && onDisk(args[0]))
    && (o.tapname.Some? ==> |args| >= 2 && o.tapname.value == args[1])
    && (o.raw.targetType.None? || o.raw.targetType == Some("netns") || o.raw.targetType == Some("bess"))
  }

  predicate PidType(raw: Raw) {
    raw.netnsType.None? || raw.netnsType == Some("pid")
  }

  predicate TapfdType(raw: Raw) {
    raw.netnsType == Some("tapfd")
  }

  predicate NumbersInRange(raw: Raw) {
    1 <= raw.mtu <= MTU_MAX && raw.exitFd >= -1 && raw.readyFd >= -1
  }

  lemma FinishSound(raw: Raw, args: seq<string>, onDisk: string -> bool)
    requires NumbersInRange(raw)
    ensures match Finish(raw, args, onDisk)
            case Parsed(o) => o.raw == raw && Consistent(o) && TargetGiven(o, args, onDisk)
            case Exit(status) => status == EXIT_FAILURE
  {
    hide IntArg;
  }

  lemma FinishComplete(raw: Raw, args: seq<string>, onDisk: string -> bool, o: Options)
    requires o.raw == raw && Consistent(o) && TargetGiven(o, args, onDisk)
    ensures Finish(raw, args, onDisk) == Parsed(o)
  {
    hide IntArg;
  }

  /** After the loop, a command line is accepted as `o` exactly when `o` is consistent and names the
      target the positional arguments give; there is at most one such `o`. */
  lemma FinishMeaning(raw: Raw, args: seq<string>, onDisk: string -> bool, o: Options)
    requires NumbersInRange(raw)
    ensures Finish(raw, args, onDisk) == Parsed(o) <==> o.raw == raw && Consistent(o) && TargetGiven(o, args, onDisk)
    ensures Finish(raw, args, onDisk).Exit? ==> Finish(raw, args, onDisk) == Exit(EXIT_FAILURE)
  {
    hide Finish;
    hide Consistent;
    hide TargetGiven;
    FinishSound(raw, args, onDisk);
    if o.raw == raw && Consistent(o) && TargetGiven(o, args, onDisk) {
      FinishComplete(raw, args, onDisk, o);
    }
  }

  lemma ParsedIsConsistent(opts: seq<Opt>, args: seq<string>, onDisk: string -> bool)
    ensures NumbersInRange(Collected(opts))
    ensures Parse(opts, args, onDisk).Parsed? ==>
              var o := Parse(opts, args, onDisk).options;
              o.raw == Collected(opts) && Consistent(o) && TargetGiven(o, args, onDisk)
  {
    hide LastValue;
    hide IntArg;
    hide MtuArg;
    hide Finish;
    hide Consistent;
    hide TargetGiven;
    if Parse(opts, args, onDisk).Parsed? {
      FinishMeaning(Collected(opts), args, onDisk, Parse(opts, args, onDisk).options);
    }
  }

  // ----- the outcome, by positions in the option list -----

  predicate IsKind(o: Opt, k: ValueKind) {
    o.Valued? && o.kind == k
  }

  /** Position `i` holds the last option of this kind. */
  predicate LastAt(opts: seq<Opt>, k: ValueKind, i: nat) {
    i < |opts| && IsKind(opts[i], k) && forall j | i < j < |opts| :: !IsKind(opts[j], k)
  }

  predicate Absent(opts: seq<Opt>, k: ValueKind) {
    forall i | 0 <= i < |opts| :: !IsKind(opts[i], k)
  }

  /** A text field holds the argument of the last option of its kind, and nothing when there is none. */
  ghost predicate TextRead(opts: seq<Opt>, k: ValueKind, v: Option<string>) {
    (Absent(opts, k) ==> v == None) && forall i: nat | LastAt(opts, k, i) :: v == Some(opts[i].arg)
  }

  /** A descriptor field holds the number in that argument, and -1 when there is none. */
  ghost predicate FdRead(opts: seq<Opt>, k: ValueKind, v: int) {
    (Absent(opts, k) ==> v == -1) && forall i: nat | LastAt(opts, k, i) :: IntArg(opts[i].arg, 0) == Some(v)
  }

  /** The MTU is 1500 when it is not given. */
  ghost predicate MtuRead(opts: seq<Opt>, v: int) {
    (Absent(opts, Mtu) ==> v == 1500) && forall i: nat | LastAt(opts, Mtu, i) :: MtuArg(opts[i].arg) == Some(v)
  }

  /** Each flag field says whether its flag, or the deprecated name of it, is in the list. */
  predicate FlagsRead(opts: seq<Opt>, raw: Raw) {
    && (raw.configure <==> Flag(Configure) in opts)
    && (raw.disableHostLoopback <==> Flag(DisableHostLoopback) in opts || Flag(NoHostLoopback) in opts)
    && (raw.enableIpv6 <==> Flag(EnableIpv6) in opts)
    && (raw.enableSandbox <==> Flag(EnableSandbox) in opts || Flag(CreateSandbox) in opts)
    && (raw.enableSeccomp <==> Flag(EnableSeccomp) in opts)
    && (raw.disableDns <==> Flag(DisableDns) in opts)
  }

  ghost predicate ValuesRead(opts: seq<Opt>, raw: Raw) {
    && FdRead(opts, ExitFd, raw.exitFd) && FdRead(opts, ReadyFd, raw.readyFd) && MtuRead(opts, raw.mtu)
    && TextRead(opts, Cidr, raw.cidr) && TextRead(opts, NetnsType, raw.netnsType)
    && TextRead(opts, UsernsPath, raw.usernsPath) && TextRead(opts, ApiSocket, raw.apiSocket)
    && TextRead(opts, OutboundAddr, raw.outboundAddr) && TextRead(opts, OutboundAddr6, raw.outboundAddr6)
    && TextRead(opts, MacAddress, raw.macAddress) && TextRead(opts, TargetType, raw.targetType)
  }

  /** The option lets the loop go on: it is known, does not ask for information, and its argument is valid. */
  predicate Acceptable(o: Opt, onDisk: string -> bool) {
    && o !in [Flag(Help), Flag(Version), Flag(Unrecognized)]
    && (IsKind(o, ExitFd) || IsKind(o, ReadyFd) ==> IntArg(o.arg, 0).Some?)
    && (IsKind(o, Mtu) ==> MtuArg(o.arg).Some?)
    && (IsKind(o, UsernsPath) ==> onDisk(o.arg))
  }

  /** Position `i` asks for help or the version, and nothing before it stops the loop. */
  predicate AsksAt(opts: seq<Opt>, onDisk: string -> bool, i: nat) {
    && i < |opts| && (opts[i] == Flag(Help) || opts[i] == Flag(Version))
    && forall j | 0 <= j < i :: Acceptable(opts[j], onDisk)
  }

  /** The command line means exactly these options. */
  ghost predicate Accepts(opts: seq<Opt>, args: seq<string>, onDisk: string -> bool, o: Options) {
    && (forall i | 0 <= i < |opts| :: Acceptable(opts[i], onDisk))
    && FlagsRead(opts, o.raw) && ValuesRead(opts, o.raw)
    && Consistent(o) && TargetGiven(o, args, onDisk)
  }

  lemma AcceptableMeaning(o: Opt, onDisk: string -> bool)
    ensures Acceptable(o, onDisk) <==> !Bad(o, onDisk) && !Informs(o)
  {
    hide IntArg;
    hide MtuArg;
  }

  lemma {:induction false} StopMeaning(opts: seq<Opt>, onDisk: string -> bool)
    ensures FirstStop(opts, onDisk).None? <==> forall i | 0 <= i < |opts| :: Acceptable(opts[i], onDisk)
    ensures FirstStop(opts, onDisk) == Some(0) <==> exists i: nat :: AsksAt(opts, onDisk, i)
  {
    if opts != [] {
      var rest := opts[1..];
      StopMeaning(rest, onDisk);
      AcceptableMeaning(opts[0], onDisk);
      AskingMeaning(opts[0], onDisk);
      hide Bad;
      hide Acceptable;
      assert forall i | 0 < i < |opts| :: opts[i] == rest[i - 1];
      if i: nat :| AsksAt(rest, onDisk, i) {
        assert Acceptable(opts[0], onDisk) ==> AsksAt(opts, onDisk, i + 1);
      }
      if i: nat :| AsksAt(opts, onDisk, i) {
        assert i == 0 || AsksAt(rest, onDisk, i - 1);
      }
      if Informs(opts[0]) {
        assert AsksAt(opts, onDisk, 0);
      }
    }
  }

  lemma AskingMeaning(o: Opt, onDisk: string -> bool)
    ensures Informs(o) <==> o == Flag(Help) || o == Flag(Version)
    ensures Informs(o) ==> !Bad(o, onDisk) && !Acceptable(o, onDisk)
  {
  }

  lemma LastSnoc(front: seq<Opt>, o: Opt, k: ValueKind, i: nat)
    ensures IsKind(o, k) ==> LastAt(front + [o], k, |front|)
    ensures !IsKind(o, k) && Absent(front, k) ==> Absent(front + [o], k)
    ensures !IsKind(o, k) && LastAt(front, k, i) ==> LastAt(front + [o], k, i) && (front + [o])[i] == front[i]
  {
    hide IsKind;
  }

  /** The position behind LastValue. */
  lemma {:induction false} LastIndex(opts: seq<Opt>, k: ValueKind) returns (i: nat)
    ensures if LastValue(opts, k).None? then Absent(opts, k)
            else LastAt(opts, k, i) && LastValue(opts, k) == Some(opts[i].arg)
    decreases |opts|
  {
    i := 0;
    if opts != [] {
      var front, o := opts[..|opts| - 1], opts[|opts| - 1];
      assert opts == front + [o];
      LastValueSnoc(front, o, k);
      hide LastValue;
      if IsKind(o, k) {
        i := |front|;
      } else {
        i := LastIndex(front, k);
      }
      LastSnoc(front, o, k, i);
      hide Absent;
      hide LastAt;
    }
  }

  lemma FdReadMeaning(opts: seq<Opt>, k: ValueKind, onDisk: string -> bool, v: int)
    requires (k == ExitFd || k == ReadyFd) && forall i | 0 <= i < |opts| :: Acceptable(opts[i], onDisk)
    ensures FdRead(opts, k, v) <==> v == FdOf(LastValue(opts, k))
  {
    hide LastValue;
    hide IntArg;
    var i := LastIndex(opts, k);
  }

  lemma MtuReadMeaning(opts: seq<Opt>, onDisk: string -> bool, v: int)
    requires forall i | 0 <= i < |opts| :: Acceptable(opts[i], onDisk)
    ensures MtuRead(opts, v) <==> v == MtuOf(LastValue(opts, Mtu))
  {
    hide LastValue;
    hide MtuArg;
    var i := LastIndex(opts, Mtu);
  }

  lemma TextReadMeaning(opts: seq<Opt>, k: ValueKind, v: Option<string>)
    ensures TextRead(opts, k, v) <==> v == LastValue(opts, k)
  {
    hide LastValue;
    var i := LastIndex(opts, k);
  }

  lemma CollectedMeaning(opts: seq<Opt>, onDisk: string -> bool, raw: Raw)
    requires forall i | 0 <= i < |opts| :: Acceptable(opts[i], onDisk)
    ensures FlagsRead(opts, raw) && ValuesRead(opts, raw) <==> raw == Collected(opts)
  {
    FdReadMeaning(opts, ExitFd, onDisk, raw.exitFd);
    FdReadMeaning(opts, ReadyFd, onDisk, raw.readyFd);
    MtuReadMeaning(opts, onDisk, raw.mtu);
    TextReadMeaning(opts, Cidr, raw.cidr);
    TextReadMeaning(opts, NetnsType, raw.netnsType);
    TextReadMeaning(opts, UsernsPath, raw.usernsPath);
    TextReadMeaning(opts, ApiSocket, raw.apiSocket);
    TextReadMeaning(opts, OutboundAddr, raw.outboundAddr);
    TextReadMeaning(opts, OutboundAddr6, raw.outboundAddr6);
    TextReadMeaning(opts, MacAddress, raw.macAddress);
    TextReadMeaning(opts, TargetType, raw.targetType);
    hide FdRead;
    hide MtuRead;
    hide TextRead;
    hide LastValue;
    hide FdOf;
    hide MtuOf;
    hide Acceptable;
  }

  /** What a command line means, by positions in its option list and with no reference to how it is
      collected: it is accepted as exactly the options it spells out, exits 0 exactly when help or the
      version is asked for before anything stops the loop, and fails otherwise. */
  lemma ParseMeaning(opts: seq<Opt>, args: seq<string>, onDisk: string -> bool)
    ensures forall o :: Parse(opts, args, onDisk) == Parsed(o) <==> Accepts(opts, args, onDisk, o)
    ensures Parse(opts, args, onDisk) == Exit(0) <==> exists i: nat :: AsksAt(opts, onDisk, i)
    ensures Parse(opts, args, onDisk).Exit? ==> Parse(opts, args, onDisk).status in {0, EXIT_FAILURE}
  {
    StopMeaning(opts, onDisk);
    FirstStopMeaning(opts, onDisk);
    ParsedIsConsistent(opts, args, onDisk);
    FinishSound(Collected(opts), args, onDisk);
    hide FirstStop;
    hide Finish;
    hide Collected;
    hide Acceptable;
    hide Bad;
    hide Consistent;
    hide TargetGiven;
    hide FlagsRead;
    hide ValuesRead;
    hide AsksAt;
    forall o ensures Parse(opts, args, onDisk) == Parsed(o) <==> Accepts(opts, args, onDisk, o) {
      FinishMeaning(Collected(opts), args, onDisk, o);
      if FirstStop(opts, onDisk).None? {
        CollectedMeaning(opts, onDisk, o.raw);
      }
    }
  }

  /** The parser does not reject --configure with a tapfd target: it accepts the pair whenever it
      accepts the tapfd target alone. */
  lemma TapfdAllowsConfigure(opts: seq<Opt>, args: seq<string>, onDisk: string -> bool)
    requires LastValue(opts, NetnsType) == Some("tapfd")
    requires Parse(opts, args, onDisk).Parsed?
    ensures var r := Parse(opts + [Flag(Configure)], args, onDisk);
            r.Parsed? && r.options.raw.configure && r.options.tapfd == Parse(opts, args, onDisk).options.tapfd >= 0
  {
    hide IntArg;
    hide Bad;
    hide LastValue;
    hide FirstStop;
    CollectedSnoc(opts, Flag(Configure));
    FirstStopMeaning(opts, onDisk);
    FirstStopMeaning(opts + [Flag(Configure)], onDisk);
    assert !Bad(Flag(Configure), onDisk) by { ConfigureIsGood(onDisk); }
  }

  lemma ConfigureIsGood(onDisk: string -> bool)
    ensures !Bad(Flag(Configure), onDisk)
  {
  }
}
