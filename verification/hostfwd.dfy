/** The API socket of api.c: the host-forward registry, its request handlers, and the forward table
    that libslirp keeps of the same rules. Addresses are host-order words. */
module HostFwd {
  import opened Text
  import opened Words
  import Ipv4

  /** What a rule asks libslirp for. */
  datatype Rule = Rule(udp: bool, hostAddr: nat, hostPort: int, guestAddr: nat, guestPort: int)

  /** struct api_hostfwd. */
  datatype Fwd = Fwd(id: int, rule: Rule)

  // ----- requests and replies -----

  /** The members of "arguments" that the handlers read. A missing number reads as 0. */
  datatype Args = Args(proto: string, hostAddr: Option<string>, hostPort: int, guestAddr: Option<string>,
                       guestPort: int, id: int)

  /** A request text after json_parse_string. */
  datatype Json = Malformed | NotObject | Object(execute: Option<string>, args: Args)

  datatype Entry = Entry(id: int, proto: string, hostAddr: string, hostPort: int, guestAddr: string, guestPort: int)

  /** The "desc" of an error reply. */
  datatype Problem =
    | CannotParse | NotAnObject | NoExecute | UnknownExecute | TooLarge
    | BadProto | BadHostAddr | BadHostPort | BadGuestAddr | BadGuestPort | AddFailed
    | BadId | RemoveFailed

  datatype Reply = Error(problem: Problem) | Added(id: int) | Entries(entries: seq<Entry>) | Removed

  datatype Checked = Bad(problem: Problem) | Good(rule: Rule)

  /** The argument checks of add_hostfwd, in the order the handler makes them. */
  function CheckArgs(args: Args, vguest: nat): Checked {
    if args.proto != "udp" && args.proto != "tcp" then Bad(BadProto)
    else
      var hostAddr := if args.hostAddr.None? || args.hostAddr.value == "" then "0.0.0.0" else args.hostAddr.value;
      var host := Ipv4.Parse(hostAddr);
      if host.None? then Bad(BadHostAddr)
      else if args.hostPort == 0 then Bad(BadHostPort)
      else
        var guest := if args.guestAddr.None? || args.guestAddr.value == "" then Some(vguest)
                     else Ipv4.Parse(args.guestAddr.value);
        if guest.None? then Bad(BadGuestAddr)
        else if args.guestPort == 0 then Bad(BadGuestPort)
        else Good(Rule(args.proto == "udp", host.value, args.hostPort, guest.value, args.guestPort))
  }

  /** One entry of the list reply. */
  function Show(f: Fwd): Entry {
    Entry(f.id, if f.rule.udp then "udp" else "tcp", Ipv4.Print(f.rule.hostAddr), f.rule.hostPort,
          Ipv4.Print(f.rule.guestAddr), f.rule.guestPort)
  }

  function ShowAll(fwds: seq<Fwd>): (entries: seq<Entry>)
    ensures |entries| == |fwds| && forall i | 0 <= i < |fwds| :: entries[i] == Show(fwds[i])
  {
    seq(|fwds|, i requires 0 <= i < |fwds| => Show(fwds[i]))
  }

  predicate WellFormed(r: Rule) {
    r.hostAddr < WORD && r.guestAddr < WORD && r.hostPort != 0 && r.guestPort != 0
  }

  /** The arguments a client would send to add a listed entry again. */
  function Resubmit(e: Entry): Args {
    Args(e.proto, Some(e.hostAddr), e.hostPort, Some(e.guestAddr), e.guestPort, 0)
  }

  /** Address argument `s` stands for address `a`: missing or empty for the default, otherwise as printed. */
  predicate MeansAddress(s: Option<string>, default: nat, a: nat) {
    if s.None? || s.value == "" then a == default else a < WORD && s.value == Ipv4.Print(a)
  }

  lemma ZeroAddress()
    ensures Ipv4.Parse("0.0.0.0") == Some(0)
  {
    hide Ipv4.Parse;
    hide Ipv4.Print;
    Ipv4.ParseOfPrint(0);
    Ipv4.PrintZero();
  }

  lemma ParsedAddress(s: string, a: nat)
    ensures Ipv4.Parse(s) == Some(a) <==> a < WORD && s == Ipv4.Print(a)
  {
    hide Ipv4.Parse;
    hide Ipv4.Print;
    if Ipv4.Parse(s) == Some(a) {
      Ipv4.PrintOfParse(s);
    }
    if a < WORD {
      Ipv4.ParseOfPrint(a);
    }
  }

  /** The checks accept exactly the arguments that name a protocol, non-zero ports and, where given, IPv4
      addresses; a missing host address is 0.0.0.0 and a missing guest address the recommended one. */
  lemma CheckArgsMeaning(args: Args, vguest: nat, r: Rule)
    ensures CheckArgs(args, vguest) == Good(r) <==>
              && args.proto == (if r.udp then "udp" else "tcp")
              && MeansAddress(args.hostAddr, 0, r.hostAddr) && MeansAddress(args.guestAddr, vguest, r.guestAddr)
              && args.hostPort == r.hostPort != 0 && args.guestPort == r.guestPort != 0
  {
    hide Ipv4.Parse;
    hide Ipv4.Print;
    ZeroAddress();
    if args.hostAddr.Some? {
      ParsedAddress(args.hostAddr.value, r.hostAddr);
    }
    if args.guestAddr.Some? {
      ParsedAddress(args.guestAddr.value, r.guestAddr);
    }
  }

  ghost predicate NamesAddress(s: Option<string>) {
    exists a :: MeansAddress(s, 0, a)
  }

  lemma AddressChecked(s: Option<string>)
    ensures NamesAddress(s) <==> s.None? || s.value == "" || Ipv4.Parse(s.value).Some?
  {
    hide Ipv4.Parse;
    hide Ipv4.Print;
    if s.None? || s.value == "" {
      assert MeansAddress(s, 0, 0);
    } else {
      forall a: nat ensures MeansAddress(s, 0, a) <==> Ipv4.Parse(s.value) == Some(a) { ParsedAddress(s.value, a); }
    }
  }

  /** A refusal names the first argument that is wrong: protocol, host address, host port, guest address,
      guest port. */
  lemma FirstProblemNamed(args: Args, vguest: nat, p: Problem)
    ensures CheckArgs(args, vguest) == Bad(p) <==>
              if args.proto != "udp" && args.proto != "tcp" then p == BadProto
              else if !NamesAddress(args.hostAddr) then p == BadHostAddr
              else if args.hostPort == 0 then p == BadHostPort
              else if !NamesAddress(args.guestAddr) then p == BadGuestAddr
              else args.guestPort == 0 && p == BadGuestPort
  {
    hide Ipv4.Parse;
    hide NamesAddress;
    ZeroAddress();
    AddressChecked(args.hostAddr);
    AddressChecked(args.guestAddr);
  }

  lemma PrintNonEmpty(a: nat)
    ensures Ipv4.Print(a) != ""
  {
  }

  /** A listed entry, sent back as add_hostfwd arguments, passes every check and means the same rule. */
  lemma ResubmitRoundTrip(f: Fwd, vguest: nat)
    requires WellFormed(f.rule)
    ensures CheckArgs(Resubmit(Show(f)), vguest) == Good(f.rule) && Show(f).id == f.id
  {
    hide Ipv4.Parse;
    hide Ipv4.Print;
    Ipv4.ParseOfPrint(f.rule.hostAddr);
    Ipv4.ParseOfPrint(f.rule.guestAddr);
    PrintNonEmpty(f.rule.hostAddr);
    PrintNonEmpty(f.rule.guestAddr);
  }

  // ----- libslirp's table -----

  /** How libslirp treats keys: it compares host ports up to `norm`, and when `strict` it never holds two
      rules of the same key. Apart from that it may refuse anything. */
  datatype Backend = Backend(norm: int -> int, strict: bool)

  datatype Key = Key(udp: bool, hostAddr: nat, hostPort: int)

  function KeyOf(b: Backend, r: Rule): Key {
    Key(r.udp, r.hostAddr, b.norm(r.hostPort))
  }

  /** What libslirp decides on a call: to refuse it, or to carry it out, on the entry `pick` if it is a
      removal and several entries have the key. */
  datatype Decision = Refuse | Accept(pick: nat)

  function Without<T>(s: seq<T>, i: nat): seq<T>
    requires i < |s|
  {
    s[..i] + s[i + 1..]
  }

  predicate HasKey(b: Backend, table: seq<Rule>, k: Key) {
    exists r | r in table :: KeyOf(b, r) == k
  }

  /** slirp_add_hostfwd: the new table, or None for a negative result. */
  function BackendAdd(b: Backend, table: seq<Rule>, r: Rule, d: Decision): Option<seq<Rule>> {
    if d.Refuse? || (b.strict && HasKey(b, table, KeyOf(b, r))) then None else Some(table + [r])
  }

  /** slirp_remove_hostfwd: it fails when no entry has the key. */
  function BackendRemove(b: Backend, table: seq<Rule>, k: Key, d: Decision): Option<seq<Rule>> {
    if d.Accept? && d.pick < |table| && KeyOf(b, table[d.pick]) == k then Some(Without(table, d.pick)) else None
  }

  // ----- one request -----

  /** The registry of struct api_ctx together with libslirp's table. */
  datatype Sys = Sys(fwds: seq<Fwd>, nextId: int, table: seq<Rule>)

  function Init(): Sys {
    Sys([], 1, [])
  }

  /** g_list_find_custom with the id comparator: the first entry of that id, or the length. */
  function Find(fwds: seq<Fwd>, id: int): (i: nat)
    ensures i <= |fwds|
    ensures i < |fwds| ==> fwds[i].id == id
    ensures forall k | 0 <= k < i :: fwds[k].id != id
  {
    if fwds == [] || fwds[0].id == id then 0 else 1 + Find(fwds[1..], id)
  }

  function Add(b: Backend, vguest: nat, s: Sys, args: Args, d: Decision): (Sys, Reply) {
    match CheckArgs(args, vguest)
    case Bad(problem) => (s, Error(problem))
    case Good(rule) =>
      match BackendAdd(b, s.table, rule, d)
      case None => (s, Error(AddFailed))
      case Some(table) => (Sys(s.fwds + [Fwd(s.nextId, rule)], s.nextId + 1, table), Added(s.nextId))
  }

  function Remove(b: Backend, s: Sys, id: int, d: Decision): (Sys, Reply) {
    var i := Find(s.fwds, id);
    if i == |s.fwds| then (s, Error(BadId))
    else
      match BackendRemove(b, s.table, KeyOf(b, s.fwds[i].rule), d)
      case None => (s, Error(RemoveFailed))
      case Some(table) => (Sys(Without(s.fwds, i), s.nextId, table), Removed)
  }

  /** api_handle_req. */
  function Step(b: Backend, vguest: nat, s: Sys, req: Json, d: Decision): (Sys, Reply) {
    match req
    case Malformed => (s, Error(CannotParse))
    case NotObject => (s, Error(NotAnObject))
    case Object(execute, args) =>
      if execute.None? then (s, Error(NoExecute))
      else if execute.value == "add_hostfwd" then Add(b, vguest, s, args, d)
      else if execute.value == "list_hostfwd" then (s, Entries(ShowAll(s.fwds)))
      else if execute.value == "remove_hostfwd" then Remove(b, s, args.id, d)
      else (s, Error(UnknownExecute))
  }

  /** Only a successful add or remove changes anything: neither side, nor the id counter, moves on an
      error or a list. */
  lemma FailuresChangeNothing(b: Backend, vguest: nat, s: Sys, req: Json, d: Decision)
    ensures var (s', reply) := Step(b, vguest, s, req, d);
            reply.Error? || reply.Entries? ==> s' == s
  {
  }

  /** The request is an object that asks for this. */
  predicate Asks(req: Json, execute: string) {
    req.Object? && req.execute == Some(execute)
  }

  predicate Listed(s: Sys, id: int) {
    exists f | f in s.fwds :: f.id == id
  }

  /** What a reply says about the request: for every reply, the requests that get it. */
  lemma ReplyMeaning(b: Backend, vguest: nat, s: Sys, req: Json, d: Decision)
    ensures var reply := Step(b, vguest, s, req, d).1;
            && (reply == Error(CannotParse) <==> req.Malformed?)
            && (reply == Error(NotAnObject) <==> req.NotObject?)
            && (reply == Error(NoExecute) <==> req.Object? && req.execute.None?)
            && (reply == Error(UnknownExecute) <==>
                  && req.Object? && req.execute.Some?
                  && req.execute.value !in ["add_hostfwd", "list_hostfwd", "remove_hostfwd"])
            && (reply.Entries? <==> Asks(req, "list_hostfwd"))
            && (reply.Added? ==> Asks(req, "add_hostfwd") && reply.id == s.nextId)
            && (reply == Error(AddFailed) ==> Asks(req, "add_hostfwd") && CheckArgs(req.args, vguest).Good?)
            && (Asks(req, "add_hostfwd") ==>
                  match CheckArgs(req.args, vguest)
                  case Bad(p) => reply == Error(p)
                  case Good(_) => reply.Added? || reply == Error(AddFailed))
            && (reply == Error(BadId) <==> Asks(req, "remove_hostfwd") && !Listed(s, req.args.id))
            && (reply.Removed? || reply == Error(RemoveFailed) <==>
                  Asks(req, "remove_hostfwd") && Listed(s, req.args.id))
  {
    hide Add;
    hide Remove;
    hide CheckArgs;
    hide Listed;
    if req.Object? {
      AddReply(b, vguest, s, req.args, d);
      RemoveReply(b, s, req.args.id, d);
    }
  }

  predicate IsOfArguments(p: Problem) {
    p.BadProto? || p.BadHostAddr? || p.BadHostPort? || p.BadGuestAddr? || p.BadGuestPort?
  }

  lemma AddReply(b: Backend, vguest: nat, s: Sys, args: Args, d: Decision)
    ensures var reply := Add(b, vguest, s, args, d).1;
            match CheckArgs(args, vguest)
            case Bad(p) => reply == Error(p) && IsOfArguments(p)
            case Good(_) => reply == Added(s.nextId) || reply == Error(AddFailed)
  {
    hide Ipv4.Parse;
  }

  lemma RemoveReply(b: Backend, s: Sys, id: int, d: Decision)
    ensures var reply := Remove(b, s, id, d).1;
            if Listed(s, id) then reply.Removed? || reply == Error(RemoveFailed) else reply == Error(BadId)
  {
    var i := Find(s.fwds, id);
    if i < |s.fwds| {
      assert s.fwds[i] in s.fwds;
    }
  }

  // ----- runs and their transcripts -----

  datatype Exchange = Exchange(req: Json, reply: Reply)

  datatype Request = Request(json: Json, decision: Decision)

  /** A run from the initial state: the state it reaches, and what clients sent and were answered. */
  function Run(b: Backend, vguest: nat, reqs: seq<Request>): (Sys, seq<Exchange>) {
    if reqs == [] then (Init(), [])
    else
      var (s, t) := Run(b, vguest, reqs[..|reqs| - 1]);
      var last := reqs[|reqs| - 1];
      var (s', reply) := Step(b, vguest, s, last.json, last.decision);
      (s', t + [Exchange(last.json, reply)])
  }

  predicate IsAdd(x: Exchange, vguest: nat) {
    x.reply.Added? && x.req.Object? && CheckArgs(x.req.args, vguest).Good?
  }

  function AddedFwd(x: Exchange, vguest: nat): Fwd
    requires IsAdd(x, vguest)
  {
    Fwd(x.reply.id, CheckArgs(x.req.args, vguest).rule)
  }

  predicate IsRemoveOf(x: Exchange, id: int) {
    x.reply.Removed? && x.req.Object? && x.req.args.id == id
  }

  predicate RemovedIn(t: seq<Exchange>, id: int) {
    exists x | x in t :: IsRemoveOf(x, id)
  }

  /** The transcript read from the client's side: every successful add whose id no later exchange
      removes, in order of addition. */
  function Survivors(t: seq<Exchange>, vguest: nat): seq<Fwd> {
    if t == [] then [] else Survivor(t[0], t[1..], vguest) + Survivors(t[1..], vguest)
  }

  function Survivor(x: Exchange, later: seq<Exchange>, vguest: nat): seq<Fwd> {
    if IsAdd(x, vguest) && !RemovedIn(later, x.reply.id) then [AddedFwd(x, vguest)] else []
  }

  function DropId(fwds: seq<Fwd>, id: int): seq<Fwd> {
    if fwds == [] then []
    else if fwds[0].id == id then DropId(fwds[1..], id)
    else [fwds[0]] + DropId(fwds[1..], id)
  }

  lemma RemovedInSnoc(t: seq<Exchange>, x: Exchange, id: int)
    ensures RemovedIn(t + [x], id) <==> RemovedIn(t, id) || IsRemoveOf(x, id)
  {
    if RemovedIn(t, id) {
      var y :| y in t && IsRemoveOf(y, id);
      assert y in t + [x];
    }
    if IsRemoveOf(x, id) {
      assert x in t + [x];
    }
  }

  lemma {:induction false} DropIdConcat(s: seq<Fwd>, t: seq<Fwd>, id: int)
    ensures DropId(s + t, id) == DropId(s, id) + DropId(t, id)
  {
    if s == [] {
      assert s + t == t;
    } else {
      assert (s + t)[1..] == s[1..] + t;
      DropIdConcat(s[1..], t, id);
    }
  }

  /** What exchange `x` does to a list of survivors before it. */
  function Effect(s: seq<Fwd>, x: Exchange): seq<Fwd> {
    if x.reply.Removed? && x.req.Object? then DropId(s, x.req.args.id) else s
  }

  lemma SurvivorSnoc(y: Exchange, later: seq<Exchange>, x: Exchange, vguest: nat)
    ensures Survivor(y, later + [x], vguest) == Effect(Survivor(y, later, vguest), x)
  {
    hide RemovedIn;
    hide CheckArgs;
    if IsAdd(y, vguest) {
      RemovedInSnoc(later, x, y.reply.id);
      var f := AddedFwd(y, vguest);
      assert [f][1..] == [];
      if x.req.Object? {
        assert DropId([f], x.req.args.id) == if f.id == x.req.args.id then [] else [f];
      }
    }
  }

  /** One more exchange drops the id it removed, or adds its rule at the end, or changes nothing. */
  lemma {:induction false} SurvivorsSnoc(t: seq<Exchange>, x: Exchange, vguest: nat)
    ensures Survivors(t + [x], vguest) == Effect(Survivors(t, vguest), x) + Survivor(x, [], vguest)
    decreases |t|
  {
    hide Survivor;
    if t == [] {
      assert t + [x] == [x] && [x][1..] == [];
    } else {
      assert (t + [x])[0] == t[0] && (t + [x])[1..] == t[1..] + [x];
      SurvivorsSnoc(t[1..], x, vguest);
      SurvivorSnoc(t[0], t[1..], x, vguest);
      if x.req.Object? {
        DropIdConcat(Survivor(t[0], t[1..], vguest), Survivors(t[1..], vguest), x.req.args.id);
      }
    }
  }

  lemma NothingRemoved(id: int)
    ensures !RemovedIn([], id)
  {
  }

  // ----- the invariant of every run -----

  predicate IdsIncrease(fwds: seq<Fwd>, nextId: int) {
    && (forall i, j | 0 <= i < j < |fwds| :: fwds[i].id < fwds[j].id)
    && (forall i | 0 <= i < |fwds| :: 1 <= fwds[i].id < nextId)
  }

  /** Ids handed out in the transcript increase strictly and stay below the counter. */
  predicate IdsFresh(t: seq<Exchange>, nextId: int) {
    && (forall i, j | 0 <= i < j < |t| && t[i].reply.Added? && t[j].reply.Added? :: t[i].reply.id < t[j].reply.id)
    && (forall i | 0 <= i < |t| && t[i].reply.Added? :: 1 <= t[i].reply.id < nextId)
  }

  function Rules(fwds: seq<Fwd>): (rules: seq<Rule>)
    ensures |rules| == |fwds| && forall i | 0 <= i < |fwds| :: rules[i] == fwds[i].rule
  {
    seq(|fwds|, i requires 0 <= i < |fwds| => fwds[i].rule)
  }

  function Keys(b: Backend, rules: seq<Rule>): (keys: seq<Key>)
    ensures |keys| == |rules| && forall i | 0 <= i < |rules| :: keys[i] == KeyOf(b, rules[i])
  {
    seq(|rules|, i requires 0 <= i < |rules| => KeyOf(b, rules[i]))
  }

  /** The two copies hold the same keys, as often; a strict backend holds exactly the same rules. */
  ghost predicate Agree(b: Backend, s: Sys) {
    && multiset(Keys(b, Rules(s.fwds))) == multiset(Keys(b, s.table))
    && (b.strict ==> DistinctKeys(b, s.table) && multiset(Rules(s.fwds)) == multiset(s.table))
  }

  predicate DistinctKeys(b: Backend, table: seq<Rule>) {
    forall i, j | 0 <= i < j < |table| :: KeyOf(b, table[i]) != KeyOf(b, table[j])
  }

  predicate AllWellFormed(fwds: seq<Fwd>) {
    forall i | 0 <= i < |fwds| :: WellFormed(fwds[i].rule)
  }

  ghost predicate Inv(b: Backend, vguest: nat, s: Sys, t: seq<Exchange>) {
    && s.fwds == Survivors(t, vguest)
    && IdsIncrease(s.fwds, s.nextId)
    && IdsFresh(t, s.nextId)
    && AllWellFormed(s.fwds)
    && s.nextId >= 1
    && Agree(b, s)
  }

  lemma WithoutTail<T>(s: seq<T>, i: nat)
    requires i < |s|
    ensures Without(s, i) == if i == 0 then s[1..] else [s[0]] + Without(s[1..], i - 1)
  {
  }

  lemma IdsIncreaseTail(fwds: seq<Fwd>, nextId: int)
    requires fwds != [] && IdsIncrease(fwds, nextId)
    ensures IdsIncrease(fwds[1..], nextId) && forall k | 0 <= k < |fwds[1..]| :: fwds[1..][k].id != fwds[0].id
  {
  }

  lemma {:induction false} DropIdIsWithout(fwds: seq<Fwd>, nextId: int, i: nat)
    requires i < |fwds| && IdsIncrease(fwds, nextId)
    ensures DropId(fwds, fwds[i].id) == Without(fwds, i)
  {
    hide IdsIncrease;
    hide Without;
    IdsIncreaseTail(fwds, nextId);
    WithoutTail(fwds, i);
    if i == 0 {
      DropIdAbsent(fwds[1..], fwds[0].id);
    } else {
      assert fwds[i] == fwds[1..][i - 1];
      DropIdIsWithout(fwds[1..], nextId, i - 1);
    }
  }

  lemma {:induction false} DropIdAbsent(fwds: seq<Fwd>, id: int)
    requires forall k | 0 <= k < |fwds| :: fwds[k].id != id
    ensures DropId(fwds, id) == fwds
  {
    if fwds != [] {
      DropIdAbsent(fwds[1..], id);
    }
  }

  lemma MultisetWithout<T>(s: seq<T>, i: nat)
    requires i < |s|
    ensures multiset(Without(s, i)) == multiset(s) - multiset{s[i]}
  {
    assert s == s[..i] + [s[i]] + s[i + 1..];
  }

  lemma MapWithout(fwds: seq<Fwd>, i: nat)
    requires i < |fwds|
    ensures Rules(Without(fwds, i)) == Without(Rules(fwds), i)
  {
  }

  lemma KeysWithout(b: Backend, rules: seq<Rule>, i: nat)
    requires i < |rules|
    ensures Keys(b, Without(rules, i)) == Without(Keys(b, rules), i)
  {
  }

  lemma AgreeAfterAdd(b: Backend, s: Sys, f: Fwd, d: Decision)
    requires Agree(b, s) && BackendAdd(b, s.table, f.rule, d).Some?
    ensures Agree(b, Sys(s.fwds + [f], s.nextId + 1, s.table + [f.rule]))
  {
    assert Rules(s.fwds + [f]) == Rules(s.fwds) + [f.rule];
    assert Keys(b, Rules(s.fwds) + [f.rule]) == Keys(b, Rules(s.fwds)) + [KeyOf(b, f.rule)];
    assert Keys(b, s.table + [f.rule]) == Keys(b, s.table) + [KeyOf(b, f.rule)];
    if b.strict {
      forall i | 0 <= i < |s.table| ensures KeyOf(b, s.table[i]) != KeyOf(b, f.rule) { assert s.table[i] in s.table; }
    }
  }

  lemma DistinctWithout(b: Backend, table: seq<Rule>, pick: nat)
    requires pick < |table| && DistinctKeys(b, table)
    ensures DistinctKeys(b, Without(table, pick))
  {
  }

  lemma PickIsTheRule(b: Backend, rules: seq<Rule>, table: seq<Rule>, i: nat, pick: nat)
    requires i < |rules| && pick < |table| && DistinctKeys(b, table) && multiset(rules) == multiset(table)
    requires KeyOf(b, table[pick]) == KeyOf(b, rules[i])
    ensures table[pick] == rules[i]
  {
    assert rules[i] in multiset(rules);
    assert rules[i] in table;
  }

  lemma AgreeAfterRemove(b: Backend, s: Sys, i: nat, pick: nat)
    requires Agree(b, s) && i < |s.fwds| && pick < |s.table|
    requires KeyOf(b, s.table[pick]) == KeyOf(b, s.fwds[i].rule)
    ensures Agree(b, Sys(Without(s.fwds, i), s.nextId, Without(s.table, pick)))
  {
    hide Without;
    hide DistinctKeys;
    hide KeyOf;
    var rules := Rules(s.fwds);
    MapWithout(s.fwds, i);
    KeysWithout(b, rules, i);
    KeysWithout(b, s.table, pick);
    MultisetWithout(Keys(b, rules), i);
    MultisetWithout(Keys(b, s.table), pick);
    if b.strict {
      PickIsTheRule(b, rules, s.table, i, pick);
      MultisetWithout(rules, i);
      MultisetWithout(s.table, pick);
      DistinctWithout(b, s.table, pick);
    }
  }

  lemma InvAfterAdd(b: Backend, vguest: nat, s: Sys, t: seq<Exchange>, req: Json, d: Decision)
    requires vguest < WORD && Inv(b, vguest, s, t) && req.Object? && Add(b, vguest, s, req.args, d).1.Added?
    ensures var (s', reply) := Add(b, vguest, s, req.args, d); Inv(b, vguest, s', t + [Exchange(req, reply)])
  {
    hide Agree;
    hide BackendAdd;
    hide Survivors;
    hide Ipv4.Parse;
    var (s', reply) := Add(b, vguest, s, req.args, d);
    var f := Fwd(s.nextId, CheckArgs(req.args, vguest).rule);
    SurvivorsSnoc(t, Exchange(req, reply), vguest);
    NothingRemoved(s.nextId);
    AcceptedAdd(b, s.table, f.rule, d);
    AgreeAfterAdd(b, s, f, d);
  }

  lemma AcceptedAdd(b: Backend, table: seq<Rule>, r: Rule, d: Decision)
    ensures BackendAdd(b, table, r, d).Some? ==> BackendAdd(b, table, r, d).value == table + [r]
  {
  }

  lemma NotAnAdd(x: Exchange, vguest: nat)
    ensures !x.reply.Added? ==> !IsAdd(x, vguest)
  {
  }

  lemma ListWithout(fwds: seq<Fwd>, nextId: int, i: nat)
    requires i < |fwds| && IdsIncrease(fwds, nextId) && AllWellFormed(fwds)
    ensures IdsIncrease(Without(fwds, i), nextId) && AllWellFormed(Without(fwds, i))
  {
  }

  lemma InvAfterRemove(b: Backend, vguest: nat, s: Sys, t: seq<Exchange>, req: Json, d: Decision)
    requires Inv(b, vguest, s, t) && req.Object? && Remove(b, s, req.args.id, d).1.Removed?
    ensures var (s', reply) := Remove(b, s, req.args.id, d); Inv(b, vguest, s', t + [Exchange(req, reply)])
  {
    hide Agree;
    hide Survivors;
    hide Without;
    hide IsAdd;
    hide IdsIncrease;
    hide AllWellFormed;
    var (s', reply) := Remove(b, s, req.args.id, d);
    var i := Find(s.fwds, req.args.id);
    SurvivorsSnoc(t, Exchange(req, reply), vguest);
    assert IdsIncrease(Without(s.fwds, i), s.nextId) && AllWellFormed(Without(s.fwds, i)) by {
      ListWithout(s.fwds, s.nextId, i);
    }
    assert DropId(s.fwds, req.args.id) == Without(s.fwds, i) by { DropIdIsWithout(s.fwds, s.nextId, i); }
    AgreeAfterRemove(b, s, i, d.pick);
    NotAnAdd(Exchange(req, reply), vguest);
  }

  lemma InvAfterFailure(b: Backend, vguest: nat, s: Sys, t: seq<Exchange>, x: Exchange)
    requires Inv(b, vguest, s, t) && (x.reply.Error? || x.reply.Entries?)
    ensures Inv(b, vguest, s, t + [x])
  {
    hide Agree;
    hide Survivors;
    SurvivorsSnoc(t, x, vguest);
  }

  /** Every run, whatever clients send and libslirp decides, keeps the invariant. */
  lemma {:induction false} RunKeepsInv(b: Backend, vguest: nat, reqs: seq<Request>)
    requires vguest < WORD
    ensures var (s, t) := Run(b, vguest, reqs); Inv(b, vguest, s, t)
    decreases |reqs|
  {
    if reqs != [] {
      var front, last := reqs[..|reqs| - 1], reqs[|reqs| - 1];
      RunKeepsInv(b, vguest, front);
      var (s, t) := Run(b, vguest, front);
      var (s', reply) := Step(b, vguest, s, last.json, last.decision);
      StepKeepsInv(b, vguest, s, t, last.json, last.decision);
    }
  }

  lemma StepKeepsInv(b: Backend, vguest: nat, s: Sys, t: seq<Exchange>, req: Json, d: Decision)
    requires vguest < WORD && Inv(b, vguest, s, t)
    ensures var (s', reply) := Step(b, vguest, s, req, d); Inv(b, vguest, s', t + [Exchange(req, reply)])
  {
    hide Inv;
    hide CheckArgs;
    hide BackendAdd;
    hide BackendRemove;
    hide Find;
    var (s', reply) := Step(b, vguest, s, req, d);
    if reply.Added? {
      InvAfterAdd(b, vguest, s, t, req, d);
    } else if reply.Removed? {
      InvAfterRemove(b, vguest, s, t, req, d);
    } else {
      FailuresChangeNothing(b, vguest, s, req, d);
      InvAfterFailure(b, vguest, s, t, Exchange(req, reply));
    }
  }

  // ----- what clients may rely on, after every run -----

  /** The list reply is the replay of the transcript, with strictly increasing ids below the counter. */
  lemma ListIsReplay(b: Backend, vguest: nat, reqs: seq<Request>, args: Args, d: Decision)
    requires vguest < WORD
    ensures var (s, t) := Run(b, vguest, reqs);
            && Step(b, vguest, s, Object(Some("list_hostfwd"), args), d) == (s, Entries(ShowAll(Survivors(t, vguest))))
            && IdsIncrease(Survivors(t, vguest), s.nextId)
  {
    hide Run;
    hide Survivors;
    RunKeepsInv(b, vguest, reqs);
  }

  /** No id is handed out twice, even after its rule is removed. */
  lemma IdsAreNeverReused(b: Backend, vguest: nat, reqs: seq<Request>, i: nat, j: nat)
    requires vguest < WORD && i < j < |Run(b, vguest, reqs).1|
    ensures var t := Run(b, vguest, reqs).1;
            t[i].reply.Added? && t[j].reply.Added? ==> t[i].reply.id < t[j].reply.id
  {
    hide Run;
    RunKeepsInv(b, vguest, reqs);
  }

  /** The number of successful adds. */
  function Adds(t: seq<Exchange>): nat {
    if t == [] then 0 else Adds(t[..|t| - 1]) + One(t[|t| - 1].reply.Added?)
  }

  lemma CountsAdds(b: Backend, vguest: nat, s: Sys, req: Json, d: Decision)
    ensures var (s', reply) := Step(b, vguest, s, req, d);
            s'.nextId == s.nextId + One(reply.Added?) && (reply.Added? ==> reply.id == s.nextId)
  {
    hide CheckArgs;
  }

  /** The id of an add is one more than the number of adds before it. */
  predicate Consecutive(t: seq<Exchange>) {
    forall k | 0 <= k < |t| && t[k].reply.Added? :: t[k].reply.id == 1 + Adds(t[..k])
  }

  lemma ConsecutiveSnoc(t: seq<Exchange>, x: Exchange)
    requires Consecutive(t) && (x.reply.Added? ==> x.reply.id == 1 + Adds(t))
    ensures Consecutive(t + [x]) && Adds(t + [x]) == Adds(t) + One(x.reply.Added?)
  {
    assert (t + [x])[..|t|] == t;
    hide Adds;
    assert forall k | 0 <= k < |t| :: (t + [x])[..k] == t[..k];
  }

  /** Ids are handed out in sequence from 1. */
  lemma {:induction false} IdsAreConsecutive(b: Backend, vguest: nat, reqs: seq<Request>)
    ensures var (s, t) := Run(b, vguest, reqs); s.nextId == 1 + Adds(t) && Consecutive(t)
    decreases |reqs|
  {
    if reqs != [] {
      var front, last := reqs[..|reqs| - 1], reqs[|reqs| - 1];
      IdsAreConsecutive(b, vguest, front);
      var (s, t) := Run(b, vguest, front);
      CountsAdds(b, vguest, s, last.json, last.decision);
      hide Step;
      hide Consecutive;
      hide Adds;
      ConsecutiveSnoc(t, Exchange(last.json, Step(b, vguest, s, last.json, last.decision).1));
    }
  }

  /** The registry and libslirp's table hold the same keys, as often; and the same rules when libslirp
      refuses duplicate keys. */
  lemma RegistryMatchesBackend(b: Backend, vguest: nat, reqs: seq<Request>)
    requires vguest < WORD
    ensures multiset(Keys(b, Rules(Run(b, vguest, reqs).0.fwds))) == multiset(Keys(b, Run(b, vguest, reqs).0.table))
    ensures b.strict ==> SameRules(Run(b, vguest, reqs).0)
  {
    hide Run;
    RunKeepsInv(b, vguest, reqs);
  }

  // ----- when the rules agree, and not only their keys -----

  /** The registry and libslirp's table hold the same rules, as often. */
  ghost predicate SameRules(s: Sys) {
    multiset(Rules(s.fwds)) == multiset(s.table)
  }

  lemma RunSnoc(b: Backend, vguest: nat, reqs: seq<Request>, r: Request)
    ensures Run(b, vguest, reqs + [r]).0 == Step(b, vguest, Run(b, vguest, reqs).0, r.json, r.decision).0
  {
    hide Step;
    assert (reqs + [r])[..|reqs|] == reqs;
  }

  /** A request to add rule `r`, which libslirp accepts if it can. */
  function AddRequest(r: Rule): Request {
    Request(Object(Some("add_hostfwd"), Resubmit(Show(Fwd(0, r)))), Accept(0))
  }

  /** A request to remove `id`, for which libslirp drops its entry `pick`. */
  function RemoveRequest(id: int, pick: nat): Request {
    Request(Object(Some("remove_hostfwd"), Args("", None, 0, None, 0, id)), Accept(pick))
  }

  lemma AddRequestAdds(b: Backend, vguest: nat, s: Sys, r: Rule)
    requires !b.strict && WellFormed(r)
    ensures Step(b, vguest, s, AddRequest(r).json, AddRequest(r).decision).0
         == Sys(s.fwds + [Fwd(s.nextId, r)], s.nextId + 1, s.table + [r])
  {
    hide CheckArgs;
    hide Show;
    ResubmitRoundTrip(Fwd(0, r), vguest);
  }

  /** Of two rules with one key, libslirp may drop the one that the client did not name. */
  lemma DuplicateKeysDiverge(b: Backend, vguest: nat, r: Rule, r': Rule)
    requires !b.strict && WellFormed(r) && WellFormed(r') && r != r' && KeyOf(b, r) == KeyOf(b, r')
    ensures var s := Run(b, vguest, [AddRequest(r), AddRequest(r'), RemoveRequest(1, 1)]).0;
            s.fwds == [Fwd(2, r')] && s.table == [r] && !SameRules(s)
  {
    hide Step;
    hide Run;
    hide AddRequest;
    hide RemoveRequest;
    hide KeyOf;
    hide SameRules;
    var a, a', d := AddRequest(r), AddRequest(r'), RemoveRequest(1, 1);
    EmptyRun(b, vguest);
    RunSnoc(b, vguest, [], a);
    AddRequestAdds(b, vguest, Init(), r);
    assert [] + [a] == [a];
    assert Run(b, vguest, [a]).0 == Sys([Fwd(1, r)], 2, [r]);
    RunSnoc(b, vguest, [a], a');
    AddRequestAdds(b, vguest, Sys([Fwd(1, r)], 2, [r]), r');
    assert [a] + [a'] == [a, a'];
    assert Run(b, vguest, [a, a']).0 == Sys([Fwd(1, r), Fwd(2, r')], 3, [r, r']);
    RunSnoc(b, vguest, [a, a'], d);
    RemovesTheOther(b, vguest, r, r');
    assert [a, a'] + [d] == [a, a', d];
  }

  lemma EmptyRun(b: Backend, vguest: nat)
    ensures Run(b, vguest, []).0 == Init()
  {
  }

  lemma RemovesTheOther(b: Backend, vguest: nat, r: Rule, r': Rule)
    requires r != r' && KeyOf(b, r) == KeyOf(b, r')
    ensures var s := Sys([Fwd(1, r), Fwd(2, r')], 3, [r, r']);
            var s' := Step(b, vguest, s, RemoveRequest(1, 1).json, RemoveRequest(1, 1).decision).0;
            s' == Sys([Fwd(2, r')], 3, [r]) && !SameRules(s')
  {
    var s := Sys([Fwd(1, r), Fwd(2, r')], 3, [r, r']);
    assert Find(s.fwds, 1) == 0;
    assert Without(s.fwds, 0) == [Fwd(2, r')] && Without(s.table, 1) == [r];
    assert Rules([Fwd(2, r')]) == [r'];
    assert r in multiset([r]) && r !in multiset([r']);
  }

  /** The rules agree after every run exactly with a backend that refuses duplicate keys. */
  lemma RulesAgreeIffStrict(b: Backend, vguest: nat)
    requires vguest < WORD
    ensures b.strict <==> forall reqs: seq<Request> :: SameRules(Run(b, vguest, reqs).0)
  {
    hide Run;
    hide SameRules;
    if b.strict {
      forall reqs: seq<Request> ensures SameRules(Run(b, vguest, reqs).0) {
        RegistryMatchesBackend(b, vguest, reqs);
      }
    } else {
      DuplicateKeysDiverge(b, vguest, Rule(false, 0, 1, 0, 1), Rule(false, 0, 1, 0, 2));
    }
  }

  /** Before every request of the run, no two listed rules share a key. */
  ghost predicate KeysStayDistinct(b: Backend, vguest: nat, reqs: seq<Request>) {
    forall n | 0 <= n < |reqs| :: DistinctKeys(b, Rules(Run(b, vguest, reqs[..n]).0.fwds))
  }

  lemma StepKeepsRules(b: Backend, vguest: nat, s: Sys, req: Json, d: Decision)
    requires SameRules(s) && DistinctKeys(b, Rules(s.fwds))
    ensures SameRules(Step(b, vguest, s, req, d).0)
  {
    hide CheckArgs;
    var (s', reply) := Step(b, vguest, s, req, d);
    if reply.Added? {
      assert Rules(s'.fwds) == Rules(s.fwds) + [s'.fwds[|s.fwds|].rule];
    } else if reply.Removed? {
      var i := Find(s.fwds, req.args.id);
      PickIsTheRule(b, s.table, Rules(s.fwds), d.pick, i);
      MapWithout(s.fwds, i);
      MultisetWithout(Rules(s.fwds), i);
      MultisetWithout(s.table, d.pick);
    } else {
      FailuresChangeNothing(b, vguest, s, req, d);
    }
  }

  /** With any backend, a client that never has two rules of one key listed at once keeps the rules in
      agreement. */
  lemma {:induction false} DistinctKeysAgree(b: Backend, vguest: nat, reqs: seq<Request>)
    requires KeysStayDistinct(b, vguest, reqs)
    ensures SameRules(Run(b, vguest, reqs).0)
    decreases |reqs|
  {
    if reqs != [] {
      var front, last := reqs[..|reqs| - 1], reqs[|reqs| - 1];
      assert forall n | 0 <= n < |front| :: front[..n] == reqs[..n];
      hide Run;
      hide Step;
      DistinctKeysAgree(b, vguest, front);
      StepKeepsRules(b, vguest, Run(b, vguest, front).0, last.json, last.decision);
      RunSnoc(b, vguest, front, last);
      assert front + [last] == reqs;
    } else {
      EmptyRun(b, vguest);
    }
  }

  /** Every listed rule can be removed: libslirp holds an entry of its key. */
  lemma ListedRulesAreRemovable(b: Backend, vguest: nat, reqs: seq<Request>, i: nat)
    requires vguest < WORD && i < |Run(b, vguest, reqs).0.fwds|
    ensures var s := Run(b, vguest, reqs).0;
            exists pick :: 0 <= pick < |s.table| && Remove(b, s, s.fwds[i].id, Accept(pick)).1.Removed?
  {
    hide Run;
    var s := Run(b, vguest, reqs).0;
    assert Agree(b, s) && IdsIncrease(s.fwds, s.nextId) by { RunKeepsInv(b, vguest, reqs); }
    var keys := Keys(b, Rules(s.fwds));
    assert keys[i] in multiset(keys);
    assert keys[i] in Keys(b, s.table);
    var pick :| 0 <= pick < |s.table| && Keys(b, s.table)[pick] == keys[i];
    var k := Find(s.fwds, s.fwds[i].id);
    assert k == i;
    assert Remove(b, s, s.fwds[i].id, Accept(pick)).1.Removed?;
  }

  /** Whatever is listed can be submitted again as it is. */
  lemma ListedRulesResubmit(b: Backend, vguest: nat, reqs: seq<Request>, i: nat)
    requires vguest < WORD && i < |Run(b, vguest, reqs).0.fwds|
    ensures var s := Run(b, vguest, reqs).0;
            CheckArgs(Resubmit(ShowAll(s.fwds)[i]), vguest) == Good(s.fwds[i].rule)
  {
    hide Run;
    hide CheckArgs;
    RunKeepsInv(b, vguest, reqs);
    ResubmitRoundTrip(Run(b, vguest, reqs).0.fwds[i], vguest);
  }
}
