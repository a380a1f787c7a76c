/** The state that api.c updates in place: struct api_ctx with its message buffer, and libslirp's table. */
module Api {
  import opened Text
  import opened Words
  import opened HostFwd
  import Ipv4

  const BUFLEN: nat := 4096

  class Slirp {
    const backend: Backend
    var table: seq<Rule>

    constructor (b: Backend)
      ensures backend == b && table == []
    {
      backend, table := b, [];
    }

    method AddHostfwd(r: Rule, d: Decision) returns (rc: int)
      modifies this
      ensures BackendAdd(backend, old(table), r, d) == if rc < 0 then None else Some(table)
      ensures rc < 0 ==> table == old(table)
    {
      var t := BackendAdd(backend, table, r, d);
      if t.None? {
        return -1;
      }
      table := t.value;
      return 0;
    }

    method RemoveHostfwd(r: Rule, d: Decision) returns (rc: int)
      modifies this
      ensures BackendRemove(backend, old(table), KeyOf(backend, r), d) == if rc < 0 then None else Some(table)
      ensures rc < 0 ==> table == old(table)
    {
      var t := BackendRemove(backend, table, KeyOf(backend, r), d);
      if t.None? {
        return -1;
      }
      table := t.value;
      return 0;
    }
  }

  /** What one round of accept(2) and read(2) yields. */
  datatype Input = AcceptFailed | ReadFailed | Received(bytes: string)

  class ApiCtx {
    const buf: array<char>
    const vguest: nat
    var hostfwds: seq<Fwd>
    var nextId: int

    ghost function State(slirp: Slirp): Sys
      reads this, slirp
    {
      Sys(hostfwds, nextId, slirp.table)
    }

    constructor (vguest: nat)
      ensures this.vguest == vguest && buf.Length == 4096 && fresh(buf)
      ensures hostfwds == [] && nextId == 1
    {
      this.vguest := vguest;
      buf := new char[BUFLEN];
      hostfwds, nextId := [], 1;
    }

    /** The argument checks, and the rule they fill in. */
    method CheckAddArgs(args: Args) returns (c: Checked)
      ensures c == CheckArgs(args, vguest)
    {
      hide Ipv4.Parse;
      var isUdp := -1;
      if args.proto == "udp" {
        isUdp := 1;
      } else if args.proto == "tcp" {
        isUdp := 0;
      }
      if isUdp == -1 {
        return Bad(BadProto);
      }
      var hostAddr := "0.0.0.0";
      if args.hostAddr.Some? && args.hostAddr.value != "" {
        hostAddr := args.hostAddr.value;
      }
      var host := Ipv4.Parse(hostAddr);
      if host.None? {
        return Bad(BadHostAddr);
      }
      if args.hostPort == 0 {
        return Bad(BadHostPort);
      }
      var guest := vguest;
      if args.guestAddr.Some? && args.guestAddr.value != "" {
        var parsed := Ipv4.Parse(args.guestAddr.value);
        if parsed.None? {
          return Bad(BadGuestAddr);
        }
        guest := parsed.value;
      }
      if args.guestPort == 0 {
        return Bad(BadGuestPort);
      }
      return Good(Rule(isUdp == 1, host.value, args.hostPort, guest, args.guestPort));
    }

    method HandleAdd(slirp: Slirp, args: Args, d: Decision) returns (reply: Reply)
      modifies this, slirp
      ensures (State(slirp), reply) == Add(slirp.backend, vguest, old(State(slirp)), args, d)
    {
      hide CheckArgs;
      hide BackendAdd;
      var c := CheckAddArgs(args);
      if c.Bad? {
        return Error(c.problem);
      }
      var rc := slirp.AddHostfwd(c.rule, d);
      if rc < 0 {
        return Error(AddFailed);
      }
      var id := nextId;
      nextId := nextId + 1;
      hostfwds := hostfwds + [Fwd(id, c.rule)];
      return Added(id);
    }

    method HandleList() returns (reply: Reply)
      ensures reply == Entries(ShowAll(hostfwds))
    {
      hide Show;
      var entries := [];
      for i := 0 to |hostfwds|
        invariant |entries| == i && forall k | 0 <= k < i :: entries[k] == Show(hostfwds[k])
      {
        entries := entries + [Show(hostfwds[i])];
      }
      assert entries == ShowAll(hostfwds);
      return Entries(entries);
    }

    method HandleRemove(slirp: Slirp, id: int, d: Decision) returns (reply: Reply)
      modifies this, slirp
      ensures (State(slirp), reply) == Remove(slirp.backend, old(State(slirp)), id, d)
    {
      hide BackendRemove;
      var i := 0;
      while i < |hostfwds| && hostfwds[i].id != id
        invariant i <= |hostfwds|
        invariant forall k | 0 <= k < i :: hostfwds[k].id != id
      {
        i := i + 1;
      }
      assert i == Find(hostfwds, id);
      if i == |hostfwds| {
        return Error(BadId);
      }
      var rc := slirp.RemoveHostfwd(hostfwds[i].rule, d);
      if rc < 0 {
        return Error(RemoveFailed);
      }
      hostfwds := hostfwds[..i] + hostfwds[i + 1..];
      return Removed;
    }

    method HandleReq(slirp: Slirp, req: Json, d: Decision) returns (reply: Reply)
      modifies this, slirp
      ensures (State(slirp), reply) == Step(slirp.backend, vguest, old(State(slirp)), req, d)
    {
      hide Add;
      hide Remove;
      if req.Malformed? {
        return Error(CannotParse);
      }
      if req.NotObject? {
        return Error(NotAnObject);
      }
      if req.execute.None? {
        return Error(NoExecute);
      }
      if req.execute.value == "add_hostfwd" {
        reply := HandleAdd(slirp, req.args, d);
      } else if req.execute.value == "list_hostfwd" {
        reply := HandleList();
      } else if req.execute.value == "remove_hostfwd" {
        reply := HandleRemove(slirp, req.args.id, d);
      } else {
        reply := Error(UnknownExecute);
      }
    }

    /** api_handler. A message that fills the buffer is refused; a shorter one is handled as the C string
        of its own bytes, whatever earlier messages left in the buffer, and the terminating NUL is
        always written inside it. */
    method Handler(slirp: Slirp, input: Input, parse: string -> Json, d: Decision) returns (reply: Option<Reply>)
      requires buf.Length == 4096
      requires input.Received? ==> |input.bytes| <= 4096
      modifies this, slirp, buf
      ensures input.Received? && |input.bytes| < 4096 ==>
                reply.Some? && (State(slirp), reply.value)
                            == Step(slirp.backend, vguest, old(State(slirp)), parse(CString(input.bytes)), d)
      ensures input.Received? && |input.bytes| == 4096 ==>
                State(slirp) == old(State(slirp)) && reply == Some(Error(TooLarge))
      ensures !input.Received? ==> State(slirp) == old(State(slirp)) && reply == None
    {
      hide Step;
      if !input.Received? {
        return None;
      }
      var len := |input.bytes|;
      for i := 0 to len
        invariant buf[..i] == input.bytes[..i]
        invariant State(slirp) == old(State(slirp))
      {
        buf[i] := input.bytes[i];
      }
      if len == BUFLEN {
        return Some(Error(TooLarge));
      }
      buf[len] := '\0';
      assert buf[..len] == input.bytes;
      SameCString(buf[..], input.bytes);
      var r := HandleReq(slirp, parse(CString(buf[..])), d);
      return Some(r);
    }
  }

  lemma SameCString(buf: string, bytes: string)
    requires |bytes| < |buf| && buf[..|bytes|] == bytes && buf[|bytes|] == '\0'
    ensures CString(buf) == CString(bytes)
  {
    var i := IndexOf(bytes, '\0');
    assert buf[..i] == bytes[..i];
    IndexOfUnique(buf, '\0', i);
  }

  datatype Attempt = Attempt(input: Input, decision: Decision)

  /** The requests that reach api_handle_req. */
  function Handled(attempts: seq<Attempt>, parse: string -> Json): seq<Request> {
    if attempts == [] then []
    else
      var a := attempts[|attempts| - 1];
      Handled(attempts[..|attempts| - 1], parse)
      + if a.input.Received? && |a.input.bytes| < BUFLEN
        then [Request(parse(CString(a.input.bytes)), a.decision)] else []
  }

  /** A whole life of the API socket: its state and transcript are those of the run over the requests
      that were neither lost nor too large. */
  method Serve(b: Backend, vguest: nat, attempts: seq<Attempt>, parse: string -> Json)
    returns (state: Sys, transcript: seq<Exchange>)
    requires vguest < WORD
    requires forall k | 0 <= k < |attempts| && attempts[k].input.Received? :: |attempts[k].input.bytes| <= BUFLEN
    ensures (state, transcript) == Run(b, vguest, Handled(attempts, parse))
    ensures Inv(b, vguest, state, transcript)
  {
    hide Inv;
    hide Step;
    var ctx := new ApiCtx(vguest);
    var slirp := new Slirp(b);
    transcript := [];
    for i := 0 to |attempts|
      invariant ctx.buf.Length == BUFLEN && fresh(ctx) && fresh(slirp) && fresh(ctx.buf)
      invariant slirp.backend == b && ctx.vguest == vguest
      invariant (ctx.State(slirp), transcript) == Run(b, vguest, Handled(attempts[..i], parse))
    {
      var a := attempts[i];
      var reply := ctx.Handler(slirp, a.input, parse, a.decision);
      ghost var before := Handled(attempts[..i], parse);
      assert attempts[..i + 1][..i] == attempts[..i];
      if a.input.Received? && |a.input.bytes| < BUFLEN {
        var json := parse(CString(a.input.bytes));
        transcript := transcript + [Exchange(json, reply.value)];
        ghost var r := Request(json, a.decision);
        assert Handled(attempts[..i + 1], parse) == before + [r];
        assert (before + [r])[..|before|] == before;
      } else {
        assert Handled(attempts[..i + 1], parse) == before;
      }
    }
    assert attempts[..|attempts|] == attempts;
    RunKeepsInv(b, vguest, Handled(attempts, parse));
    state := Sys(ctx.hostfwds, ctx.nextId, slirp.table);
  }
}
