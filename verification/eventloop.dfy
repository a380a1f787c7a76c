/** do_slirp of slirp4netns.c: setup, then rounds of filling the poll table, polling, serving what is
    ready and sweeping the timers. The kernel's and libslirp's answers are inputs; what the loop does is
    recorded as a trace of events. */
module EventLoop {
  import opened Text
  import opened Timers

  // ----- event masks -----

  const SLIRP_POLL_IN: bv32 := 1
  const SLIRP_POLL_OUT: bv32 := 2
  const SLIRP_POLL_PRI: bv32 := 4
  const SLIRP_POLL_ERR: bv32 := 8
  const SLIRP_POLL_HUP: bv32 := 16
  const SLIRP_FLAGS: bv32 := 31

  const G_IO_IN: bv32 := 1
  const G_IO_PRI: bv32 := 2
  const G_IO_OUT: bv32 := 4
  const G_IO_ERR: bv32 := 8
  const G_IO_HUP: bv32 := 16
  const G_FLAGS: bv32 := 31

  function When(mask: bv32, flag: bv32, result: bv32): bv32 {
    if mask & flag != 0 then result else 0
  }

  function PollToGio(events: bv32): bv32 {
    When(events, SLIRP_POLL_IN, G_IO_IN) | When(events, SLIRP_POLL_OUT, G_IO_OUT)
    | When(events, SLIRP_POLL_PRI, G_IO_PRI) | When(events, SLIRP_POLL_ERR, G_IO_ERR)
    | When(events, SLIRP_POLL_HUP, G_IO_HUP)
  }

  function GioToPoll(events: bv32): bv32 {
    When(events, G_IO_IN, SLIRP_POLL_IN) | When(events, G_IO_OUT, SLIRP_POLL_OUT)
    | When(events, G_IO_PRI, SLIRP_POLL_PRI) | When(events, G_IO_ERR, SLIRP_POLL_ERR)
    | When(events, G_IO_HUP, SLIRP_POLL_HUP)
  }

  /** A libslirp mask and a GLib mask say the same: each of the five flags is set in both or in neither. */
  predicate SameFlags(slirp: bv32, gio: bv32) {
    && (slirp & SLIRP_POLL_IN != 0 <==> gio & G_IO_IN != 0)
    && (slirp & SLIRP_POLL_OUT != 0 <==> gio & G_IO_OUT != 0)
    && (slirp & SLIRP_POLL_PRI != 0 <==> gio & G_IO_PRI != 0)
    && (slirp & SLIRP_POLL_ERR != 0 <==> gio & G_IO_ERR != 0)
    && (slirp & SLIRP_POLL_HUP != 0 <==> gio & G_IO_HUP != 0)
  }

  predicate SetsOnly(mask: bv32, flags: bv32) {
    mask & !flags == 0
  }

  /** Both translations keep each of the five flags and set no other bit. */
  lemma MasksKeepFlags(events: bv32)
    ensures SameFlags(events, PollToGio(events)) && SetsOnly(PollToGio(events), G_FLAGS)
    ensures SameFlags(GioToPoll(events), events) && SetsOnly(GioToPoll(events), SLIRP_FLAGS)
  {
  }

  /** The two translations undo each other on the five known flags and drop everything else. */
  lemma MaskRoundTrip(events: bv32)
    ensures SameFlags(events, PollToGio(events)) && GioToPoll(PollToGio(events)) == events & SLIRP_FLAGS
    ensures SameFlags(GioToPoll(events), events) && PollToGio(GioToPoll(events)) == events & G_FLAGS
  {
    MasksKeepFlags(events);
  }

  // ----- the poll table -----

  datatype PollFd = PollFd(fd: int, events: bv32, revents: bv32)

  /** A descriptor that libslirp asks to poll, with its own event flags. */
  datatype Registration = Registration(fd: int, events: bv32)

  function Entry(r: Registration): PollFd {
    PollFd(r.fd, PollToGio(r.events), 0)
  }

  function Entries(fill: seq<Registration>): (t: seq<PollFd>)
    ensures |t| == |fill| && forall k | 0 <= k < |fill| :: t[k] == Entry(fill[k])
  {
    seq(|fill|, k requires 0 <= k < |fill| => Entry(fill[k]))
  }

  /** What poll(2) reported for each index. */
  function WithResults(t: seq<PollFd>, revents: nat -> bv32): (t': seq<PollFd>)
    ensures |t'| == |t| && forall k | 0 <= k < |t| :: t'[k] == t[k].(revents := revents(k))
  {
    seq(|t|, k requires 0 <= k < |t| => t[k].(revents := revents(k)))
  }

  /** The number of entries with events: the result of g_poll. */
  function Ready(t: seq<PollFd>): nat {
    if t == [] then 0 else Ready(t[..|t| - 1]) + if t[|t| - 1].revents != 0 then 1 else 0
  }

  /** Same descriptors and requested events, results aside. */
  predicate SameRequests(t: seq<PollFd>, u: seq<PollFd>) {
    |t| == |u| && forall k | 0 <= k < |t| :: t[k].fd == u[k].fd && t[k].events == u[k].events
  }

  class PollTable {
    var fds: seq<PollFd>

    constructor ()
      ensures fds == []
    {
      fds := [];
    }

    method Append(p: PollFd)
      modifies this
      ensures fds == old(fds) + [p]
    {
      fds := fds + [p];
    }

    /** g_array_set_size to a smaller size. */
    method SetSize(n: nat)
      requires n <= |fds|
      modifies this
      ensures fds == old(fds)[..n]
    {
      fds := fds[..n];
    }

    method AddPoll(fd: int, events: bv32) returns (idx: nat)
      modifies this
      ensures fds == old(fds) + [Entry(Registration(fd, events))] && idx == old(|fds|)
      ensures fds[idx].fd == fd && fds[idx].revents == 0
      ensures SameFlags(events, fds[idx].events) && SetsOnly(fds[idx].events, G_FLAGS)
    {
      hide PollToGio;
      MasksKeepFlags(events);
      idx := |fds|;
      Append(PollFd(fd, PollToGio(events), 0));
    }

    method GetRevents(idx: nat) returns (events: bv32)
      requires idx < |fds|
      ensures events == GioToPoll(fds[idx].revents)
      ensures SameFlags(events, fds[idx].revents) && SetsOnly(events, SLIRP_FLAGS)
    {
      hide GioToPoll;
      MasksKeepFlags(fds[idx].revents);
      events := GioToPoll(fds[idx].revents);
    }

    method Poll(revents: nat -> bv32) returns (pollout: nat)
      modifies this
      ensures fds == WithResults(old(fds), revents) && pollout == Ready(fds)
    {
      fds := WithResults(fds, revents);
      pollout := Ready(fds);
    }
  }

  // ----- inputs -----

  /** Arguments of do_slirp, and the number of timers libslirp creates. A negative descriptor is absent. */
  datatype Config = Config(tapfd: int, readyfd: int, exitfd: int, api: bool, sandbox: bool, seccomp: bool, timers: nat)

  /** How the setup calls turn out. The write of the ready byte is interrupted `readyInterrupts` times. */
  datatype SetupEnv = SetupEnv(created: bool, bufOk: bool, apifd: int, ctxAllocated: bool, sandboxed: bool,
                               filtered: bool, readyInterrupts: nat, readyWritten: bool)

  /** One round: what libslirp registers and its own timeout, the clock before polling, how often poll is
      interrupted, whether it then succeeds and what it reports, which of its registrations libslirp asks
      the results of, the timers that input, requests and services re-arm, and for the sweep the clock and
      what each callback does. */
  datatype Round = Round(fill: seq<Registration>, slirpTimeout: nat, ns: nat, interrupts: nat, polled: bool,
                         revents: nat -> bv32, asked: seq<nat>, mods: seq<Mod>, sweepNs: nat,
                         effects: nat -> seq<Mod>)

  /** The timeout is a uint32_t, and libslirp asks only for what it registered in this round. */
  predicate RoundOk(r: Round) {
    r.slirpTimeout <= UINT32_MAX && forall k | 0 <= k < |r.asked| :: r.asked[k] < |r.fill|
  }

  // ----- the trace -----

  datatype Event =
    | ApiListening | Sandboxed | Filtered | ReadyByte | ReadyClosed
    | RoundStart(table: seq<PollFd>)
    | Registered(idx: nat, fd: int, events: bv32)
    | Polling(timeout: int)
    | TapRead // the packet read, if the read succeeds, goes to slirp_input
    | ExitSeen | ApiRequest
    | SocketService(selectError: bool)
    | Readback(idx: nat, revents: bv32)
    | TimerCallback(timer: nat)
    | Returned(ret: int)

  /** The fixed prefix of the table and the indices of its optional entries, -1 when absent. */
  datatype Plan = Plan(fixed: seq<PollFd>, exitIdx: int, apiIdx: int)

  predicate GoodPlan(p: Plan) {
    && |p.fixed| >= 1
    && -1 <= p.exitIdx < |p.fixed| && -1 <= p.apiIdx < |p.fixed|
    && p.exitIdx != 0 && p.apiIdx != 0 && (p.exitIdx == p.apiIdx ==> p.exitIdx == -1)
  }

  /** The entry polls descriptor `fd` for hang-up, and for input if `input` says so. */
  predicate Watches(e: PollFd, fd: int, input: bool) {
    && e.fd == fd && e.revents == 0
    && e.events & G_IO_HUP != 0 && (e.events & G_IO_IN != 0 <==> input) && SetsOnly(e.events, G_IO_IN | G_IO_HUP)
  }

  function TapPollFd(cfg: Config): PollFd {
    PollFd(cfg.tapfd, G_IO_IN | G_IO_HUP, 0)
  }

  function ExitPollFd(cfg: Config): PollFd {
    PollFd(cfg.exitfd, G_IO_HUP, 0)
  }

  function ApiPollFd(env: SetupEnv): PollFd {
    PollFd(env.apifd, G_IO_IN | G_IO_HUP, 0)
  }

  /** The plan that setup arrives at. */
  function PlanFor(cfg: Config, env: SetupEnv): (p: Plan)
    ensures GoodPlan(p)
  {
    var exit := if cfg.exitfd >= 0 then [ExitPollFd(cfg)] else [];
    var api := if cfg.api then [ApiPollFd(env)] else [];
    Plan([TapPollFd(cfg)] + exit + api,
         if cfg.exitfd >= 0 then 1 else -1,
         if !cfg.api then -1 else if cfg.exitfd >= 0 then 2 else 1)
  }

  lemma EntriesWatch(cfg: Config, env: SetupEnv)
    ensures Watches(TapPollFd(cfg), cfg.tapfd, true)
    ensures Watches(ExitPollFd(cfg), cfg.exitfd, false)
    ensures Watches(ApiPollFd(env), env.apifd, true)
  {
  }

  /** Each index is that of its own descriptor, watched for the right events, and is absent exactly when the
      descriptor is; and there are no other entries. */
  lemma PlanWatches(cfg: Config, env: SetupEnv)
    ensures var p := PlanFor(cfg, env);
            && |p.fixed| == 1 + One(cfg.exitfd >= 0) + One(cfg.api)
            && Watches(p.fixed[0], cfg.tapfd, true)
            && (if cfg.exitfd < 0 then p.exitIdx < 0
                else p.exitIdx > 0 && Watches(p.fixed[p.exitIdx], cfg.exitfd, false))
            && (if !cfg.api then p.apiIdx < 0
                else p.apiIdx > 0 && p.apiIdx != p.exitIdx && Watches(p.fixed[p.apiIdx], env.apifd, true))
  {
    hide Watches;
    hide TapPollFd;
    hide ExitPollFd;
    hide ApiPollFd;
    EntriesWatch(cfg, env);
  }

  /** The calls up to and including the API socket succeed. */
  predicate ApiReady(cfg: Config, env: SetupEnv) {
    env.created && env.bufOk && (cfg.api ==> env.apifd >= 0 && env.ctxAllocated)
  }

  /** Every setup call that the configuration makes succeeds. */
  predicate SetupSucceeds(cfg: Config, env: SetupEnv) {
    ApiReady(cfg, env) && (cfg.sandbox ==> env.sandboxed) && (cfg.seccomp ==> env.filtered)
  }

  datatype Setup = Setup(events: seq<Event>, ok: bool)

  function EnabledSteps(api: bool, sandbox: bool, seccomp: bool): seq<Event> {
    (if api then [ApiListening] else []) + (if sandbox then [Sandboxed] else []) + (if seccomp then [Filtered] else [])
  }

  function ReadySteps(cfg: Config, env: SetupEnv): seq<Event> {
    if cfg.readyfd < 0 then [] else if env.readyWritten then [ReadyByte, ReadyClosed] else [ReadyClosed]
  }

  /** The steps before the loop: every enabled one must succeed before the ready byte is written. */
  function SetupSteps(cfg: Config, env: SetupEnv): Setup {
    if !env.created || !env.bufOk || (cfg.api && (env.apifd < 0 || !env.ctxAllocated)) then Setup([], false)
    else if cfg.sandbox && !env.sandboxed then Setup(EnabledSteps(cfg.api, false, false), false)
    else if cfg.seccomp && !env.filtered then Setup(EnabledSteps(cfg.api, cfg.sandbox, false), false)
    else Setup(EnabledSteps(cfg.api, cfg.sandbox, cfg.seccomp) + ReadySteps(cfg, env), true)
  }

  /** The table and the timers between rounds. */
  datatype LoopState = LoopState(table: seq<PollFd>, deadlines: seq<int>)

  datatype RoundResult = RoundResult(events: seq<Event>, state: LoopState, more: bool, ret: int)

  function Registrations(n: nat, fill: seq<Registration>): seq<Event> {
    seq(|fill|, k requires 0 <= k < |fill| => Registered(n + k, fill[k].fd, fill[k].events))
  }

  /** The results that libslirp asks for, of its registrations `asked`, which start at index `n`. */
  function Readbacks(t: seq<PollFd>, n: nat, asked: seq<nat>): (events: seq<Event>)
    requires forall k | 0 <= k < |asked| :: n + asked[k] < |t|
    ensures |events| == |asked|
    ensures forall k | 0 <= k < |asked| :: events[k] == Readback(n + asked[k], GioToPoll(t[n + asked[k]].revents))
  {
    seq(|asked|, k requires 0 <= k < |asked| => Readback(n + asked[k], GioToPoll(t[n + asked[k]].revents)))
  }

  function Callbacks(fired: seq<nat>): seq<Event> {
    seq(|fired|, k requires 0 <= k < |fired| => TimerCallback(fired[k]))
  }

  /** g_poll is called again, with the same timeout, each time a signal interrupts it. */
  function Polls(timeout: int, interrupts: nat): seq<Event> {
    seq(interrupts + 1, _ => Polling(timeout))
  }

  /** The part of a round up to g_poll: truncate the table, let libslirp fill it, fold the timeout. */
  function BeforePoll(p: Plan, s: LoopState, r: Round): seq<Event>
    requires |p.fixed| <= |s.table| && RoundOk(r)
  {
    [RoundStart(s.table[..|p.fixed|])] + Registrations(|p.fixed|, r.fill)
    + Polls(PollTimeout(Wait(r.slirpTimeout, s.deadlines, NowMsec(r.ns))), r.interrupts)
  }

  /** The table that poll returns. */
  function PolledTable(p: Plan, s: LoopState, r: Round): (t: seq<PollFd>)
    requires |p.fixed| <= |s.table|
    ensures |t| == |p.fixed| + |r.fill|
  {
    WithResults(s.table[..|p.fixed|] + Entries(r.fill), r.revents)
  }

  predicate TapReady(t: seq<PollFd>)
    requires |t| >= 1
  {
    t[0].revents != 0
  }

  predicate IndexReady(t: seq<PollFd>, idx: int)
    requires idx < |t|
  {
    idx >= 0 && t[idx].revents != 0
  }

  /** libslirp is told of a failed select when nothing was ready, and also after tap input. */
  predicate SelectError(t: seq<PollFd>)
    requires |t| >= 1
  {
    TapReady(t) || Ready(t) == 0
  }

  function SweepOf(s: LoopState, r: Round): Sweep {
    SweepAll(Apply(s.deadlines, r.mods), NowMsec(r.sweepNs), r.effects)
  }

  function SocketEvents(t: seq<PollFd>, n: nat, selectError: bool, asked: seq<nat>): seq<Event>
    requires forall k | 0 <= k < |asked| :: n + asked[k] < |t|
  {
    [SocketService(selectError)] + Readbacks(t, n, asked)
  }

  /** What follows when the exit descriptor is quiet: API, sockets, timers. */
  function Serve(p: Plan, t: seq<PollFd>, asked: seq<nat>, fired: seq<nat>): seq<Event>
    requires GoodPlan(p) && |p.fixed| <= |t| && forall k | 0 <= k < |asked| :: |p.fixed| + asked[k] < |t|
  {
    (if IndexReady(t, p.apiIdx) then [ApiRequest] else [])
    + SocketEvents(t, |p.fixed|, SelectError(t), asked) + Callbacks(fired)
  }

  function OneRound(p: Plan, s: LoopState, r: Round): RoundResult
    requires GoodPlan(p) && |p.fixed| <= |s.table| && RoundOk(r)
  {
    var head := BeforePoll(p, s, r);
    if !r.polled then RoundResult(head, s, false, -1)
    else
      var t := PolledTable(p, s, r);
      var tap := if TapReady(t) then [TapRead] else [];
      if IndexReady(t, p.exitIdx) then RoundResult(head + tap + [ExitSeen], s, false, 0)
      else
        var sweep := SweepOf(s, r);
        RoundResult(head + tap + Serve(p, t, r.asked, sweep.fired), LoopState(t, sweep.deadlines), true, 0)
  }

  /** The loop over the rounds of a run, or of the part of it observed so far. */
  function Loop(p: Plan, s: LoopState, rounds: seq<Round>): seq<Event>
    requires GoodPlan(p) && |p.fixed| <= |s.table| && forall r | r in rounds :: RoundOk(r)
    decreases |rounds|
  {
    if rounds == [] then []
    else
      var one := OneRound(p, s, rounds[0]);
      one.events + if one.more then Loop(p, one.state, rounds[1..]) else [Returned(one.ret)]
  }

  function Disarmed(n: nat): seq<int> {
    seq(n, _ => DISARMED)
  }

  function Trace(cfg: Config, env: SetupEnv, rounds: seq<Round>): seq<Event>
    requires forall r | r in rounds :: RoundOk(r)
  {
    var setup := SetupSteps(cfg, env);
    var p := PlanFor(cfg, env);
    setup.events + if setup.ok then Loop(p, LoopState(p.fixed, Disarmed(cfg.timers)), rounds) else [Returned(-1)]
  }

  // ----- one round, imperatively -----

  method FillTable(table: PollTable, fill: seq<Registration>) returns (events: seq<Event>)
    modifies table
    ensures table.fds == old(table.fds) + Entries(fill)
    ensures events == Registrations(old(|table.fds|), fill)
  {
    events := [];
    ghost var before := table.fds;
    for i := 0 to |fill|
      invariant table.fds == before + Entries(fill[..i])
      invariant |events| == i
      invariant forall k | 0 <= k < i :: events[k] == Registered(|before| + k, fill[k].fd, fill[k].events)
    {
      var idx := table.AddPoll(fill[i].fd, fill[i].events);
      events := events + [Registered(idx, fill[i].fd, fill[i].events)];
      assert Entries(fill[..i + 1]) == Entries(fill[..i]) + [Entry(fill[i])];
    }
    assert fill[..|fill|] == fill;
  }

  /** slirp_pollfds_poll: libslirp is told whether select failed and asks for results as it likes. */
  method ServeSockets(table: PollTable, n: nat, selectError: bool, asked: seq<nat>) returns (events: seq<Event>)
    requires forall k | 0 <= k < |asked| :: n + asked[k] < |table.fds|
    ensures events == SocketEvents(table.fds, n, selectError, asked)
  {
    hide GioToPoll;
    var back := [];
    for i := 0 to |asked|
      invariant |back| == i
      invariant forall k | 0 <= k < i :: back[k] == Readbacks(table.fds, n, asked)[k]
    {
      var v := table.GetRevents(n + asked[i]);
      back := back + [Readback(n + asked[i], v)];
    }
    assert back == Readbacks(table.fds, n, asked);
    events := [SocketService(selectError)] + back;
  }

  method PrepareRound(p: Plan, table: PollTable, data: LibslirpData, r: Round) returns (events: seq<Event>)
    requires |p.fixed| <= |table.fds| && data.Valid() && RoundOk(r)
    modifies table
    ensures table.fds == old(table.fds)[..|p.fixed|] + Entries(r.fill)
    ensures events == BeforePoll(p, LoopState(old(table.fds), data.Deadlines()), r)
  {
    hide Polls;
    hide Registrations;
    hide Wait;
    table.SetSize(|p.fixed|);
    events := [RoundStart(table.fds)];
    var regs := FillTable(table, r.fill);
    var timeout := data.UpdateRaTimeout(r.slirpTimeout, r.ns);
    var polls := PollAgain(PollTimeout(timeout), r.interrupts);
    events := events + regs + polls;
  }

  method PollAgain(timeout: int, interrupts: nat) returns (events: seq<Event>)
    ensures events == Polls(timeout, interrupts)
  {
    var left := interrupts;
    events := [Polling(timeout)];
    while left > 0
      invariant 0 <= left <= interrupts
      invariant events == Polls(timeout, interrupts - left)
    {
      left := left - 1;
      events := events + [Polling(timeout)];
    }
  }

  method ServeRound(p: Plan, table: PollTable, data: LibslirpData, r: Round, pollout: int) returns (events: seq<Event>)
    requires GoodPlan(p) && |p.fixed| + |r.fill| == |table.fds| && data.Valid() && RoundOk(r)
    requires pollout <= 0 <==> SelectError(table.fds)
    modifies data.timers
    ensures var sweep := SweepOf(LoopState(table.fds, old(data.Deadlines())), r);
            events == Serve(p, table.fds, r.asked, sweep.fired) && data.Deadlines() == sweep.deadlines
  {
    hide Apply;
    hide SweepAll;
    hide SocketEvents;
    hide Callbacks;
    events := [];
    if p.apiIdx >= 0 && table.fds[p.apiIdx].revents != 0 {
      events := events + [ApiRequest];
    }
    var sockets := ServeSockets(table, |p.fixed|, pollout <= 0, r.asked);
    data.RunMods(r.mods);
    var fired := data.CheckRaTimeout(r.sweepNs, r.effects);
    events := events + sockets + Callbacks(fired);
  }

  method RunRound(p: Plan, table: PollTable, data: LibslirpData, r: Round)
    returns (events: seq<Event>, more: bool, ret: int)
    requires GoodPlan(p) && |p.fixed| <= |table.fds| && data.Valid() && RoundOk(r)
    modifies table, data.timers
    ensures var one := OneRound(p, LoopState(old(table.fds), old(data.Deadlines())), r);
            && events == one.events && more == one.more && ret == one.ret
            && (more ==> LoopState(table.fds, data.Deadlines()) == one.state)
  {
    hide Ready;
    hide Serve;
    hide BeforePoll;
    hide SweepOf;
    ghost var s := LoopState(table.fds, data.Deadlines());
    events := PrepareRound(p, table, data, r);
    if !r.polled {
      return events, false, -1;
    }
    var pollout: int := table.Poll(r.revents);
    assert table.fds == PolledTable(p, s, r);
    if table.fds[0].revents != 0 {
      events := events + [TapRead];
      pollout := -1;
    }
    if p.exitIdx >= 0 && table.fds[p.exitIdx].revents != 0 {
      return events + [ExitSeen], false, 0;
    }
    assert SweepOf(s, r) == SweepOf(LoopState(table.fds, s.deadlines), r) by { SweepIgnoresTable(s, table.fds, r); }
    var served := ServeRound(p, table, data, r, pollout);
    return events + served, true, 0;
  }

  lemma SweepIgnoresTable(s: LoopState, t: seq<PollFd>, r: Round)
    ensures SweepOf(s, r) == SweepOf(LoopState(t, s.deadlines), r)
  {
  }

  // ----- do_slirp -----

  method CreateTimers(data: LibslirpData, n: nat)
    requires data.Valid() && data.timers == []
    modifies data
    ensures data.Valid() && data.Deadlines() == Disarmed(n) && fresh(set t | t in data.timers)
  {
    for i := 0 to n
      invariant data.Valid() && data.Deadlines() == Disarmed(i) && fresh(set t | t in data.timers)
    {
      var t := data.TimerNew();
    }
  }

  /** The fixed part of the table. */
  method BuildTable(cfg: Config, env: SetupEnv, table: PollTable) returns (p: Plan)
    requires table.fds == []
    modifies table
    ensures p == PlanFor(cfg, env) && table.fds == p.fixed
  {
    var n, exitIdx, apiIdx := 1, -1, -1;
    table.Append(TapPollFd(cfg));
    if cfg.exitfd >= 0 {
      n := n + 1;
      table.Append(ExitPollFd(cfg));
      exitIdx := n - 1;
    }
    if cfg.api {
      n := n + 1;
      table.Append(ApiPollFd(env));
      apiIdx := n - 1;
    }
    p := Plan(table.fds, exitIdx, apiIdx);
  }

  /** The do-while loop around the write of the ready byte. */
  method WriteReady(interrupts: nat, written: bool) returns (events: seq<Event>)
    ensures events == if written then [ReadyByte, ReadyClosed] else [ReadyClosed]
  {
    var left, again := interrupts, true;
    events := [];
    while again
      invariant again ==> events == []
      invariant !again ==> events == if written then [ReadyByte] else []
      decreases again, left
    {
      if left > 0 {
        left := left - 1;
      } else {
        again := false;
        if written {
          events := events + [ReadyByte];
        }
      }
    }
    events := events + [ReadyClosed];
  }

  method RunSetup(cfg: Config, env: SetupEnv) returns (events: seq<Event>, ok: bool)
    ensures Setup(events, ok) == SetupSteps(cfg, env)
    ensures ok <==> SetupSucceeds(cfg, env)
  {
    events, ok := [], false;
    if !env.created || !env.bufOk {
      return;
    }
    if cfg.api {
      if env.apifd < 0 || !env.ctxAllocated {
        return;
      }
      events := events + [ApiListening];
    }
    assert events == EnabledSteps(cfg.api, false, false);
    if cfg.sandbox {
      if !env.sandboxed {
        return;
      }
      events := events + [Sandboxed];
    }
    assert events == EnabledSteps(cfg.api, cfg.sandbox, false);
    if cfg.seccomp {
      if !env.filtered {
        return;
      }
      events := events + [Filtered];
    }
    assert events == EnabledSteps(cfg.api, cfg.sandbox, cfg.seccomp);
    hide EnabledSteps;
    var ready := [];
    if cfg.readyfd >= 0 {
      ready := WriteReady(env.readyInterrupts, env.readyWritten);
    }
    events, ok := events + ready, true;
  }

  method RunLoop(p: Plan, table: PollTable, data: LibslirpData, rounds: seq<Round>) returns (trace: seq<Event>)
    requires GoodPlan(p) && |p.fixed| <= |table.fds| && data.Valid() && forall r | r in rounds :: RoundOk(r)
    modifies table, data.timers
    ensures trace == Loop(p, LoopState(old(table.fds), old(data.Deadlines())), rounds)
  {
    hide Loop;
    hide OneRound;
    ghost var all := Loop(p, LoopState(table.fds, data.Deadlines()), rounds);
    trace := [];
    var i := 0;
    assert rounds[0..] == rounds;
    while i < |rounds|
      invariant i <= |rounds| && |p.fixed| <= |table.fds|
      invariant all == trace + Loop(p, LoopState(table.fds, data.Deadlines()), rounds[i..])
    {
      LoopStep(p, LoopState(table.fds, data.Deadlines()), rounds[i..]);
      assert rounds[i..][0] == rounds[i] && rounds[i..][1..] == rounds[i + 1..];
      var events, more, ret := RunRound(p, table, data, rounds[i]);
      trace := trace + events;
      if !more {
        return trace + [Returned(ret)];
      }
      i := i + 1;
    }
    assert rounds[i..] == [];
    LoopEnd(p, LoopState(table.fds, data.Deadlines()));
    assert trace + [] == trace;
  }

  method DoSlirp(cfg: Config, env: SetupEnv, rounds: seq<Round>) returns (trace: seq<Event>)
    requires forall r | r in rounds :: RoundOk(r)
    ensures trace == Trace(cfg, env, rounds)
  {
    hide Loop;
    hide SetupSteps;
    hide PlanFor;
    var setup, ok := RunSetup(cfg, env);
    if !ok {
      return setup + [Returned(-1)];
    }
    var table := new PollTable();
    var data := new LibslirpData();
    CreateTimers(data, cfg.timers);
    var p := BuildTable(cfg, env, table);
    var loop := RunLoop(p, table, data, rounds);
    return setup + loop;
  }

  lemma LoopStep(p: Plan, s: LoopState, rounds: seq<Round>)
    requires GoodPlan(p) && |p.fixed| <= |s.table| && rounds != [] && forall r | r in rounds :: RoundOk(r)
    ensures var one := OneRound(p, s, rounds[0]);
            && |p.fixed| <= |one.state.table|
            && Loop(p, s, rounds)
            == one.events + if one.more then Loop(p, one.state, rounds[1..]) else [Returned(one.ret)]
  {
    hide BeforePoll;
    hide Serve;
    hide SweepOf;
  }

  lemma LoopEnd(p: Plan, s: LoopState)
    requires GoodPlan(p) && |p.fixed| <= |s.table|
    ensures Loop(p, s, []) == []
  {
  }
}
