/** What holds in every run of do_slirp: of the poll table, the ready byte, the exit descriptor and the
    timers. */
module EventLoopRuns {
  import opened Timers
  import opened EventLoop

  // ----- kinds of events -----

  predicate IsSetupEvent(e: Event) {
    e.ApiListening? || e.Sandboxed? || e.Filtered? || e.ReadyByte? || e.ReadyClosed?
  }

  lemma BeforePollEvents(p: Plan, s: LoopState, r: Round)
    requires |p.fixed| <= |s.table| && RoundOk(r)
    ensures forall e | e in BeforePoll(p, s, r) :: e.RoundStart? || e.Registered? || e.Polling?
    ensures forall e | e in BeforePoll(p, s, r) && e.RoundStart? :: e.table == s.table[..|p.fixed|]
  {
    hide Wait;
  }

  lemma ServeEvents(p: Plan, t: seq<PollFd>, asked: seq<nat>, fired: seq<nat>)
    requires GoodPlan(p) && |p.fixed| <= |t| && forall k | 0 <= k < |asked| :: |p.fixed| + asked[k] < |t|
    ensures forall e | e in Serve(p, t, asked, fired) ::
              e.ApiRequest? || e.SocketService? || e.Readback? || e.TimerCallback?
  {
    hide Ready;
  }

  /** Events of one round: never those of the setup; ExitSeen only at the end of the last round; and its
      RoundStart shows the truncated table. */
  lemma RoundEvents(p: Plan, s: LoopState, r: Round)
    requires GoodPlan(p) && |p.fixed| <= |s.table| && RoundOk(r)
    ensures var one := OneRound(p, s, r);
            && (forall e | e in one.events :: !IsSetupEvent(e) && !e.Returned?)
            && (forall e | e in one.events && e.RoundStart? :: e.table == s.table[..|p.fixed|])
            && (one.more ==> ExitSeen !in one.events)
            && (!one.more ==> |one.events| > 0 && ExitSeen !in one.events[..|one.events| - 1]
                              && one.ret == if one.events[|one.events| - 1] == ExitSeen then 0 else -1)
  {
    hide BeforePoll;
    hide Serve;
    hide SweepOf;
    hide PolledTable;
    BeforePollEvents(p, s, r);
    NonEmptyHead(p, s, r);
    var one, head := OneRound(p, s, r), BeforePoll(p, s, r);
    if r.polled {
      var t := PolledTable(p, s, r);
      ServeEvents(p, t, r.asked, SweepOf(s, r).fired);
      if !one.more {
        var before := head + if TapReady(t) then [TapRead] else [];
        assert one.events == before + [ExitSeen];
        assert one.events[..|one.events| - 1] == before;
      }
    } else {
      assert one.events == head && ExitSeen !in head;
      assert forall e | e in head[..|head| - 1] :: e in head;
      assert head[|head| - 1] in head;
    }
  }

  lemma NonEmptyHead(p: Plan, s: LoopState, r: Round)
    requires |p.fixed| <= |s.table| && RoundOk(r)
    ensures |BeforePoll(p, s, r)| > 0
  {
  }

  /** The round is not the last one: poll succeeded and the exit descriptor is quiet. */
  predicate GoesOn(p: Plan, r: Round) {
    r.polled && (p.exitIdx < 0 || r.revents(p.exitIdx) == 0)
  }

  /** A round goes on to the next exactly when it is not the last one, and these are its events then. */
  lemma RoundShape(p: Plan, s: LoopState, r: Round)
    requires GoodPlan(p) && |p.fixed| <= |s.table| && RoundOk(r)
    ensures OneRound(p, s, r).more <==> GoesOn(p, r)
    ensures GoesOn(p, r) ==>
              OneRound(p, s, r).events
              == BeforePoll(p, s, r) + (if r.revents(0) != 0 then [TapRead] else [])
               + Serve(p, PolledTable(p, s, r), r.asked, SweepOf(s, r).fired)
  {
    hide BeforePoll;
    hide Serve;
    hide SweepOf;
  }

  // ----- the poll table -----

  lemma RoundKeepsPrefix(p: Plan, s: LoopState, r: Round)
    requires GoodPlan(p) && |p.fixed| <= |s.table| && RoundOk(r) && SameRequests(s.table[..|p.fixed|], p.fixed)
    ensures var one := OneRound(p, s, r);
            one.more ==> |p.fixed| <= |one.state.table| && SameRequests(one.state.table[..|p.fixed|], p.fixed)
  {
    hide BeforePoll;
    hide Serve;
    hide SweepOf;
  }

  lemma {:induction false} LoopStartsFixed(p: Plan, s: LoopState, rounds: seq<Round>)
    requires GoodPlan(p) && |p.fixed| <= |s.table| && forall r | r in rounds :: RoundOk(r)
    requires SameRequests(s.table[..|p.fixed|], p.fixed)
    ensures forall e | e in Loop(p, s, rounds) && e.RoundStart? :: SameRequests(e.table, p.fixed)
    decreases |rounds|
  {
    if rounds != [] {
      var one := OneRound(p, s, rounds[0]);
      RoundEvents(p, s, rounds[0]);
      RoundKeepsPrefix(p, s, rounds[0]);
      LoopStep(p, s, rounds);
      hide OneRound;
      hide Loop;
      hide SameRequests;
      if one.more {
        LoopStartsFixed(p, one.state, rounds[1..]);
      }
    }
  }

  /** Every round of every run starts from exactly the fixed prefix, whatever earlier rounds appended. */
  lemma RoundsStartFromFixedPrefix(cfg: Config, env: SetupEnv, rounds: seq<Round>)
    requires forall r | r in rounds :: RoundOk(r)
    ensures forall e | e in Trace(cfg, env, rounds) && e.RoundStart? :: SameRequests(e.table, PlanFor(cfg, env).fixed)
  {
    hide Loop;
    hide PlanFor;
    var p := PlanFor(cfg, env);
    SetupOnly(cfg, env);
    assert p.fixed[..|p.fixed|] == p.fixed;
    LoopStartsFixed(p, LoopState(p.fixed, Disarmed(cfg.timers)), rounds);
  }

  /** Tap, exit, API and libslirp indices are pairwise distinct and in bounds, and each libslirp index holds
      the descriptor that was registered there, with the events it asked for and its own poll result. */
  lemma RoundIndices(p: Plan, s: LoopState, r: Round, k: nat)
    requires GoodPlan(p) && |p.fixed| <= |s.table| && RoundOk(r) && k < |r.fill|
    ensures var t, idx := PolledTable(p, s, r), |p.fixed| + k;
            && idx < |t| && idx != 0 && idx != p.exitIdx && idx != p.apiIdx
            && t[idx].fd == r.fill[k].fd && t[idx].revents == r.revents(idx)
            && SameFlags(r.fill[k].events, t[idx].events) && SetsOnly(t[idx].events, G_FLAGS)
            && Registered(idx, r.fill[k].fd, r.fill[k].events) in OneRound(p, s, r).events
  {
    hide SweepOf;
    hide Wait;
    hide PollToGio;
    hide Serve;
    hide SameFlags;
    hide SetsOnly;
    MasksKeepFlags(r.fill[k].events);
    assert Registrations(|p.fixed|, r.fill)[k] == Registered(|p.fixed| + k, r.fill[k].fd, r.fill[k].events);
    assert Registered(|p.fixed| + k, r.fill[k].fd, r.fill[k].events) in BeforePoll(p, s, r);
  }

  lemma {:induction false} ReadyMeaning(t: seq<PollFd>)
    ensures Ready(t) > 0 <==> exists k :: 0 <= k < |t| && t[k].revents != 0
  {
    if t != [] {
      var front := t[..|t| - 1];
      ReadyMeaning(front);
      assert forall k | 0 <= k < |front| :: front[k] == t[k];
    }
  }

  /** The tap is quiet and some other polled descriptor is not. */
  ghost predicate OnlyOthersReady(p: Plan, r: Round) {
    r.revents(0) == 0 && exists k :: 0 <= k < |p.fixed| + |r.fill| && r.revents(k) != 0
  }

  lemma SelectErrorMeaning(p: Plan, s: LoopState, r: Round)
    requires GoodPlan(p) && |p.fixed| <= |s.table|
    ensures SelectError(PolledTable(p, s, r)) <==> !OnlyOthersReady(p, r)
  {
    hide Ready;
    var t := PolledTable(p, s, r);
    ReadyMeaning(t);
    assert forall k | 0 <= k < |t| :: t[k].revents == r.revents(k);
  }

  lemma ServedReadbacks(p: Plan, t: seq<PollFd>, asked: seq<nat>, fired: seq<nat>)
    requires GoodPlan(p) && |p.fixed| <= |t| && forall k | 0 <= k < |asked| :: |p.fixed| + asked[k] < |t|
    ensures forall e: Event :: e.Readback? ==> (e in Serve(p, t, asked, fired) <==> e in Readbacks(t, |p.fixed|, asked))
  {
    hide SelectError;
    hide Readbacks;
    assert forall e | e in Callbacks(fired) :: e.TimerCallback?;
  }

  /** Whatever libslirp asks for, in whatever order and how often, each answer it gets in a round is for one
      of its own registrations, and is the poll result of the descriptor registered there on the five
      known flags; and everything it asks for is answered. */
  lemma RoundReadbacks(p: Plan, s: LoopState, r: Round)
    requires GoodPlan(p) && |p.fixed| <= |s.table| && RoundOk(r) && GoesOn(p, r)
    ensures forall e | e in OneRound(p, s, r).events && e.Readback? :: AnswersSomeRead(p, r, e)
    ensures forall k | 0 <= k < |r.asked| :: IsAnswered(p, r, OneRound(p, s, r).events, r.asked[k])
  {
    hide SweepOf;
    hide BeforePoll;
    hide Serve;
    hide OneRound;
    hide AnswersRead;
    var t := PolledTable(p, s, r);
    RoundShape(p, s, r);
    BeforePollEvents(p, s, r);
    ServedReadbacks(p, t, r.asked, SweepOf(s, r).fired);
    var back := Readbacks(t, |p.fixed|, r.asked);
    forall k | 0 <= k < |r.asked| ensures AnswersRead(p, r, back[k], r.asked[k]) {
      ReadbackAnswers(p, s, r, k);
    }
    hide Readbacks;
    forall e | e in OneRound(p, s, r).events && e.Readback?
      ensures AnswersSomeRead(p, r, e)
    {
      assert e in back;
      var k :| 0 <= k < |back| && back[k] == e;
      assert AnswersRead(p, r, e, r.asked[k]);
    }
    forall k | 0 <= k < |r.asked| ensures IsAnswered(p, r, OneRound(p, s, r).events, r.asked[k]) {
      assert back[k] in back && back[k].Readback?;
      assert AnswersRead(p, r, back[k], r.asked[k]);
    }
  }

  /** The event answers something libslirp asked for. */
  ghost predicate AnswersSomeRead(p: Plan, r: Round, e: Event) {
    exists k :: 0 <= k < |r.asked| && AnswersRead(p, r, e, r.asked[k])
  }

  /** Some event answers a read of registration `k`. */
  ghost predicate IsAnswered(p: Plan, r: Round, events: seq<Event>, k: nat) {
    exists e | e in events :: AnswersRead(p, r, e, k)
  }

  /** The event answers a read of registration `k`: its index, and flag by flag its poll result. */
  predicate AnswersRead(p: Plan, r: Round, e: Event, k: nat) {
    && e.Readback? && k < |r.fill| && e.idx == |p.fixed| + k
    && SameFlags(e.revents, r.revents(|p.fixed| + k)) && SetsOnly(e.revents, SLIRP_FLAGS)
  }

  lemma ReadbackAnswers(p: Plan, s: LoopState, r: Round, k: nat)
    requires GoodPlan(p) && |p.fixed| <= |s.table| && RoundOk(r) && k < |r.asked|
    ensures AnswersRead(p, r, Readbacks(PolledTable(p, s, r), |p.fixed|, r.asked)[k], r.asked[k])
  {
    hide SameFlags;
    hide SetsOnly;
    hide GioToPoll;
    hide PollToGio;
    MasksKeepFlags(r.revents(|p.fixed| + r.asked[k]));
  }

  // ----- what a round serves -----

  /** The timers called back, in order. */
  function CalledBack(events: seq<Event>): seq<nat> {
    if events == [] then []
    else
      var e := events[|events| - 1];
      CalledBack(events[..|events| - 1]) + if e.TimerCallback? then [e.timer] else []
  }

  /** What libslirp is told each time its sockets are served. */
  function Services(events: seq<Event>): seq<bool> {
    if events == [] then []
    else
      var e := events[|events| - 1];
      Services(events[..|events| - 1]) + if e.SocketService? then [e.selectError] else []
  }

  lemma {:induction false} ServicesConcat(a: seq<Event>, b: seq<Event>)
    ensures Services(a + b) == Services(a) + Services(b)
    ensures CalledBack(a + b) == CalledBack(a) + CalledBack(b)
    decreases |b|
  {
    if b == [] {
      assert a + b == a;
    } else {
      assert (a + b)[..|a + b| - 1] == a + b[..|b| - 1];
      ServicesConcat(a, b[..|b| - 1]);
    }
  }

  lemma {:induction false} NoServices(a: seq<Event>)
    requires forall e | e in a :: !e.SocketService? && !e.TimerCallback?
    ensures Services(a) == [] && CalledBack(a) == []
  {
    if a != [] {
      assert a[|a| - 1] in a && forall e | e in a[..|a| - 1] :: e in a;
      NoServices(a[..|a| - 1]);
    }
  }

  lemma {:induction false} CallbacksOnly(fired: seq<nat>)
    ensures Services(Callbacks(fired)) == [] && CalledBack(Callbacks(fired)) == fired
    ensures forall e | e in Callbacks(fired) :: e.TimerCallback?
  {
    if fired == [] {
      assert Callbacks(fired) == [];
    } else {
      var front, last := fired[..|fired| - 1], fired[|fired| - 1];
      CallbacksOnly(front);
      assert Callbacks(fired)[..|fired| - 1] == Callbacks(front);
      assert fired == front + [last];
    }
  }

  lemma ServedInOrder(p: Plan, t: seq<PollFd>, asked: seq<nat>, fired: seq<nat>)
    requires GoodPlan(p) && |p.fixed| <= |t| && forall k | 0 <= k < |asked| :: |p.fixed| + asked[k] < |t|
    ensures Services(Serve(p, t, asked, fired)) == [SelectError(t)]
    ensures CalledBack(Serve(p, t, asked, fired)) == fired
    ensures ApiRequest in Serve(p, t, asked, fired) <==> IndexReady(t, p.apiIdx)
    ensures TapRead !in Serve(p, t, asked, fired)
  {
    hide SelectError;
    hide SocketEvents;
    hide Callbacks;
    hide Services;
    hide CalledBack;
    var api := if IndexReady(t, p.apiIdx) then [ApiRequest] else [];
    var sockets, calls := SocketEvents(t, |p.fixed|, SelectError(t), asked), Callbacks(fired);
    NoServices(api);
    SocketsServed(t, |p.fixed|, SelectError(t), asked);
    CallbacksOnly(fired);
    ServicesConcat(api, sockets);
    ServicesConcat(api + sockets, calls);
  }

  lemma SocketsServed(t: seq<PollFd>, n: nat, selectError: bool, asked: seq<nat>)
    requires forall k | 0 <= k < |asked| :: n + asked[k] < |t|
    ensures var events := SocketEvents(t, n, selectError, asked);
            && Services(events) == [selectError] && CalledBack(events) == []
            && forall e | e in events :: e.SocketService? || e.Readback?
  {
    hide GioToPoll;
    var told, back := [SocketService(selectError)], Readbacks(t, n, asked);
    assert forall e | e in back :: e.Readback?;
    hide Readbacks;
    NoServices(back);
    ToldOnce(selectError);
    hide Services;
    hide CalledBack;
    ServicesConcat(told, back);
  }

  lemma ToldOnce(selectError: bool)
    ensures Services([SocketService(selectError)]) == [selectError] && CalledBack([SocketService(selectError)]) == []
  {
    assert [SocketService(selectError)][..0] == [];
  }

  /** A round reads the tap, and takes an API request, exactly when poll reports that descriptor; it serves
      libslirp's sockets exactly once, telling it of a select error unless only others than the tap are
      ready; and it calls back exactly the timers that the sweep fires, once each and in that order. */
  lemma RoundServes(p: Plan, s: LoopState, r: Round)
    requires GoodPlan(p) && |p.fixed| <= |s.table| && RoundOk(r) && GoesOn(p, r)
    ensures var events := OneRound(p, s, r).events;
            && (TapRead in events <==> r.revents(0) != 0)
            && (ApiRequest in events <==> p.apiIdx >= 0 && r.revents(p.apiIdx) != 0)
            && Services(events) == [!OnlyOthersReady(p, r)]
            && CalledBack(events) == SweepOf(s, r).fired
  {
    hide SweepOf;
    hide BeforePoll;
    hide Serve;
    hide SelectError;
    hide OnlyOthersReady;
    hide OneRound;
    hide Services;
    hide CalledBack;
    var t, fired := PolledTable(p, s, r), SweepOf(s, r).fired;
    var head, tap := BeforePoll(p, s, r), if r.revents(0) != 0 then [TapRead] else [];
    RoundShape(p, s, r);
    BeforePollEvents(p, s, r);
    SelectErrorMeaning(p, s, r);
    ServedInOrder(p, t, r.asked, fired);
    NoServices(head);
    NoServices(tap);
    ServicesConcat(head, tap);
    ServicesConcat(head + tap, Serve(p, t, r.asked, fired));
  }

  // ----- the order within a round -----

  function Phase(e: Event): nat {
    match e
    case RoundStart(_) => 0
    case Registered(_, _, _) => 1
    case Polling(_) => 2
    case TapRead => 3
    case ExitSeen => 4
    case ApiRequest => 5
    case SocketService(_) => 6
    case Readback(_, _) => 7
    case TimerCallback(_) => 8
    case _ => 9
  }

  /** What can happen more than once in a round. */
  predicate Repeats(e: Event) {
    e.Registered? || e.Polling? || e.Readback? || e.TimerCallback?
  }

  /** In the order of the phases, from `lo` up to but not including `hi`. */
  predicate InPhases(t: seq<Event>, lo: nat, hi: nat) {
    && (forall e | e in t :: lo <= Phase(e) < hi)
    && forall i, j | 0 <= i < j < |t| :: Phase(t[i]) < Phase(t[j]) || (Phase(t[i]) == Phase(t[j]) && Repeats(t[i]))
  }

  lemma PhasesConcat(a: seq<Event>, b: seq<Event>, lo: nat, mid: nat, hi: nat)
    requires lo <= mid <= hi && InPhases(a, lo, mid) && InPhases(b, mid, hi)
    ensures InPhases(a + b, lo, hi)
  {
    hide Phase;
    hide Repeats;
    var t := a + b;
    forall i, j | 0 <= i < j < |t|
      ensures Phase(t[i]) < Phase(t[j]) || (Phase(t[i]) == Phase(t[j]) && Repeats(t[i]))
    {
      if i < |a| {
        assert t[i] == a[i] && a[i] in a;
        if j >= |a| {
          assert t[j] == b[j - |a|] && b[j - |a|] in b;
        }
      } else {
        assert t[i] == b[i - |a|] && t[j] == b[j - |a|];
      }
    }
  }

  lemma HeadInPhases(p: Plan, s: LoopState, r: Round)
    requires |p.fixed| <= |s.table| && RoundOk(r)
    ensures InPhases(BeforePoll(p, s, r), 0, 3)
  {
    hide Wait;
    var start, regs := [RoundStart(s.table[..|p.fixed|])], Registrations(|p.fixed|, r.fill);
    var polls := Polls(PollTimeout(Wait(r.slirpTimeout, s.deadlines, NowMsec(r.ns))), r.interrupts);
    PhasesConcat(start, regs, 0, 1, 2);
    PhasesConcat(start + regs, polls, 0, 2, 3);
  }

  lemma SocketsInPhases(t: seq<PollFd>, n: nat, selectError: bool, asked: seq<nat>)
    requires forall k | 0 <= k < |asked| :: n + asked[k] < |t|
    ensures InPhases(SocketEvents(t, n, selectError, asked), 6, 8)
  {
    hide GioToPoll;
    PhasesConcat([SocketService(selectError)], Readbacks(t, n, asked), 6, 7, 8);
  }

  lemma CallbacksInPhases(fired: seq<nat>)
    ensures InPhases(Callbacks(fired), 8, 9)
  {
  }

  lemma ServeInPhases(p: Plan, t: seq<PollFd>, asked: seq<nat>, fired: seq<nat>)
    requires GoodPlan(p) && |p.fixed| <= |t| && forall k | 0 <= k < |asked| :: |p.fixed| + asked[k] < |t|
    ensures InPhases(Serve(p, t, asked, fired), 5, 9)
  {
    var api := if IndexReady(t, p.apiIdx) then [ApiRequest] else [];
    assert InPhases(api, 5, 6);
    hide InPhases;
    hide SelectError;
    hide SocketEvents;
    hide Callbacks;
    var sockets := SocketEvents(t, |p.fixed|, SelectError(t), asked);
    SocketsInPhases(t, |p.fixed|, SelectError(t), asked);
    CallbacksInPhases(fired);
    PhasesConcat(api, sockets, 5, 6, 8);
    PhasesConcat(api + sockets, Callbacks(fired), 5, 8, 9);
  }

  /** The order of a round: the table is truncated, libslirp registers its descriptors, poll, then the tap,
      the exit descriptor, the API socket, libslirp's sockets with its questions, and last the timers. Only
      registrations, interrupted polls, questions and callbacks are repeated. */
  lemma RoundInOrder(p: Plan, s: LoopState, r: Round)
    requires GoodPlan(p) && |p.fixed| <= |s.table| && RoundOk(r)
    ensures InPhases(OneRound(p, s, r).events, 0, 9)
  {
    hide BeforePoll;
    hide Serve;
    hide SweepOf;
    hide PolledTable;
    var head := BeforePoll(p, s, r);
    HeadInPhases(p, s, r);
    if r.polled {
      var t := PolledTable(p, s, r);
      var tap := if TapReady(t) then [TapRead] else [];
      PhasesConcat(head, tap, 0, 3, 4);
      PhasesConcat(head + tap, [ExitSeen], 0, 4, 5);
      ServeInPhases(p, t, r.asked, SweepOf(s, r).fired);
      PhasesConcat(head + tap, Serve(p, t, r.asked, SweepOf(s, r).fired), 0, 5, 9);
    }
  }

  lemma {:induction false} CalledBackIsIn(events: seq<Event>, j: nat)
    ensures j in CalledBack(events) <==> TimerCallback(j) in events
    decreases |events|
  {
    if events != [] {
      var front := events[..|events| - 1];
      assert events == front + [events[|events| - 1]];
      CalledBackIsIn(front, j);
    }
  }

  // ----- the setup -----

  lemma SetupOnly(cfg: Config, env: SetupEnv)
    ensures forall e | e in SetupSteps(cfg, env).events :: IsSetupEvent(e)
  {
  }

  lemma {:induction false} LoopHasNoSetup(p: Plan, s: LoopState, rounds: seq<Round>)
    requires GoodPlan(p) && |p.fixed| <= |s.table| && forall r | r in rounds :: RoundOk(r)
    ensures forall e | e in Loop(p, s, rounds) :: !IsSetupEvent(e)
    decreases |rounds|
  {
    if rounds != [] {
      RoundEvents(p, s, rounds[0]);
      LoopStep(p, s, rounds);
      hide OneRound;
      var one := OneRound(p, s, rounds[0]);
      if one.more {
        LoopHasNoSetup(p, one.state, rounds[1..]);
      }
    }
  }

  lemma StepsEnabled(api: bool, sandbox: bool, seccomp: bool)
    ensures var steps := EnabledSteps(api, sandbox, seccomp);
            ReadyByte !in steps && ReadyClosed !in steps && (api <==> ApiListening in steps)
            && (sandbox <==> Sandboxed in steps) && (seccomp <==> Filtered in steps)
  {
  }

  /** Each setup event is in the run exactly when its own call is made and succeeds, and calls are made only
      while those before them succeed. */
  predicate SetupAnswered(cfg: Config, env: SetupEnv, t: seq<Event>) {
    && (ApiListening in t <==> cfg.api && ApiReady(cfg, env))
    && (Sandboxed in t <==> cfg.sandbox && ApiReady(cfg, env) && env.sandboxed)
    && (Filtered in t <==> cfg.seccomp && SetupSucceeds(cfg, env))
    && (ReadyByte in t <==> cfg.readyfd >= 0 && env.readyWritten && SetupSucceeds(cfg, env))
    && (ReadyClosed in t <==> cfg.readyfd >= 0 && SetupSucceeds(cfg, env))
  }

  lemma SetupAnswers(cfg: Config, env: SetupEnv)
    ensures SetupSteps(cfg, env).ok <==> SetupSucceeds(cfg, env)
    ensures SetupAnswered(cfg, env, SetupSteps(cfg, env).events)
  {
    StepsEnabled(cfg.api, false, false);
    StepsEnabled(cfg.api, cfg.sandbox, false);
    StepsEnabled(cfg.api, cfg.sandbox, cfg.seccomp);
    hide EnabledSteps;
  }

  lemma LoopStarts(p: Plan, s: LoopState, rounds: seq<Round>)
    requires GoodPlan(p) && |p.fixed| <= |s.table| && (forall r | r in rounds :: RoundOk(r)) && rounds != []
    ensures exists e :: e in Loop(p, s, rounds) && e.Polling?
  {
    hide Wait;
    hide BeforePoll;
    hide PolledTable;
    hide Serve;
    hide SweepOf;
    var r := rounds[0];
    PollsWaitForTimers(p, s, r);
    LoopStep(p, s, rounds);
    hide Loop;
    var e :| e in BeforePoll(p, s, r) && e.Polling?;
    assert e in OneRound(p, s, r).events;
    assert e in Loop(p, s, rounds);
  }

  /** The setup decides the run. Each of its steps is taken exactly when its call succeeds. When all calls
      that the configuration makes succeed the run goes on to poll; when one fails nothing is polled, the
      ready byte is not written, and do_slirp returns -1. */
  lemma SetupDecidesRun(cfg: Config, env: SetupEnv, rounds: seq<Round>)
    requires forall r | r in rounds :: RoundOk(r)
    ensures SetupAnswered(cfg, env, Trace(cfg, env, rounds))
    ensures var t := Trace(cfg, env, rounds);
            if SetupSucceeds(cfg, env) then rounds != [] ==> exists e :: e in t && e.Polling?
            else
              && |t| > 0 && t[|t| - 1] == Returned(-1)
              && forall e | e in t :: !e.ReadyByte? && !e.RoundStart? && !e.Polling?
  {
    hide Loop;
    hide SetupSteps;
    hide PlanFor;
    hide ApiReady;
    hide SetupSucceeds;
    var p, setup := PlanFor(cfg, env), SetupSteps(cfg, env);
    var s := LoopState(p.fixed, Disarmed(cfg.timers));
    SetupOnly(cfg, env);
    SetupAnswers(cfg, env);
    LoopHasNoSetup(p, s, rounds);
    if rounds != [] {
      LoopStarts(p, s, rounds);
    }
    var rest := if setup.ok then Loop(p, s, rounds) else [Returned(-1)];
    assert Trace(cfg, env, rounds) == setup.events + rest;
    assert forall e | e in rest :: !IsSetupEvent(e);
  }

  /** The order of the setup. */
  function Stage(e: Event): nat
    requires IsSetupEvent(e)
  {
    match e
    case ApiListening => 0
    case Sandboxed => 1
    case Filtered => 2
    case ReadyByte => 3
    case ReadyClosed => 4
  }

  /** Setup events come first, in their order and once each. */
  predicate InSetupOrder(t: seq<Event>) {
    forall i, j | 0 <= i < j < |t| && IsSetupEvent(t[j]) :: IsSetupEvent(t[i]) && Stage(t[i]) < Stage(t[j])
  }

  lemma OrderConcat(a: seq<Event>, b: seq<Event>)
    requires InSetupOrder(a) && InSetupOrder(b) && forall x | x in a :: IsSetupEvent(x)
    requires forall x, y | x in a && y in b && IsSetupEvent(y) :: Stage(x) < Stage(y)
    ensures InSetupOrder(a + b)
  {
    hide IsSetupEvent;
    hide Stage;
    var t := a + b;
    forall i, j | 0 <= i < j < |t| && IsSetupEvent(t[j]) ensures IsSetupEvent(t[i]) && Stage(t[i]) < Stage(t[j]) {
      if i < |a| {
        assert t[i] in a;
        if j >= |a| {
          assert t[j] in b;
        }
      } else {
        assert t[i] == b[i - |a|] && t[j] == b[j - |a|];
      }
    }
  }

  lemma EnabledInOrder(api: bool, sandbox: bool, seccomp: bool)
    ensures InSetupOrder(EnabledSteps(api, sandbox, seccomp))
    ensures forall e | e in EnabledSteps(api, sandbox, seccomp) :: IsSetupEvent(e) && Stage(e) < 3
  {
    var a, b := if api then [ApiListening] else [], if sandbox then [Sandboxed] else [];
    var c := if seccomp then [Filtered] else [];
    OrderConcat(a, b);
    OrderConcat(a + b, c);
  }

  lemma SetupStepsInOrder(cfg: Config, env: SetupEnv)
    ensures InSetupOrder(SetupSteps(cfg, env).events)
  {
    EnabledInOrder(cfg.api, false, false);
    EnabledInOrder(cfg.api, cfg.sandbox, false);
    EnabledInOrder(cfg.api, cfg.sandbox, cfg.seccomp);
    hide EnabledSteps;
    OrderConcat(EnabledSteps(cfg.api, cfg.sandbox, cfg.seccomp), ReadySteps(cfg, env));
  }

  /** In every run the setup events come before everything else, in the order API socket, sandbox, filter,
      ready byte, closing of the ready descriptor, and each at most once. */
  lemma SetupInOrder(cfg: Config, env: SetupEnv, rounds: seq<Round>)
    requires forall r | r in rounds :: RoundOk(r)
    ensures InSetupOrder(Trace(cfg, env, rounds))
  {
    hide Loop;
    hide SetupSteps;
    hide PlanFor;
    hide Stage;
    var p, setup := PlanFor(cfg, env), SetupSteps(cfg, env);
    var s := LoopState(p.fixed, Disarmed(cfg.timers));
    SetupStepsInOrder(cfg, env);
    LoopHasNoSetup(p, s, rounds);
    var rest := if setup.ok then Loop(p, s, rounds) else [Returned(-1)];
    assert forall i | 0 <= i < |rest| :: rest[i] in rest;
    SetupOnly(cfg, env);
    OrderConcat(setup.events, rest);
  }

  // ----- the ready byte -----

  /** The enabled setup steps have succeeded by the time of these events. */
  predicate SetupDone(cfg: Config, events: seq<Event>) {
    && (cfg.api ==> ApiListening in events)
    && (cfg.sandbox ==> Sandboxed in events)
    && (cfg.seccomp ==> Filtered in events)
  }

  lemma EarlierStage(t: seq<Event>, i: nat, e: Event)
    requires InSetupOrder(t) && i < |t| && IsSetupEvent(t[i]) && IsSetupEvent(e) && e in t && Stage(e) < Stage(t[i])
    ensures e in t[..i]
  {
    var j :| 0 <= j < |t| && t[j] == e;
    assert j < i;
    assert t[..i][j] == e;
  }

  /** In every run the ready byte is written at most once, only when a ready descriptor was given and every
      setup call that the configuration makes has succeeded, after every enabled setup step and before
      the first poll. */
  lemma ReadyByteOnce(cfg: Config, env: SetupEnv, rounds: seq<Round>, i: nat)
    requires (forall r | r in rounds :: RoundOk(r)) && i < |Trace(cfg, env, rounds)|
    ensures var t := Trace(cfg, env, rounds);
            t[i] == ReadyByte ==>
              && cfg.readyfd >= 0 && SetupSucceeds(cfg, env) && SetupDone(cfg, t[..i])
              && ReadyByte !in t[..i] && ReadyByte !in t[i + 1..]
              && forall e | e in t[..i] :: !e.Polling? && !e.RoundStart?
  {
    hide Trace;
    var t := Trace(cfg, env, rounds);
    SetupDecidesRun(cfg, env, rounds);
    SetupInOrder(cfg, env, rounds);
    if t[i] == ReadyByte {
      assert t[i] in t;
      if cfg.api { EarlierStage(t, i, ApiListening); }
      if cfg.sandbox { EarlierStage(t, i, Sandboxed); }
      if cfg.seccomp { EarlierStage(t, i, Filtered); }
    }
  }

  // ----- the end of a run -----

  predicate IsEnd(e: Event) {
    e.ExitSeen? || e.Returned?
  }

  /** From `n` on the trace is over: an exit event and a return of 0, or a return of -1, or nothing, if the
      run is still going on. */
  predicate EndsAt(t: seq<Event>, n: nat) {
    && n <= |t| && (forall k | 0 <= k < n :: !IsEnd(t[k]))
    && (t[n..] == [ExitSeen, Returned(0)] || t[n..] == [Returned(-1)] || t[n..] == [])
  }

  ghost predicate ExitEnds(t: seq<Event>) {
    exists n: nat :: EndsAt(t, n)
  }

  lemma ExitEndsConcat(a: seq<Event>, b: seq<Event>)
    requires ExitEnds(b) && forall e | e in a :: !IsEnd(e)
    ensures ExitEnds(a + b)
  {
    var n: nat :| EndsAt(b, n);
    assert (a + b)[|a| + n..] == b[n..];
    assert EndsAt(a + b, |a| + n) by {
      assert forall k | 0 <= k < |a| :: (a + b)[k] == a[k] && a[k] in a;
    }
  }

  lemma LastRoundEnds(events: seq<Event>, ret: int)
    requires |events| > 0 && forall e | e in events :: !e.Returned?
    requires ExitSeen !in events[..|events| - 1] && ret == if events[|events| - 1] == ExitSeen then 0 else -1
    ensures ExitEnds(events + [Returned(ret)])
  {
    var n, t := |events| - 1, events + [Returned(ret)];
    assert forall k | 0 <= k < n :: events[k] in events && events[..n][k] in events[..n];
    if events[n] == ExitSeen {
      assert t[n..] == [ExitSeen, Returned(0)];
      assert EndsAt(t, n);
    } else {
      assert events[n] in events;
      assert t[n + 1..] == [Returned(-1)];
      assert EndsAt(t, n + 1);
    }
  }

  lemma {:induction false} LoopExitEnds(p: Plan, s: LoopState, rounds: seq<Round>)
    requires GoodPlan(p) && |p.fixed| <= |s.table| && forall r | r in rounds :: RoundOk(r)
    ensures ExitEnds(Loop(p, s, rounds))
    decreases |rounds|
  {
    if rounds == [] {
      assert EndsAt([], 0);
    } else {
      var one := OneRound(p, s, rounds[0]);
      RoundEvents(p, s, rounds[0]);
      LoopStep(p, s, rounds);
      hide OneRound;
      hide ExitEnds;
      if one.more {
        LoopExitEnds(p, one.state, rounds[1..]);
        ExitEndsConcat(one.events, Loop(p, one.state, rounds[1..]));
      } else {
        LastRoundEnds(one.events, one.ret);
      }
    }
  }

  /** Once the exit descriptor has an event the run is over: no API request, socket service, timer
      callback or further poll follows, and do_slirp returns 0. Every other return is of -1. */
  lemma NothingAfterExit(cfg: Config, env: SetupEnv, rounds: seq<Round>)
    requires forall r | r in rounds :: RoundOk(r)
    ensures ExitEnds(Trace(cfg, env, rounds))
  {
    hide Loop;
    hide SetupSteps;
    hide PlanFor;
    var p := PlanFor(cfg, env);
    var s := LoopState(p.fixed, Disarmed(cfg.timers));
    SetupOnly(cfg, env);
    LoopExitEnds(p, s, rounds);
    assert EndsAt([Returned(-1)], 0);
    ExitEndsConcat(SetupSteps(cfg, env).events,
                   if SetupSteps(cfg, env).ok then Loop(p, s, rounds) else [Returned(-1)]);
  }

  /** A failed poll ends the run in that round too: nothing is read or served, and the result is -1. */
  lemma PollFailureEndsRound(p: Plan, s: LoopState, r: Round)
    requires GoodPlan(p) && |p.fixed| <= |s.table| && RoundOk(r) && !r.polled
    ensures var one := OneRound(p, s, r);
            && !one.more && one.ret == -1
            && forall e | e in one.events :: e.RoundStart? || e.Registered? || e.Polling?
  {
    BeforePollEvents(p, s, r);
    hide BeforePoll;
  }

  /** An event on the exit descriptor does end the run in the round that polls it, before any service. */
  lemma ExitEventEndsRound(p: Plan, s: LoopState, r: Round)
    requires GoodPlan(p) && |p.fixed| <= |s.table| && RoundOk(r) && r.polled
    ensures var one := OneRound(p, s, r);
            && (p.exitIdx >= 0 && r.revents(p.exitIdx) != 0 <==> !one.more && ExitSeen in one.events)
            && (one.more <==> GoesOn(p, r))
    ensures var one := OneRound(p, s, r);
            p.exitIdx >= 0 && r.revents(p.exitIdx) != 0 ==>
              one.ret == 0 && forall e | e in one.events :: !e.ApiRequest? && !e.SocketService? && !e.TimerCallback?
  {
    hide BeforePoll;
    hide Serve;
    hide SweepOf;
    BeforePollEvents(p, s, r);
    ServeEvents(p, PolledTable(p, s, r), r.asked, SweepOf(s, r).fired);
  }

  // ----- the timers -----

  /** Every poll of a round waits for the folded timeout, which g_poll takes as finite exactly when it is
      below 2^31 ms. */
  lemma PollsWaitForTimers(p: Plan, s: LoopState, r: Round)
    requires |p.fixed| <= |s.table| && RoundOk(r)
    ensures var wait := Wait(r.slirpTimeout, s.deadlines, NowMsec(r.ns));
            forall e | e in BeforePoll(p, s, r) && e.Polling? ::
              if wait < 0x8000_0000 then e.timeout == wait else e.timeout < 0
    ensures exists e :: e in BeforePoll(p, s, r) && e.Polling?
  {
    hide Wait;
    var polls := Polls(PollTimeout(Wait(r.slirpTimeout, s.deadlines, NowMsec(r.ns))), r.interrupts);
    assert polls[0] in BeforePoll(p, s, r);
  }

  /** When the timers set the poll timeout, poll waits it out, and nothing in the round touches the
      earliest timer, the sweep that ends the round calls it back, unless the callback of a timer before
      it in the list touched it first. */
  lemma EarliestTimerCalledBack(p: Plan, s: LoopState, r: Round, j: nat)
    requires GoodPlan(p) && |p.fixed| <= |s.table| && RoundOk(r) && GoesOn(p, r)
    requires j < |s.deadlines| && s.deadlines[j] != -1 && !Touches(r.mods, j)
    requires Wait(r.slirpTimeout, s.deadlines, NowMsec(r.ns)) == Distance(s.deadlines[j], NowMsec(r.ns)) < 0x8000_0000
    requires r.sweepNs >= r.ns + Distance(s.deadlines[j], NowMsec(r.ns)) * 1_000_000
    ensures var one, fired := OneRound(p, s, r), SweepOf(s, r).fired;
            && (forall e | e in one.events && e.Polling? :: e.timeout == Distance(s.deadlines[j], NowMsec(r.ns)))
            && (TimerCallback(j) in one.events
                || exists c :: 0 <= c < |fired| && fired[c] < j && Touches(r.effects(c), j))
  {
    hide Wait;
    hide SweepAll;
    hide BeforePoll;
    hide OneRound;
    PollsWaitForTimers(p, s, r);
    RoundPolls(p, s, r);
    RoundServes(p, s, r);
    CalledBackIsIn(OneRound(p, s, r).events, j);
    var d' := Apply(s.deadlines, r.mods);
    ApplyLastWrite(s.deadlines, r.mods, j);
    LastWriteUntouched(r.mods, j, s.deadlines[j]);
    WaitedOutTimerFires(r.slirpTimeout, s.deadlines, r.ns, j, d', r.sweepNs, r.effects);
  }

  /** The round honours what libslirp re-arms in it: a timer that no callback of the sweep touches is called
      back exactly when the deadline it was last given, in this round or before, has come, and keeps that
      deadline otherwise. */
  lemma RoundHonoursMods(p: Plan, s: LoopState, r: Round, j: nat)
    requires GoodPlan(p) && |p.fixed| <= |s.table| && RoundOk(r) && GoesOn(p, r)
    requires j < |s.deadlines| && LeftAlone(|SweepOf(s, r).fired|, r.effects, j)
    ensures var one, w := OneRound(p, s, r), LastWrite(r.mods, j, s.deadlines[j]);
            && |one.state.deadlines| == |s.deadlines|
            && (TimerCallback(j) in one.events <==> w != -1 && w <= NowMsec(r.sweepNs))
            && one.state.deadlines[j] == if TimerCallback(j) in one.events then -1 else w
  {
    hide BeforePoll;
    hide Serve;
    hide SweepAll;
    hide LastWrite;
    var d, now, one := Apply(s.deadlines, r.mods), NowMsec(r.sweepNs), OneRound(p, s, r);
    assert one.state.deadlines == SweepOf(s, r).deadlines;
    ApplyLastWrite(s.deadlines, r.mods, j);
    UntouchedTimer(d, now, r.effects, j);
    hide Apply;
    RoundServes(p, s, r);
    CalledBackIsIn(one.events, j);
  }

  lemma RoundPolls(p: Plan, s: LoopState, r: Round)
    requires GoodPlan(p) && |p.fixed| <= |s.table| && RoundOk(r)
    ensures forall e | e in OneRound(p, s, r).events && e.Polling? :: e in BeforePoll(p, s, r)
  {
    hide SweepOf;
    hide BeforePoll;
    hide Serve;
    ServeEvents(p, PolledTable(p, s, r), r.asked, SweepOf(s, r).fired);
  }
}
