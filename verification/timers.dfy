/** The libslirp timers of slirp4netns.c: arming, the poll timeout folded from them, and the sweep
    that fires those that are due. Deadlines and clock readings are in milliseconds. */
module Timers {

  const DISARMED: int := -1
  const UINT32_MAX: nat := 0xFFFF_FFFF
  const NS_PER_MSEC: nat := 1_000_000

  /** The clock in milliseconds, truncated from nanoseconds. */
  function NowMsec(ns: nat): (ms: nat)
    ensures ms * 1_000_000 <= ns < (ms + 1) * 1_000_000
  {
    ns / NS_PER_MSEC
  }

  predicate Due(deadline: int, now: int) {
    deadline != DISARMED && deadline - now <= 0
  }

  // ----- what callbacks do: timer_mod calls on existing timers -----

  /** One libslirp_timer_mod call: the timer at a list position gets a new deadline. */
  datatype Mod = Mod(timer: nat, expire: int)

  function Apply(d: seq<int>, mods: seq<Mod>): (r: seq<int>)
    ensures |r| == |d|
    decreases |mods|
  {
    if mods == [] then d
    else Apply(if mods[0].timer < |d| then d[mods[0].timer := mods[0].expire] else d, mods[1..])
  }

  predicate Touches(mods: seq<Mod>, j: nat) {
    exists m | m in mods :: m.timer == j
  }

  /** The last deadline that `mods` gives timer `j`, or `initial` when they leave it alone. */
  function LastWrite(mods: seq<Mod>, j: nat, initial: int): int {
    if mods == [] then initial
    else if mods[|mods| - 1].timer == j then mods[|mods| - 1].expire
    else LastWrite(mods[..|mods| - 1], j, initial)
  }

  lemma {:induction false} ApplyConcat(d: seq<int>, a: seq<Mod>, b: seq<Mod>)
    ensures Apply(d, a + b) == Apply(Apply(d, a), b)
    decreases |a|
  {
    if a == [] {
      assert a + b == b;
    } else {
      assert (a + b)[1..] == a[1..] + b;
      ApplyConcat(if a[0].timer < |d| then d[a[0].timer := a[0].expire] else d, a[1..], b);
    }
  }

  lemma {:induction false} ApplyLastWrite(d: seq<int>, mods: seq<Mod>, j: nat)
    requires j < |d|
    ensures Apply(d, mods)[j] == LastWrite(mods, j, d[j])
  {
    if mods != [] {
      var front, last := mods[..|mods| - 1], mods[|mods| - 1];
      assert mods == front + [last];
      ApplyConcat(d, front, [last]);
      ApplyLastWrite(d, front, j);
      assert [last][1..] == [];
    }
  }

  lemma {:induction false} LastWriteConcat(a: seq<Mod>, b: seq<Mod>, j: nat, initial: int)
    ensures LastWrite(a + b, j, initial) == LastWrite(b, j, LastWrite(a, j, initial))
  {
    if b == [] {
      assert a + b == a;
    } else {
      assert (a + b)[..|a + b| - 1] == a + b[..|b| - 1];
      LastWriteConcat(a, b[..|b| - 1], j, initial);
    }
  }

  lemma {:induction false} LastWriteUntouched(mods: seq<Mod>, j: nat, initial: int)
    requires !Touches(mods, j)
    ensures LastWrite(mods, j, initial) == initial
  {
    if mods != [] {
      assert mods[|mods| - 1] in mods;
      assert !Touches(mods[..|mods| - 1], j) by {
        assert forall m | m in mods[..|mods| - 1] :: m in mods;
      }
      LastWriteUntouched(mods[..|mods| - 1], j, initial);
    }
  }

  // ----- the poll timeout -----

  /** Waiting this long from `now` reaches the deadline, and no later than needed. */
  function Distance(deadline: int, now: int): (t: nat)
    ensures deadline >= now ==> now + t == deadline
    ensures deadline < now ==> t == 0
  {
    if deadline - now < 0 then 0 else deadline - now
  }

  /** `t` is the least of libslirp's own timeout and every armed timer's distance. */
  ghost predicate IsWait(t: nat, timeout: nat, d: seq<int>, now: int) {
    && t <= timeout
    && (forall i | 0 <= i < |d| && d[i] != -1 :: t <= Distance(d[i], now))
    && (t == timeout || exists i :: 0 <= i < |d| && d[i] != -1 && t == Distance(d[i], now))
  }

  function Wait(timeout: nat, d: seq<int>, now: int): (t: nat)
    ensures IsWait(t, timeout, d, now)
  {
    if d == [] then timeout
    else
      var n := |d| - 1;
      var t := Wait(timeout, d[..n], now);
      assert forall i | 0 <= i < n :: d[..n][i] == d[i];
      if d[n] != DISARMED && Distance(d[n], now) < t then Distance(d[n], now) else t
  }

  lemma WaitIsUnique(t: nat, timeout: nat, d: seq<int>, now: int)
    requires IsWait(t, timeout, d, now)
    ensures t == Wait(timeout, d, now)
  {
    hide Wait;
  }

  /** The uint32_t timeout as the gint that g_poll receives; a negative one waits for ever. */
  function PollTimeout(t: nat): (r: int)
    requires t <= UINT32_MAX
    ensures r >= 0 <==> t < 0x8000_0000
    ensures r >= 0 ==> r == t
    ensures t == UINT32_MAX ==> r == -1
  {
    if t < 0x8000_0000 then t else t - 0x1_0000_0000
  }

  // ----- the sweep -----

  /** The deadlines a sweep leaves, and the timers it fired, in firing order. */
  datatype Sweep = Sweep(deadlines: seq<int>, fired: seq<nat>)

  /** check_ra_timeout from list position `i` on. The n-th callback of the sweep performs `effects(n)`. */
  function SweepFrom(d: seq<int>, i: nat, now: int, effects: nat -> seq<Mod>, calls: nat): (r: Sweep)
    requires i <= |d|
    ensures |r.deadlines| == |d|
    decreases |d| - i
  {
    if i == |d| then Sweep(d, [])
    else if Due(d[i], now) then
      var r := SweepFrom(Apply(d[i := DISARMED], effects(calls)), i + 1, now, effects, calls + 1);
      Sweep(r.deadlines, [i] + r.fired)
    else SweepFrom(d, i + 1, now, effects, calls)
  }

  predicate Increasing(s: seq<nat>) {
    forall i, j | 0 <= i < j < |s| :: s[i] < s[j]
  }

  /** Each timer fires at most once, and in list order. */
  lemma {:induction false} FiredInOrder(d: seq<int>, i: nat, now: int, effects: nat -> seq<Mod>, calls: nat)
    requires i <= |d|
    ensures var fired := SweepFrom(d, i, now, effects, calls).fired;
            Increasing(fired) && forall k | 0 <= k < |fired| :: i <= fired[k] < |d|
    decreases |d| - i
  {
    if i < |d| {
      if Due(d[i], now) {
        FiredInOrder(Apply(d[i := DISARMED], effects(calls)), i + 1, now, effects, calls + 1);
      } else {
        FiredInOrder(d, i + 1, now, effects, calls);
      }
    }
  }

  /** The writes a sweep makes: each fired timer is disarmed, then its callback runs. */
  function Writes(fired: seq<nat>, effects: nat -> seq<Mod>, calls: nat): seq<Mod> {
    if fired == [] then []
    else [Mod(fired[0], DISARMED)] + effects(calls) + Writes(fired[1..], effects, calls + 1)
  }

  /** The fired timers that come before list position `j`. */
  function Below(fired: seq<nat>, j: nat): (b: seq<nat>)
    ensures b <= fired
  {
    if fired == [] || fired[0] >= j then [] else [fired[0]] + Below(fired[1..], j)
  }

  lemma FirstWrites(d: seq<int>, i: nat, rest: seq<nat>, effects: nat -> seq<Mod>, calls: nat)
    requires i < |d|
    ensures Apply(d, Writes([i] + rest, effects, calls))
         == Apply(Apply(d[i := DISARMED], effects(calls)), Writes(rest, effects, calls + 1))
  {
    var own, later := [Mod(i, DISARMED)], Writes(rest, effects, calls + 1);
    assert ([i] + rest)[1..] == rest;
    ApplyConcat(d, own + effects(calls), later);
    ApplyConcat(d, own, effects(calls));
    assert own[1..] == [];
  }

  /** The sweep explained by its own firing order: a timer fires exactly when the deadline it has after
      the writes of the timers fired before it is due, and the result is the initial list with all
      writes applied. */
  lemma {:induction false} SweepExplained(d: seq<int>, i: nat, now: int, effects: nat -> seq<Mod>, calls: nat)
    requires i <= |d|
    ensures var r := SweepFrom(d, i, now, effects, calls);
            && r.deadlines == Apply(d, Writes(r.fired, effects, calls))
            && forall j | i <= j < |d| ::
                 j in r.fired <==> Due(Apply(d, Writes(Below(r.fired, j), effects, calls))[j], now)
    decreases |d| - i
  {
    hide Apply;
    if i < |d| {
      FiredInOrder(d, i, now, effects, calls);
      if Due(d[i], now) {
        var d' := Apply(d[i := DISARMED], effects(calls));
        var r := SweepFrom(d', i + 1, now, effects, calls + 1);
        SweepExplained(d', i + 1, now, effects, calls + 1);
        FirstWrites(d, i, r.fired, effects, calls);
        forall j | i <= j < |d|
          ensures j in [i] + r.fired <==> Due(Apply(d, Writes(Below([i] + r.fired, j), effects, calls))[j], now)
        {
          if j == i {
            NoWrites(d, effects, calls);
          } else {
            assert ([i] + r.fired)[1..] == r.fired;
            FirstWrites(d, i, Below(r.fired, j), effects, calls);
          }
        }
      } else {
        FiredInOrder(d, i + 1, now, effects, calls);
        SweepExplained(d, i + 1, now, effects, calls);
        NoWrites(d, effects, calls);
      }
    } else {
      NoWrites(d, effects, calls);
    }
  }

  lemma NoWrites(d: seq<int>, effects: nat -> seq<Mod>, calls: nat)
    ensures Apply(d, Writes([], effects, calls)) == d
  {
  }

  // ----- consequences, for a whole sweep -----

  function SweepAll(d: seq<int>, now: int, effects: nat -> seq<Mod>): Sweep {
    SweepFrom(d, 0, now, effects, 0)
  }

  /** No callback among the first `n` of the sweep touches timer `j`. */
  predicate LeftAlone(n: nat, effects: nat -> seq<Mod>, j: nat) {
    forall c | 0 <= c < n :: !Touches(effects(c), j)
  }

  lemma {:induction false} WritesUntouched(fired: seq<nat>, effects: nat -> seq<Mod>, calls: nat, j: nat, initial: int)
    requires j !in fired
    requires forall c | calls <= c < calls + |fired| :: !Touches(effects(c), j)
    ensures LastWrite(Writes(fired, effects, calls), j, initial) == initial
  {
    hide LastWrite;
    if fired != [] {
      var own, later := [Mod(fired[0], DISARMED)], Writes(fired[1..], effects, calls + 1);
      WritesUntouched(fired[1..], effects, calls + 1, j, initial);
      LastWriteConcat(own + effects(calls), later, j, initial);
      LastWriteConcat(own, effects(calls), j, initial);
      LastWriteUntouched(own, j, initial);
      LastWriteUntouched(effects(calls), j, initial);
    } else {
      LastWriteUntouched([], j, initial);
    }
  }

  lemma BelowIsSmaller(fired: seq<nat>, j: nat)
    requires Increasing(fired)
    ensures j !in Below(fired, j)
    ensures forall c | 0 <= c < |fired| :: fired[c] < j <==> c < |Below(fired, j)|
  {
  }

  /** A timer that the callbacks fired before it leave alone fires exactly when it is due. */
  lemma FiresIffDue(d: seq<int>, now: int, effects: nat -> seq<Mod>, j: nat)
    requires j < |d|
    requires LeftAlone(|Below(SweepAll(d, now, effects).fired, j)|, effects, j)
    ensures j in SweepAll(d, now, effects).fired <==> d[j] != -1 && d[j] <= now
  {
    var fired := SweepAll(d, now, effects).fired;
    FiredInOrder(d, 0, now, effects, 0);
    SweepExplained(d, 0, now, effects, 0);
    BelowIsSmaller(fired, j);
    ApplyLastWrite(d, Writes(Below(fired, j), effects, 0), j);
    WritesUntouched(Below(fired, j), effects, 0, j, d[j]);
  }

  lemma {:induction false} WritesSplit(fired: seq<nat>, effects: nat -> seq<Mod>, calls: nat, c: nat)
    requires c <= |fired|
    ensures Writes(fired, effects, calls)
         == Writes(fired[..c], effects, calls) + Writes(fired[c..], effects, calls + c)
  {
    if c == 0 {
      assert fired[c..] == fired;
    } else {
      WritesSplit(fired[1..], effects, calls + 1, c - 1);
      assert fired[..c][1..] == fired[1..][..c - 1];
      assert fired[1..][c - 1..] == fired[c..];
    }
  }

  /** Disarming comes before the callback, so what a timer's own callback arms survives the sweep: its
      final deadline is the last one its own callback gave it (disarmed if none), unless a later
      callback changes it. */
  lemma OwnRearmSurvives(d: seq<int>, now: int, effects: nat -> seq<Mod>, c: nat)
    requires c < |SweepAll(d, now, effects).fired|
    requires forall c' | c < c' < |SweepAll(d, now, effects).fired| ::
               !Touches(effects(c'), SweepAll(d, now, effects).fired[c])
    ensures var r := SweepAll(d, now, effects);
            r.fired[c] < |d| && r.deadlines[r.fired[c]] == LastWrite(effects(c), r.fired[c], -1)
  {
    var r := SweepAll(d, now, effects);
    var fired, j := r.fired, r.fired[c];
    FiredInOrder(d, 0, now, effects, 0);
    SweepExplained(d, 0, now, effects, 0);
    ApplyLastWrite(d, Writes(fired, effects, 0), j);
    WritesSplit(fired, effects, 0, c);
    var before, rest := Writes(fired[..c], effects, 0), fired[c..];
    assert rest[0] == j && rest[1..] == fired[c + 1..];
    var own, later := [Mod(j, DISARMED)] + effects(c), Writes(fired[c + 1..], effects, c + 1);
    assert Writes(fired, effects, 0) == before + (own + later);
    LastWriteConcat(before, own + later, j, d[j]);
    var w := LastWrite(before, j, d[j]);
    LastWriteConcat(own, later, j, w);
    LastWriteConcat([Mod(j, DISARMED)], effects(c), j, w);
    WritesUntouched(fired[c + 1..], effects, c + 1, j, LastWrite(own, j, w));
  }

  /** A timer that neither fires nor is touched keeps its deadline. */
  lemma UntouchedKeepsDeadline(d: seq<int>, now: int, effects: nat -> seq<Mod>, j: nat)
    requires j < |d| && j !in SweepAll(d, now, effects).fired
    requires LeftAlone(|SweepAll(d, now, effects).fired|, effects, j)
    ensures SweepAll(d, now, effects).deadlines[j] == d[j]
  {
    var fired := SweepAll(d, now, effects).fired;
    SweepExplained(d, 0, now, effects, 0);
    ApplyLastWrite(d, Writes(fired, effects, 0), j);
    WritesUntouched(fired, effects, 0, j, d[j]);
  }

  /** A timer that no callback touches fires exactly when it is due, and is disarmed by that; otherwise it
      keeps its deadline. */
  lemma UntouchedTimer(d: seq<int>, now: int, effects: nat -> seq<Mod>, j: nat)
    requires j < |d| && LeftAlone(|SweepAll(d, now, effects).fired|, effects, j)
    ensures var r := SweepAll(d, now, effects);
            && |r.deadlines| == |d|
            && (j in r.fired <==> d[j] != -1 && d[j] <= now)
            && r.deadlines[j] == if j in r.fired then -1 else d[j]
  {
    var r := SweepAll(d, now, effects);
    FiredInOrder(d, 0, now, effects, 0);
    BelowIsSmaller(r.fired, j);
    FiresIffDue(d, now, effects, j);
    hide SweepAll;
    if j in r.fired {
      var c :| 0 <= c < |r.fired| && r.fired[c] == j;
      OwnRearmSurvives(d, now, effects, c);
      LastWriteUntouched(effects(c), j, -1);
    } else {
      UntouchedKeepsDeadline(d, now, effects, j);
    }
  }

  /** When timer `j` set the poll timeout and poll waited it out, the sweep that follows fires `j`, or
      an earlier callback of that sweep has already dealt with it. Both clock readings are truncated to
      milliseconds, and the distance is one that g_poll takes as a finite wait. */
  lemma WaitedOutTimerFires(timeout: nat, d: seq<int>, ns: nat, j: nat, d': seq<int>, ns': nat,
                            effects: nat -> seq<Mod>)
    requires timeout <= UINT32_MAX
    requires j < |d| == |d'| && d[j] != -1 && d'[j] == d[j]
    requires Wait(timeout, d, NowMsec(ns)) == Distance(d[j], NowMsec(ns))
    requires Distance(d[j], NowMsec(ns)) < 0x8000_0000
    requires ns' >= ns + PollTimeout(Distance(d[j], NowMsec(ns))) * 1_000_000
    ensures var fired := SweepAll(d', NowMsec(ns'), effects).fired;
            && fired != []
            && (j in fired || exists c :: 0 <= c < |fired| && fired[c] < j && Touches(effects(c), j))
  {
    var fired := SweepAll(d', NowMsec(ns'), effects).fired;
    assert Due(d'[j], NowMsec(ns'));
    FiredInOrder(d', 0, NowMsec(ns'), effects, 0);
    BelowIsSmaller(fired, j);
    if LeftAlone(|Below(fired, j)|, effects, j) {
      FiresIffDue(d', NowMsec(ns'), effects, j);
    } else {
      var c :| 0 <= c < |Below(fired, j)| && Touches(effects(c), j);
      assert fired[c] < j;
    }
  }

  // ----- the list itself -----

  class Timer {
    var expire: int

    constructor ()
      ensures expire == -1
    {
      expire := DISARMED;
    }
  }

  /** struct libslirp_data: the list of timers, each mutated in place. */
  class LibslirpData {
    var timers: seq<Timer>

    ghost predicate Valid()
      reads this
    {
      forall i, j | 0 <= i < j < |timers| :: timers[i] != timers[j]
    }

    ghost function Deadlines(): (d: seq<int>)
      reads this, timers
      ensures |d| == |timers| && forall i | 0 <= i < |d| :: d[i] == timers[i].expire
    {
      seq(|timers|, i requires 0 <= i < |timers| reads this, timers => timers[i].expire)
    }

    constructor ()
      ensures Valid() && timers == []
    {
      timers := [];
    }

    method TimerNew() returns (t: Timer)
      requires Valid()
      modifies this
      ensures Valid() && fresh(t) && timers == old(timers) + [t]
      ensures Deadlines() == old(Deadlines()) + [-1]
    {
      t := new Timer();
      timers := timers + [t];
    }

    /** g_slist_remove, for the timer at position `k`. */
    method TimerFree(t: Timer, ghost k: nat)
      requires Valid() && k < |timers| && timers[k] == t
      modifies this
      ensures Valid() && timers == old(timers)[..k] + old(timers)[k + 1..]
      ensures Deadlines() == old(Deadlines())[..k] + old(Deadlines())[k + 1..]
    {
      var i := 0;
      while timers[i] != t
        invariant i <= k
        decreases k - i
      {
        i := i + 1;
      }
      timers := timers[..i] + timers[i + 1..];
    }

    method TimerMod(k: nat, expire: int)
      requires Valid() && k < |timers|
      modifies timers[k]
      ensures Deadlines() == old(Deadlines())[k := expire]
    {
      timers[k].expire := expire;
    }

    /** A callback's timer_mod calls, one after the other. */
    method RunMods(mods: seq<Mod>)
      requires Valid()
      modifies timers
      ensures Deadlines() == Apply(old(Deadlines()), mods)
    {
      var i := 0;
      assert mods[0..] == mods;
      while i < |mods|
        invariant i <= |mods|
        invariant Apply(Deadlines(), mods[i..]) == Apply(old(Deadlines()), mods)
      {
        assert mods[i..][0] == mods[i] && mods[i..][1..] == mods[i + 1..];
        if mods[i].timer < |timers| {
          TimerMod(mods[i].timer, mods[i].expire);
        }
        i := i + 1;
      }
    }

    /** Disarms the timer at position `i`, then calls its callback. */
    method Fire(i: nat, mods: seq<Mod>)
      requires Valid() && i < |timers|
      modifies timers
      ensures Deadlines() == Apply(old(Deadlines())[i := DISARMED], mods)
    {
      TimerMod(i, DISARMED);
      RunMods(mods);
    }

    method UpdateRaTimeout(timeout: nat, ns: nat) returns (t: nat)
      requires Valid()
      ensures t == Wait(timeout, Deadlines(), NowMsec(ns))
      ensures IsWait(t, timeout, Deadlines(), NowMsec(ns))
    {
      t := timeout;
      var now := NowMsec(ns);
      ghost var d := Deadlines();
      for i := 0 to |timers|
        invariant t == Wait(timeout, d[..i], now)
      {
        assert d[..i + 1][..i] == d[..i];
        if timers[i].expire != DISARMED {
          var diff := timers[i].expire - now;
          if diff < 0 {
            diff := 0;
          }
          if diff < t {
            t := diff;
          }
        }
      }
      assert d[..|timers|] == d;
    }

    method CheckRaTimeout(ns: nat, effects: nat -> seq<Mod>) returns (fired: seq<nat>)
      requires Valid()
      modifies timers
      ensures Sweep(Deadlines(), fired) == SweepAll(old(Deadlines()), NowMsec(ns), effects)
      ensures Increasing(fired)
    {
      hide Apply;
      var now := NowMsec(ns);
      fired := [];
      var i := 0;
      ghost var all := SweepAll(Deadlines(), now, effects);
      while i < |timers|
        invariant i <= |timers|
        invariant var r := SweepFrom(Deadlines(), i, now, effects, |fired|);
                  all == Sweep(r.deadlines, fired + r.fired)
      {
        if timers[i].expire != DISARMED {
          var diff := timers[i].expire - now;
          if diff <= 0 {
            Fire(i, effects(|fired|));
            fired := fired + [i];
          }
        }
        i := i + 1;
      }
      FiredInOrder(old(Deadlines()), 0, now, effects, 0);
    }
  }
}
