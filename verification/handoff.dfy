/** The two processes of main(): a child that opens the tap and sends its descriptor over a socket pair,
    and a parent that waits for the child, receives the descriptor and runs the event loop. The steps of
    the two interleave freely; every step that can fail may fail, and the child may be killed. */
module Handoff {
  import opened Text

  /** --target-type=netns (with or without -c), --target-type=bess, or a tap descriptor given by the user. */
  datatype Mode = Netns(configure: bool) | Bess | Tapfd

  /** Where the child is. In BESS mode `Entering` is the listening socket and `Opening` the accept. */
  datatype Child =
    | NotForked | Entering | Opening | Configuring | Sending | ClosingTap | ClosingSocket | Exiting
    | Exited(status: nat) | Killed

  datatype Parent = Pairing | Forking | Waiting | Receiving | Closing | Preparing | Looping | Done(status: nat)

  /** `queue` counts the descriptor-carrying messages in the socket; the flags say which process has the
      tap open. `client` says that a client has connected to the BESS socket. `tapOpened` and `entered`
      remember that the tap was opened and that the loop was entered. */
  datatype State = State(mode: Mode, parent: Parent, child: Child, queue: nat, childTap: bool, parentTap: bool,
                         client: bool, tapOpened: bool, entered: bool)

  /** Each process takes a step that succeeds or fails, the child is killed, a BESS client connects, or
      waitpid is interrupted. */
  datatype Action = ChildStep(ok: bool) | KillChild | ParentStep(ok: bool) | ClientConnects | WaitInterrupted

  predicate ChildGone(c: Child) {
    c.Exited? || c.Killed?
  }

  predicate ChildLives(c: Child) {
    !ChildGone(c) && !c.NotForked?
  }

  /** References to the tap's open file description: descriptors in either process, and in flight. */
  function Refs(s: State): nat {
    One(s.childTap) + s.queue + One(s.parentTap)
  }

  function Init(mode: Mode): State {
    State(mode, Pairing, NotForked, 0, false, mode.Tapfd?, false, mode.Tapfd?, false)
  }

  /** Once both processes are gone the kernel destroys the socket with what is in it. */
  function Reap(s: State): State {
    if s.parent.Done? && !ChildLives(s.child) then s.(queue := 0) else s
  }

  /** Leaving a process closes all its descriptors. */
  function ChildExit(s: State, c: Child): State {
    Reap(s.(child := c, childTap := false))
  }

  function ParentExit(s: State, status: nat): State {
    Reap(s.(parent := Done(status), parentTap := false))
  }

  function AfterOpening(mode: Mode): Child {
    if mode == Netns(true) then Configuring else Sending
  }

  /** child() and child_bess(). The accept of BESS mode blocks until a client connects. */
  function StepChild(s: State, ok: bool): Option<State> {
    match s.child
    case NotForked => None
    case Entering => Some(if ok then s.(child := Opening) else ChildFails(s))
    case Opening =>
      if !ok then Some(ChildFails(s))
      else if s.mode.Bess? && !s.client then None
      else Some(s.(child := AfterOpening(s.mode), childTap := true, tapOpened := true))
    case Configuring => Some(if ok then s.(child := Sending) else ChildFails(s))
    case Sending =>
      Some(if !ok then ChildFails(s)
           else s.(child := if s.mode.Bess? then ClosingSocket else ClosingTap, queue := s.queue + 1))
    case ClosingTap => Some(s.(child := ClosingSocket, childTap := false))
    case ClosingSocket => Some(s.(child := Exiting))
    case Exiting => Some(ChildExit(s, Exited(0)))
    case Exited(_) => None
    case Killed => None
  }

  function ChildFails(s: State): State {
    ChildExit(s, Exited(EXIT_FAILURE))
  }

  function ParentFails(s: State): State {
    ParentExit(s, EXIT_FAILURE)
  }

  /** main() and parent(). waitpid returns only once the child is gone; recvmsg blocks while nothing is
      queued, because the parent itself keeps the sending end open. */
  function StepParent(s: State, ok: bool): Option<State> {
    match s.parent
    case Pairing => Some(if ok then s.(parent := if s.mode.Tapfd? then Preparing else Forking) else ParentFails(s))
    case Forking => Some(if ok then s.(parent := Waiting, child := Entering) else ParentFails(s))
    case Waiting =>
      if !ok then Some(ParentFails(s))
      else if !ChildGone(s.child) then None
      else if s.child.Killed? then Some(ParentFails(s))
      else if s.child.status != 0 then Some(ParentExit(s, s.child.status))
      else Some(s.(parent := Receiving))
    case Receiving =>
      if !ok then Some(ParentFails(s))
      else if s.queue == 0 then None
      else Some(s.(parent := Closing, queue := s.queue - 1, parentTap := true))
    case Closing => Some(s.(parent := Preparing))
    case Preparing => Some(if ok then s.(parent := Looping, entered := true) else ParentFails(s))
    case Looping => Some(ParentExit(s, if ok then 0 else EXIT_FAILURE))
    case Done(_) => None
  }

  function Step(s: State, a: Action): Option<State> {
    match a
    case ChildStep(ok) => StepChild(s, ok)
    case KillChild => if ChildLives(s.child) then Some(ChildExit(s, Killed)) else None
    case ParentStep(ok) => StepParent(s, ok)
    case ClientConnects => if s.mode.Bess? && !s.client then Some(s.(client := true)) else None
    case WaitInterrupted => if s.parent.Waiting? then Some(s) else None
  }

  /** The state after a sequence of actions, if each was possible when it was taken. */
  function Run(mode: Mode, actions: seq<Action>): Option<State> {
    if actions == [] then Some(Init(mode))
    else
      match Run(mode, actions[..|actions| - 1])
      case Some(s) => Step(s, actions[|actions| - 1])
      case None => None
  }

  // ----- the invariant -----

  /** What the child's position says about the tap and the socket. */
  predicate ChildInv(s: State) {
    match s.child
    case NotForked => !s.childTap && s.queue == 0 && (s.tapOpened <==> s.mode.Tapfd?)
    case Entering => !s.childTap && s.queue == 0 && !s.tapOpened
    case Opening => !s.childTap && s.queue == 0 && !s.tapOpened
    case Configuring => s.childTap && s.queue == 0 && s.mode == Netns(true) && s.tapOpened
    case Sending => s.childTap && s.queue == 0 && s.tapOpened
    case ClosingTap => s.childTap && s.queue == 1 && s.mode.Netns? && s.tapOpened
    case ClosingSocket => (s.childTap <==> s.mode.Bess?) && s.queue == 1 && s.tapOpened
    case Exiting => (s.childTap <==> s.mode.Bess?) && s.queue == 1 && s.tapOpened
    case Exited(status) =>
      !s.childTap && status in {0, EXIT_FAILURE} && (status == 0 ==> s.tapOpened) && (status != 0 ==> s.queue == 0)
    case Killed => !s.childTap && s.queue <= 1
  }

  predicate HandedOver(s: State) {
    s.queue == 0 && if s.mode.Tapfd? then s.child.NotForked? else s.child == Exited(0)
  }

  predicate ParentInv(s: State) {
    match s.parent
    case Pairing => s.child.NotForked? && !s.entered && (s.parentTap <==> s.mode.Tapfd?)
    case Forking => s.child.NotForked? && !s.entered && !s.parentTap && !s.mode.Tapfd?
    case Waiting => !s.child.NotForked? && !s.entered && !s.parentTap && (s.child == Exited(0) ==> s.queue == 1)
    case Receiving => s.child == Exited(0) && !s.entered && !s.parentTap && s.queue == 1
    case Closing => s.parentTap && !s.entered && HandedOver(s)
    case Preparing => s.parentTap && !s.entered && HandedOver(s)
    case Looping => s.parentTap && s.entered && HandedOver(s)
    case Done(status) =>
      && !s.parentTap && (status == 0 ==> s.entered) && (s.entered ==> HandedOver(s))
      && (!ChildLives(s.child) ==> s.queue == 0)
  }

  predicate Inv(s: State) {
    && ChildInv(s) && ParentInv(s)
    && (!s.child.NotForked? ==> !s.mode.Tapfd?)
  }

  lemma ChildFailsKeepsInv(s: State)
    requires Inv(s) && (s.child.Entering? || s.child.Opening? || s.child.Configuring? || s.child.Sending?)
    ensures Inv(ChildFails(s)) && ChildFails(s).mode == s.mode
  {
  }

  lemma ChildStepKeepsInv(s: State, ok: bool)
    requires Inv(s) && StepChild(s, ok).Some?
    ensures Inv(StepChild(s, ok).value) && StepChild(s, ok).value.mode == s.mode
  {
    hide ChildFails;
    if s.child.Entering? || s.child.Opening? || s.child.Configuring? || s.child.Sending? {
      ChildFailsKeepsInv(s);
    }
  }

  lemma ParentExitKeepsInv(s: State, status: nat)
    requires Inv(s) && !s.parent.Done? && (status == 0 ==> s.entered)
    ensures Inv(ParentExit(s, status)) && ParentExit(s, status).mode == s.mode
  {
  }

  lemma ParentStepKeepsInv(s: State, ok: bool)
    requires Inv(s) && StepParent(s, ok).Some?
    ensures Inv(StepParent(s, ok).value) && StepParent(s, ok).value.mode == s.mode
  {
    hide ParentExit;
    ParentExitKeepsInv(s, EXIT_FAILURE);
    if s.parent.Looping? {
      ParentExitKeepsInv(s, 0);
    } else if s.child.Exited? && s.child.status != 0 {
      ParentExitKeepsInv(s, s.child.status);
    }
  }

  lemma KillKeepsInv(s: State)
    requires Inv(s) && ChildLives(s.child)
    ensures Inv(ChildExit(s, Killed)) && ChildExit(s, Killed).mode == s.mode
  {
  }

  lemma ClientKeepsInv(s: State)
    requires Inv(s)
    ensures Inv(s.(client := true))
  {
  }

  lemma StepKeepsInv(s: State, a: Action)
    requires Inv(s) && Step(s, a).Some?
    ensures Inv(Step(s, a).value) && Step(s, a).value.mode == s.mode
  {
    hide Inv;
    hide StepChild;
    hide StepParent;
    match a
    case ChildStep(ok) => ChildStepKeepsInv(s, ok);
    case ParentStep(ok) => ParentStepKeepsInv(s, ok);
    case KillChild => KillKeepsInv(s);
    case ClientConnects => ClientKeepsInv(s);
    case WaitInterrupted =>
  }

  lemma {:induction false} RunKeepsInv(mode: Mode, actions: seq<Action>)
    ensures Run(mode, actions).Some? ==> Inv(Run(mode, actions).value) && Run(mode, actions).value.mode == mode
    decreases |actions|
  {
    hide Inv;
    hide Step;
    if actions == [] {
      InitInv(mode);
    } else {
      RunKeepsInv(mode, actions[..|actions| - 1]);
      var r := Run(mode, actions[..|actions| - 1]);
      if r.Some? && Step(r.value, actions[|actions| - 1]).Some? {
        StepKeepsInv(r.value, actions[|actions| - 1]);
      }
    }
  }

  lemma InitInv(mode: Mode)
    ensures Inv(Init(mode))
  {
  }

  // ----- what holds over all interleavings -----

  /** The parent reaches recvfd only when the child exited cleanly and exactly one message is queued, so
      it never blocks there. */
  lemma ReceiveNeverBlocks(mode: Mode, actions: seq<Action>)
    requires Run(mode, actions).Some? && Run(mode, actions).value.parent.Receiving?
    ensures var s := Run(mode, actions).value;
            s.queue == 1 && s.child == Exited(0) && StepParent(s, true).Some?
  {
    RunKeepsInv(mode, actions);
  }

  /** Some step of the child or the parent has failed, or the child was killed. */
  predicate Failed(s: State) {
    s.child.Killed? || (s.child.Exited? && s.child.status != 0) || s.parent.Done?
  }

  /** From open_tap until the loop starts something always holds the tap open, and in the loop exactly the
      parent does. */
  lemma TapStaysOpen(mode: Mode, actions: seq<Action>)
    requires Run(mode, actions).Some?
    ensures var s := Run(mode, actions).value;
            && (s.tapOpened && !Failed(s) ==> 1 <= Refs(s) <= 2)
            && (s.parent.Looping? ==> Refs(s) == 1 && s.parentTap)
  {
    RunKeepsInv(mode, actions);
  }

  /** A child that fails or is killed keeps the parent out of the loop and makes it exit non-zero. Exit
      status zero means that the loop was entered. */
  lemma FailingChildFailsParent(mode: Mode, actions: seq<Action>)
    requires Run(mode, actions).Some?
    ensures var s := Run(mode, actions).value;
            && (s.child.Killed? || (s.child.Exited? && s.child.status != 0) ==>
                  !s.entered && !s.parent.Looping? && (s.parent.Done? ==> s.parent.status != 0))
            && (s.parent == Done(0) ==> s.entered)
  {
    RunKeepsInv(mode, actions);
  }

  /** Both processes are gone. */
  predicate Final(s: State) {
    s.parent.Done? && !ChildLives(s.child)
  }

  /** The child waits for a BESS client that has not come yet. */
  predicate AwaitsClient(s: State) {
    s.mode.Bess? && s.child.Opening? && !s.client
  }

  /** The only thing any interleaving can wait for is a BESS client: otherwise, until both processes are gone,
      one of them can take a step that succeeds; and in the end nothing still refers to the tap. */
  lemma NoDeadlock(mode: Mode, actions: seq<Action>)
    requires Run(mode, actions).Some?
    ensures var s := Run(mode, actions).value;
            && (StepChild(s, true).Some? || StepParent(s, true).Some? <==> !Final(s) && !AwaitsClient(s))
            && (Final(s) ==> Refs(s) == 0)
  {
    RunKeepsInv(mode, actions);
  }

  // ----- every run ends -----

  function ChildRank(c: Child): nat {
    match c
    case NotForked => 8
    case Entering => 7
    case Opening => 6
    case Configuring => 5
    case Sending => 4
    case ClosingTap => 3
    case ClosingSocket => 2
    case Exiting => 1
    case _ => 0
  }

  function ParentRank(p: Parent): nat {
    match p
    case Pairing => 7
    case Forking => 6
    case Waiting => 5
    case Receiving => 4
    case Closing => 3
    case Preparing => 2
    case Looping => 1
    case Done(_) => 0
  }

  function Rank(s: State): nat {
    ChildRank(s.child) + ParentRank(s.parent) + One(!s.client)
  }

  function Interrupts(actions: seq<Action>): nat {
    if actions == [] then 0
    else Interrupts(actions[..|actions| - 1]) + One(actions[|actions| - 1].WaitInterrupted?)
  }

  lemma ChildLowersRank(s: State, ok: bool)
    requires StepChild(s, ok).Some?
    ensures var s' := StepChild(s, ok).value;
            ChildRank(s'.child) < ChildRank(s.child) && s'.parent == s.parent && s'.client == s.client
  {
    match s.child
    case Entering =>
    case Opening =>
    case Configuring =>
    case Sending =>
    case ClosingTap =>
    case ClosingSocket =>
    case Exiting =>
  }

  lemma ParentExitEffect(s: State, status: nat)
    ensures var s' := ParentExit(s, status); s'.parent == Done(status) && s'.child == s.child && s'.client == s.client
  {
  }

  lemma ParentLowersRank(s: State, ok: bool)
    requires s.parent.Forking? ==> s.child.NotForked?
    requires StepParent(s, ok).Some?
    ensures var s' := StepParent(s, ok).value;
            && ParentRank(s'.parent) < ParentRank(s.parent)
            && (s'.child == s.child || (s.child.NotForked? && s'.child.Entering?)) && s'.client == s.client
  {
    hide ParentExit;
    ParentExitEffect(s, EXIT_FAILURE);
    ParentExitEffect(s, 0);
    if s.child.Exited? {
      ParentExitEffect(s, s.child.status);
    }
    match s.parent
    case Pairing =>
    case Forking =>
    case Waiting =>
    case Receiving =>
    case Closing =>
    case Preparing =>
    case Looping =>
  }

  lemma StepLowersRank(s: State, a: Action)
    requires Inv(s) && Step(s, a).Some?
    ensures if a.WaitInterrupted? then Step(s, a).value == s else Rank(Step(s, a).value) < Rank(s)
  {
    hide StepChild;
    hide StepParent;
    hide ParentRank;
    match a
    case ChildStep(ok) => ChildLowersRank(s, ok);
    case ParentStep(ok) => ParentLowersRank(s, ok);
    case KillChild =>
    case ClientConnects =>
    case WaitInterrupted =>
  }

  /** Apart from interrupted waits, no run takes more than sixteen steps. */
  lemma {:induction false} RunsEnd(mode: Mode, actions: seq<Action>)
    ensures Run(mode, actions).Some? ==> |actions| - Interrupts(actions) + Rank(Run(mode, actions).value) <= 16
    decreases |actions|
  {
    hide Step;
    hide Rank;
    hide Inv;
    if actions == [] {
      assert Rank(Init(mode)) == 16 by { InitRank(mode); }
    } else {
      var front := actions[..|actions| - 1];
      RunsEnd(mode, front);
      var r := Run(mode, front);
      RunKeepsInv(mode, front);
      if r.Some? && Step(r.value, actions[|actions| - 1]).Some? {
        StepLowersRank(r.value, actions[|actions| - 1]);
      }
    }
  }

  lemma InitRank(mode: Mode)
    ensures Rank(Init(mode)) == 16
  {
  }

  // ----- what every run comes to -----

  /** Neither process can take another step, whether it succeeds or fails. */
  predicate Halted(s: State) {
    && StepChild(s, true).None? && StepChild(s, false).None?
    && StepParent(s, true).None? && StepParent(s, false).None?
  }

  /** A run that is continued until neither process can step ends with both gone and no reference to the
      tap. */
  lemma HaltedMeansFinal(mode: Mode, actions: seq<Action>)
    requires Run(mode, actions).Some?
    ensures var s := Run(mode, actions).value; Halted(s) <==> Final(s)
    ensures var s := Run(mode, actions).value; Halted(s) ==> Refs(s) == 0
  {
    RunKeepsInv(mode, actions);
  }

  lemma RunAppend(mode: Mode, actions: seq<Action>, a: Action)
    ensures Run(mode, actions + [a]) == if Run(mode, actions).None? then None else Step(Run(mode, actions).value, a)
  {
    hide Step;
    assert (actions + [a])[..|actions|] == actions;
  }

  /** Every run can be continued to its end. */
  lemma {:induction false} EveryRunCanEnd(mode: Mode, actions: seq<Action>) returns (more: seq<Action>)
    requires Run(mode, actions).Some?
    ensures Run(mode, actions + more).Some? && Final(Run(mode, actions + more).value)
    decreases Rank(Run(mode, actions).value)
  {
    hide Run;
    var s := Run(mode, actions).value;
    HaltedMeansFinal(mode, actions);
    if Final(s) {
      more := [];
      assert actions + more == actions;
    } else {
      var a := if StepChild(s, true).Some? then ChildStep(true)
               else if StepChild(s, false).Some? then ChildStep(false)
               else if StepParent(s, true).Some? then ParentStep(true) else ParentStep(false);
      RunAppend(mode, actions, a);
      assert Step(s, a).Some?;
      RunKeepsInv(mode, actions);
      StepLowersRank(s, a);
      hide Step;
      hide Rank;
      hide Final;
      var rest := EveryRunCanEnd(mode, actions + [a]);
      more := [a] + rest;
      assert actions + more == actions + [a] + rest;
    }
  }

  predicate ChildFailed(c: Child) {
    c.Killed? || (c.Exited? && c.status != 0)
  }

  lemma FailureStays(s: State, a: Action)
    requires Step(s, a).Some? && ChildFailed(s.child) && !s.parent.Forking?
    ensures Step(s, a).value.child == s.child
  {
  }

  lemma {:induction false} FailurePersists(mode: Mode, actions: seq<Action>, more: seq<Action>)
    requires Run(mode, actions).Some? && ChildFailed(Run(mode, actions).value.child)
    ensures Run(mode, actions + more).Some? ==> ChildFailed(Run(mode, actions + more).value.child)
    decreases |more|
  {
    if more == [] {
      assert actions + more == actions;
    } else {
      var front, last := more[..|more| - 1], more[|more| - 1];
      assert (actions + more)[..|actions + more| - 1] == actions + front;
      assert (actions + more)[|actions + more| - 1] == last;
      FailurePersists(mode, actions, front);
      RunKeepsInv(mode, actions + front);
      hide Step;
      var r := Run(mode, actions + front);
      if r.Some? && Step(r.value, last).Some? {
        NotForkingAfterFailure(r.value);
        FailureStays(r.value, last);
      }
    }
  }

  lemma NotForkingAfterFailure(s: State)
    requires Inv(s) && ChildFailed(s.child)
    ensures !s.parent.Forking?
  {
  }

  /** Once the child has failed or been killed, however the run goes on, it takes at most sixteen steps in
      all, never enters the loop, and when neither process can step any more the parent has exited with a
      non-zero status. */
  lemma FailedChildEndsInFailure(mode: Mode, actions: seq<Action>, more: seq<Action>)
    requires Run(mode, actions).Some? && ChildFailed(Run(mode, actions).value.child)
    requires Run(mode, actions + more).Some?
    ensures var s := Run(mode, actions + more).value;
            && |actions + more| - Interrupts(actions + more) <= 16
            && !s.entered
            && (Halted(s) ==> s.parent.Done? && s.parent.status != 0)
  {
    hide Run;
    FailurePersists(mode, actions, more);
    FailingChildFailsParent(mode, actions + more);
    HaltedMeansFinal(mode, actions + more);
    RunsEnd(mode, actions + more);
  }

  // ----- no step is skipped -----

  /** The stages at which a child in this mode does something that can fail. */
  predicate HasStage(mode: Mode, c: Child) {
    !mode.Tapfd? && (c.Entering? || c.Opening? || (c.Configuring? && mode == Netns(true)) || c.Sending?)
  }

  /** The run can have come here only with stage `c` behind it: the child is further on, has exited cleanly,
      or its message is in the socket or has reached the parent. */
  predicate Past(s: State, c: Child) {
    || (ChildLives(s.child) && ChildRank(s.child) < ChildRank(c)) || s.child == Exited(0)
    || s.queue > 0 || s.parentTap || s.entered
  }

  /** Action `i` is the child's successful step at stage `c`. */
  predicate DoneAt(mode: Mode, actions: seq<Action>, c: Child, i: nat) {
    && i < |actions| && actions[i] == ChildStep(true)
    && Run(mode, actions[..i]).Some? && Run(mode, actions[..i]).value.child == c
  }

  ghost predicate Did(mode: Mode, actions: seq<Action>, c: Child) {
    exists i: nat :: DoneAt(mode, actions, c, i)
  }

  lemma ChildPassingStage(s: State, ok: bool, c: Child)
    requires Inv(s) && StepChild(s, ok).Some? && HasStage(s.mode, c)
    ensures !Past(s, c) && Past(StepChild(s, ok).value, c) ==> s.child == c && ok
  {
  }

  lemma ParentPassesNoStage(s: State, ok: bool, c: Child)
    requires Inv(s) && StepParent(s, ok).Some? && HasStage(s.mode, c)
    ensures Past(StepParent(s, ok).value, c) ==> Past(s, c)
  {
    hide ChildRank;
    if s.parent.Forking? {
      NotPastForked(s.mode, c);
    }
  }

  lemma NotPastForked(mode: Mode, c: Child)
    requires HasStage(mode, c)
    ensures ChildRank(Entering) >= ChildRank(c)
  {
  }

  lemma PassingStage(s: State, a: Action, c: Child)
    requires Inv(s) && Step(s, a).Some? && HasStage(s.mode, c)
    ensures !Past(s, c) && Past(Step(s, a).value, c) ==> s.child == c && a == ChildStep(true)
  {
    hide StepChild;
    hide StepParent;
    match a
    case ChildStep(ok) => ChildPassingStage(s, ok, c);
    case ParentStep(ok) => ParentPassesNoStage(s, ok, c);
    case KillChild =>
    case ClientConnects =>
    case WaitInterrupted =>
  }

  lemma DidEarlier(mode: Mode, actions: seq<Action>, c: Child)
    requires actions != [] && Did(mode, actions[..|actions| - 1], c)
    ensures Did(mode, actions, c)
  {
    hide Run;
    var front := actions[..|actions| - 1];
    var i: nat :| DoneAt(mode, front, c, i);
    assert front[..i] == actions[..i];
    assert DoneAt(mode, actions, c, i);
  }

  /** No stage is skipped, in any interleaving: nothing is past a stage of the mode unless the child took a
      successful step at it. In particular, with --configure no descriptor is ever queued, received or
      polled unless the interface was configured first. */
  lemma {:induction false} NoStageSkipped(mode: Mode, actions: seq<Action>, c: Child)
    requires HasStage(mode, c) && Run(mode, actions).Some? && Past(Run(mode, actions).value, c)
    ensures Did(mode, actions, c)
    decreases |actions|
  {
    hide Step;
    hide Inv;
    hide Did;
    if actions == [] {
      NotPastInit(mode, c);
    } else {
      var front, last := actions[..|actions| - 1], actions[|actions| - 1];
      var s := Run(mode, front).value;
      RunKeepsInv(mode, front);
      hide Past;
      if Past(s, c) {
        NoStageSkipped(mode, front, c);
        DidEarlier(mode, actions, c);
      } else {
        PassingStage(s, last, c);
        DidNow(mode, actions, c);
      }
    }
  }

  lemma DidNow(mode: Mode, actions: seq<Action>, c: Child)
    requires actions != [] && DoneAt(mode, actions, c, |actions| - 1)
    ensures Did(mode, actions, c)
  {
  }

  lemma NotPastInit(mode: Mode, c: Child)
    requires HasStage(mode, c)
    ensures !Past(Init(mode), c)
  {
  }

  /** Only --configure on a network namespace ever configures anything. */
  lemma OnlyNetnsConfigures(mode: Mode, actions: seq<Action>)
    requires mode != Netns(true) && Run(mode, actions).Some?
    ensures !Run(mode, actions).value.child.Configuring?
  {
    RunKeepsInv(mode, actions);
  }

  // ----- the exit status -----

  /** The child is killed, or a call fails that the process does not survive; the results of the closes are
      ignored. */
  predicate Fault(s: State, a: Action) {
    match a
    case KillChild => true
    case ChildStep(ok) => !ok && (s.child.Entering? || s.child.Opening? || s.child.Configuring? || s.child.Sending?)
    case ParentStep(ok) => !ok && !s.parent.Closing?
    case _ => false
  }

  predicate FaultAt(mode: Mode, actions: seq<Action>, i: nat) {
    i < |actions| && Run(mode, actions[..i]).Some? && Fault(Run(mode, actions[..i]).value, actions[i])
  }

  ghost predicate Faulty(mode: Mode, actions: seq<Action>) {
    exists i: nat :: FaultAt(mode, actions, i)
  }

  /** Neither process has failed so far. */
  predicate Clean(s: State) {
    !ChildFailed(s.child) && (s.parent.Done? ==> s.parent.status == 0)
  }

  lemma CleanStep(s: State, a: Action)
    requires Inv(s) && Step(s, a).Some?
    ensures Clean(Step(s, a).value) <==> Clean(s) && !Fault(s, a)
  {
    match a
    case ChildStep(ok) =>
    case ParentStep(ok) =>
    case KillChild =>
    case ClientConnects =>
    case WaitInterrupted =>
  }

  lemma FaultySnoc(mode: Mode, actions: seq<Action>, a: Action)
    ensures Faulty(mode, actions + [a]) <==>
              Faulty(mode, actions) || (Run(mode, actions).Some? && Fault(Run(mode, actions).value, a))
  {
    hide Run;
    hide Fault;
    var more := actions + [a];
    assert forall i | 0 <= i <= |actions| :: more[..i] == actions[..i];
    assert more[..|actions|] == actions && actions[..|actions|] == actions;
    if Faulty(mode, actions) {
      var i: nat :| FaultAt(mode, actions, i);
      assert FaultAt(mode, more, i);
    }
    if Run(mode, actions).Some? && Fault(Run(mode, actions).value, a) {
      assert FaultAt(mode, more, |actions|);
    }
    if Faulty(mode, more) {
      var i: nat :| FaultAt(mode, more, i);
      if i < |actions| {
        assert FaultAt(mode, actions, i);
      }
    }
  }

  lemma {:induction false} CleanMeansNoFault(mode: Mode, actions: seq<Action>)
    requires Run(mode, actions).Some?
    ensures Clean(Run(mode, actions).value) <==> !Faulty(mode, actions)
    decreases |actions|
  {
    hide Step;
    hide Inv;
    hide Fault;
    if actions != [] {
      var front, last := actions[..|actions| - 1], actions[|actions| - 1];
      assert actions == front + [last];
      RunKeepsInv(mode, front);
      CleanMeansNoFault(mode, front);
      CleanStep(Run(mode, front).value, last);
      FaultySnoc(mode, front, last);
    }
  }

  lemma CleanEnd(s: State)
    requires Inv(s) && s.parent.Done?
    ensures Clean(s) <==> s.parent.status == 0
  {
  }

  /** Where a run stops, the exit status is 0 exactly when no call failed that a process does not survive and
      the child was not killed: every such failure of either process, configuring included, is fatal, and
      nothing else is. */
  lemma ExitStatusMeaning(mode: Mode, actions: seq<Action>)
    requires Run(mode, actions).Some? && Halted(Run(mode, actions).value)
    ensures Run(mode, actions).value.parent.Done?
    ensures Run(mode, actions).value.parent.status == 0 <==> !Faulty(mode, actions)
  {
    hide Run;
    hide Inv;
    hide Faulty;
    HaltedMeansFinal(mode, actions);
    hide Halted;
    RunKeepsInv(mode, actions);
    CleanEnd(Run(mode, actions).value);
    CleanMeansNoFault(mode, actions);
  }
}
