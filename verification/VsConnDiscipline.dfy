/** How run loops end, who answers commands, and which handle serves them, on every run. */
module VsConnDiscipline {
  import opened VsConn
  import opened Wrappers

  // ---------------------------------------------------------------------------------------
  // Ping failures

  predicate Connected(phase: Phase) {
    phase.Running? && phase.handle.Some?
  }

  /** The ping at input `m` failed, and up to input `n` the loop ran on without a good one. */
  ghost predicate FailedPingSince(states: seq<State>, inputs: seq<Input>, m: nat, n: nat)
    requires |states| == |inputs| + 1
  {
    && m < n <= |inputs| && inputs[m] == PingTimer(false) && Connected(states[m].phase)
    && (forall k :: m < k <= n ==> states[k].phase.Running?)
    && (forall k :: m < k < n ==> inputs[k] != PingTimer(true))
  }

  ghost predicate PingFailed(states: seq<State>, inputs: seq<Input>, n: nat)
    requires |states| == |inputs| + 1
  {
    exists m: nat :: FailedPingSince(states, inputs, m, n)
  }

  /** The loop's counter says whether a ping has failed since the last good one. */
  ghost predicate Counts(states: seq<State>, inputs: seq<Input>, n: nat)
    requires |states| == |inputs| + 1 && n <= |inputs|
  {
    states[n].phase.Running? ==>
      && states[n].phase.pingFailures <= 1
      && (states[n].phase.pingFailures == 1 ==> Connected(states[n].phase))
      && (states[n].phase.pingFailures == 1 <==> PingFailed(states, inputs, n))
  }

  lemma {:induction false} FailuresSinceSuccess(states: seq<State>, inputs: seq<Input>, n: nat)
    requires IsRun(states, inputs) && n <= |inputs|
    ensures Counts(states, inputs, n)
  {
    if n > 0 {
      FailuresSinceSuccess(states, inputs, n - 1);
      assert StepAt(states, inputs, n - 1);
      CountsStep(states, inputs, n - 1);
    }
  }

  /** How one step moves the counter. */
  lemma FailureStep(s: State, input: Input)
    requires Step(s, input).phase.Running?
    ensures var f := Step(s, input).phase.pingFailures;
            if !s.phase.Running? then f == 0
            else if !input.PingTimer? then f == s.phase.pingFailures
            else if input.ok || !Connected(s.phase) then f == 0
            else f == s.phase.pingFailures + 1 && f < MAX_PING_FAILURES
    ensures Connected(s.phase) ==> Connected(Step(s, input).phase)
  {
  }

  lemma CountsStep(states: seq<State>, inputs: seq<Input>, n: nat)
    requires |states| == |inputs| + 1 && n < |inputs| && StepAt(states, inputs, n) && Counts(states, inputs, n)
    ensures Counts(states, inputs, n + 1)
  {
    if states[n + 1].phase.Running? {
      FailureStep(states[n], inputs[n]);
      assert FailedPingSince(states, inputs, n, n + 1) <==> inputs[n] == PingTimer(false) && Connected(states[n].phase);
      forall m: nat | m < n
        ensures FailedPingSince(states, inputs, m, n + 1) <==>
                FailedPingSince(states, inputs, m, n) && inputs[n] != PingTimer(true)
      {
        SinceStep(states, inputs, m, n);
      }
      if PingFailed(states, inputs, n) {
        var m: nat :| FailedPingSince(states, inputs, m, n);
        assert FailedPingSince(states, inputs, m, n + 1) <==> inputs[n] != PingTimer(true);
      }
      if PingFailed(states, inputs, n + 1) {
        var m: nat :| FailedPingSince(states, inputs, m, n + 1);
        assert m < n ==> FailedPingSince(states, inputs, m, n);
      }
    }
  }

  lemma SinceStep(states: seq<State>, inputs: seq<Input>, m: nat, n: nat)
    requires |states| == |inputs| + 1 && m < n < |inputs| && states[n + 1].phase.Running?
    ensures FailedPingSince(states, inputs, m, n + 1) <==>
            FailedPingSince(states, inputs, m, n) && inputs[n] != PingTimer(true)
  {
  }

  predicate EndsLoop(input: Input) {
    input.ChannelClosed? || (input.Received? && (input.cmd.Stop? || input.cmd.Restart?))
  }

  /**
    A started loop ends exactly on a stop, a restart, a closed channel, or a second failed
    ping with no good one since the first; so no failed call ends it.
   */
  lemma LoopEndsIff(states: seq<State>, inputs: seq<Input>, n: nat)
    requires IsRun(states, inputs) && n < |inputs| && states[n].phase.Running?
    ensures !states[n + 1].phase.Running? <==>
            EndsLoop(inputs[n]) || (inputs[n] == PingTimer(false) && PingFailed(states, inputs, n))
  {
    assert StepAt(states, inputs, n);
    FailuresSinceSuccess(states, inputs, n);
  }

  // ---------------------------------------------------------------------------------------
  // When the manager returns

  /** A stop whose deregistration RPC fails is answered with a reconnect. */
  predicate FailedDeregistration(s: State, input: Input) {
    && Connected(s.phase) && input.Received? && input.cmd == Stop(true) && input.rpc.Failed?
  }

  predicate EndsManager(s: State, input: Input) {
    input.ChannelClosed? || (input.Received? && input.cmd.Stop? && !FailedDeregistration(s, input))
  }

  lemma ManagerStep(s: State, input: Input)
    ensures Step(s, input).phase.Done? <==> s.phase.Done? || EndsManager(s, input)
  {
  }

  /** The manager has returned exactly if some input was a closed channel or an effective stop. */
  lemma {:induction false} ManagerReturnsIff(states: seq<State>, inputs: seq<Input>, n: nat)
    requires IsRun(states, inputs) && n <= |inputs|
    ensures states[n].phase.Done? <==> exists k :: 0 <= k < n && EndsManager(states[k], inputs[k])
  {
    if n > 0 {
      ManagerReturnsIff(states, inputs, n - 1);
      assert StepAt(states, inputs, n - 1);
      ManagerStep(states[n - 1], inputs[n - 1]);
    }
  }

  // ---------------------------------------------------------------------------------------
  // Replies

  /** Connects and opens want a loop that is not connected yet, everything else one that is. */
  predicate WantsHandle(cmd: Command) {
    !cmd.Connect? && !cmd.Open?
  }

  function DueReply(s: State, cmd: Command, rpc: Rpc): Reply {
    if !s.phase.Running? then ConnClosed
    else if WantsHandle(cmd) != s.phase.handle.Some? then Rejected
    else Answered(rpc.Succeeded?)
  }

  /** The answer to the command that an input takes off the queue, if one is expected. */
  function Due(s: State, input: Input): seq<Resolution> {
    if !s.phase.Done? && input.Received? && BearsReply(input.cmd)
    then [Resolution(input.cmd.id, DueReply(s, input.cmd, input.rpc))]
    else []
  }

  /** One answer for each reply-bearing command dequeued by the first `n` inputs. */
  ghost function Answers(states: seq<State>, inputs: seq<Input>, n: nat): seq<Resolution>
    requires |states| == |inputs| + 1 && n <= |inputs|
  {
    if n == 0 then [] else Answers(states, inputs, n - 1) + Due(states[n - 1], inputs[n - 1])
  }

  lemma ResolvedStep(s: State, input: Input)
    ensures Step(s, input).resolved == s.resolved + Due(s, input)
  {
  }

  /** Every command dequeued on a run is resolved exactly once, in order, with the reply that is due. */
  lemma {:induction false} ResolvedOnce(states: seq<State>, inputs: seq<Input>, n: nat)
    requires IsRun(states, inputs) && n <= |inputs|
    ensures states[n].resolved == Answers(states, inputs, n)
  {
    if n > 0 {
      ResolvedOnce(states, inputs, n - 1);
      assert StepAt(states, inputs, n - 1);
      ResolvedStep(states[n - 1], inputs[n - 1]);
    }
  }

  // ---------------------------------------------------------------------------------------
  // The handle

  /** The handle that an input establishes in a state. */
  function Establishes(s: State, input: Input): Option<Handle> {
    if s.phase.Running? && input.Received? && input.rpc.Succeeded? &&
       (if s.phase.handle.None? then input.cmd.Connect? || input.cmd.Open? else input.cmd.Reauthenticate?)
    then Some(input.rpc.handle)
    else None
  }

  /** Input `m` established `h`, and nothing did since, in the same generation of the loop. */
  ghost predicate LatestEstablished(states: seq<State>, inputs: seq<Input>, m: nat, n: nat, h: Handle)
    requires |states| == |inputs| + 1
  {
    && m < n <= |inputs| && Establishes(states[m], inputs[m]) == Some(h)
    && (forall k :: m <= k <= n ==> states[k].phase.Running?)
    && (forall k :: m < k < n ==> Establishes(states[k], inputs[k]).None?)
  }

  /** A loop that goes on has the handle of this input, if that established one, or the one it had. */
  lemma HandleStep(s: State, input: Input)
    ensures Connected(Step(s, input).phase) ==> s.phase.Running?
    ensures s.phase.Running? && Step(s, input).phase.Running? ==>
              Step(s, input).phase.handle ==
              if Establishes(s, input).Some? then Establishes(s, input) else s.phase.handle
  {
  }

  lemma {:induction false} HandleIsLatest(states: seq<State>, inputs: seq<Input>, n: nat)
    requires IsRun(states, inputs) && n <= |inputs| && Connected(states[n].phase)
    ensures exists m: nat :: LatestEstablished(states, inputs, m, n, states[n].phase.handle.value)
  {
    if n > 0 {
      assert StepAt(states, inputs, n - 1);
      HandleStep(states[n - 1], inputs[n - 1]);
      var h := states[n].phase.handle.value;
      if Establishes(states[n - 1], inputs[n - 1]).Some? {
        assert LatestEstablished(states, inputs, n - 1, n, h);
      } else {
        HandleIsLatest(states, inputs, n - 1);
        var m: nat :| LatestEstablished(states, inputs, m, n - 1, h);
        assert LatestEstablished(states, inputs, m, n, h);
      }
    }
  }

  lemma {:induction false} EstablishedIsHeld(states: seq<State>, inputs: seq<Input>, m: nat, n: nat, h: Handle)
    requires IsRun(states, inputs) && LatestEstablished(states, inputs, m, n, h)
    ensures states[n].phase.Running? && states[n].phase.handle == Some(h)
    decreases n
  {
    assert StepAt(states, inputs, n - 1);
    HandleStep(states[n - 1], inputs[n - 1]);
    if m < n - 1 {
      assert LatestEstablished(states, inputs, m, n - 1, h);
      EstablishedIsHeld(states, inputs, m, n - 1, h);
    }
  }

  /** A loop holds a handle exactly if that is the one established last in its generation. */
  lemma HandleIff(states: seq<State>, inputs: seq<Input>, n: nat, h: Handle)
    requires IsRun(states, inputs) && n <= |inputs|
    ensures states[n].phase.Running? && states[n].phase.handle == Some(h) <==>
            exists m: nat :: LatestEstablished(states, inputs, m, n, h)
  {
    if states[n].phase.Running? && states[n].phase.handle == Some(h) {
      HandleIsLatest(states, inputs, n);
    }
    forall m: nat | LatestEstablished(states, inputs, m, n, h)
      ensures states[n].phase.Running? && states[n].phase.handle == Some(h)
    {
      EstablishedIsHeld(states, inputs, m, n, h);
    }
  }

  /** The command behind the request that an input leads to: calls have one, pings and deregistrations none. */
  function Requests(s: State, input: Input): seq<Served> {
    if !Connected(s.phase) then []
    else if input.Received? && input.cmd.Call? then [Served(Some(input.cmd.id), s.phase.handle.value)]
    else if input.PingTimer? || (input.Received? && input.cmd == Stop(true)) then [Served(None, s.phase.handle.value)]
    else []
  }

  /** A step makes at most one request, with the loop's handle. */
  lemma ServedStep(s: State, input: Input)
    ensures Step(s, input).served == s.served + Requests(s, input)
  {
  }

  /** Request `i` was made at input `k`, with the handle established at input `m`. */
  ghost predicate ServedAt(states: seq<State>, inputs: seq<Input>, i: nat, k: nat, m: nat)
    requires |states| == |inputs| + 1
  {
    && k < |inputs| && |states[k].served| == i < |states[k + 1].served|
    && LatestEstablished(states, inputs, m, k, states[k + 1].served[i].handle)
  }

  /** Every request on a run uses the handle established last in its generation. */
  lemma {:induction false} ServedByLatest(states: seq<State>, inputs: seq<Input>, i: nat, n: nat)
    requires IsRun(states, inputs) && n <= |inputs| && i < |states[n].served|
    ensures exists k: nat, m: nat :: ServedAt(states, inputs, i, k, m) && k < n &&
                                     states[k + 1].served[i] == states[n].served[i]
  {
    if n > 0 {
      assert StepAt(states, inputs, n - 1);
      ServedStep(states[n - 1], inputs[n - 1]);
      if i < |states[n - 1].served| {
        ServedByLatest(states, inputs, i, n - 1);
      } else {
        HandleIsLatest(states, inputs, n - 1);
        var m: nat :| LatestEstablished(states, inputs, m, n - 1, states[n - 1].phase.handle.value);
        assert ServedAt(states, inputs, i, n - 1, m);
      }
    }
  }
}
