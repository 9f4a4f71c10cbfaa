/** When the manager dials, runs and waits, and which events it sends, on every run. */
module VsConnPhases {
  import opened VsConn
  import opened VsConnDiscipline
  import opened Wrappers

  // ---------------------------------------------------------------------------------------
  // Loops start

  lemma StartStep(s: State, input: Input)
    ensures var t := Step(s, input);
            && (!s.phase.Running? && t.phase.Running? <==> s.phase.Dialing? && input == Dialed(true))
            && (s.phase.Dialing? && input == Dialed(true) ==>
                  t.phase == Running(None, 0) && t.events == s.events + [RunLoopStarts])
  {
  }

  /** A loop starts exactly on a successful dial, with no handle and no ping failures, and says so. */
  lemma LoopStartsIff(states: seq<State>, inputs: seq<Input>, n: nat)
    requires IsRun(states, inputs) && n < |inputs|
    ensures !states[n].phase.Running? && states[n + 1].phase.Running? <==>
            states[n].phase.Dialing? && inputs[n] == Dialed(true)
    ensures states[n].phase.Dialing? && inputs[n] == Dialed(true) ==>
              states[n + 1].phase == Running(None, 0) && states[n + 1].events == states[n].events + [RunLoopStarts]
  {
    assert StepAt(states, inputs, n);
    StartStep(states[n], inputs[n]);
  }

  // ---------------------------------------------------------------------------------------
  // Dialing

  predicate IsStop(input: Input) {
    input.ChannelClosed? || (input.Received? && input.cmd.Stop?)
  }

  /** Dialing from the very start, or since a delay was over, without a result or an end. */
  ghost predicate DialingSince(states: seq<State>, inputs: seq<Input>, m: nat, n: nat)
    requires |states| == |inputs| + 1
  {
    && m <= n <= |inputs|
    && (m == 0 || (states[m - 1].phase.Delaying? && inputs[m - 1] == DelayOver))
    && forall k :: m <= k < n ==> !inputs[k].Dialed? && !IsStop(inputs[k])
  }

  lemma DialStep(s: State, input: Input)
    ensures Step(s, input).phase.Dialing? <==>
            || (s.phase.Dialing? && !input.Dialed? && !IsStop(input))
            || (s.phase.Delaying? && input == DelayOver)
  {
  }

  ghost predicate Dials(states: seq<State>, inputs: seq<Input>, n: nat)
    requires |states| == |inputs| + 1
  {
    exists m: nat :: DialingSince(states, inputs, m, n)
  }

  lemma DialsExtends(states: seq<State>, inputs: seq<Input>, k: nat)
    requires |states| == |inputs| + 1 && k < |inputs|
    ensures Dials(states, inputs, k + 1) <==>
            || (states[k].phase.Delaying? && inputs[k] == DelayOver)
            || (Dials(states, inputs, k) && !inputs[k].Dialed? && !IsStop(inputs[k]))
  {
    if Dials(states, inputs, k + 1) {
      var m: nat :| DialingSince(states, inputs, m, k + 1);
      if m <= k {
        assert DialingSince(states, inputs, m, k);
      }
    }
    if states[k].phase.Delaying? && inputs[k] == DelayOver {
      assert DialingSince(states, inputs, k + 1, k + 1);
    }
    if Dials(states, inputs, k) && !inputs[k].Dialed? && !IsStop(inputs[k]) {
      var m: nat :| DialingSince(states, inputs, m, k);
      assert DialingSince(states, inputs, m, k + 1);
    }
  }

  /** The manager is dialing exactly from the start, or since a delay was over, until a result or an end. */
  lemma {:induction false} DialingIff(states: seq<State>, inputs: seq<Input>, n: nat)
    requires IsRun(states, inputs) && n <= |inputs|
    ensures states[n].phase.Dialing? <==> Dials(states, inputs, n)
  {
    if n == 0 {
      assert DialingSince(states, inputs, 0, 0);
    } else {
      assert StepAt(states, inputs, n - 1);
      DialStep(states[n - 1], inputs[n - 1]);
      DialingIff(states, inputs, n - 1);
      DialsExtends(states, inputs, n - 1);
    }
  }

  // ---------------------------------------------------------------------------------------
  // Waiting

  /** The loop ends at input `n` in a way that makes the manager dial again. */
  ghost predicate LoopFails(states: seq<State>, inputs: seq<Input>, n: nat)
    requires |states| == |inputs| + 1 && n < |inputs|
  {
    && states[n].phase.Running? && !EndsManager(states[n], inputs[n])
    && (EndsLoop(inputs[n]) || (inputs[n] == PingTimer(false) && PingFailed(states, inputs, n)))
  }

  /** Waiting since a failed dial or a failed loop, with the delay not over and no end. */
  ghost predicate DelayingSince(states: seq<State>, inputs: seq<Input>, m: nat, n: nat)
    requires |states| == |inputs| + 1
  {
    && m < n <= |inputs|
    && ((states[m].phase.Dialing? && inputs[m] == Dialed(false)) || LoopFails(states, inputs, m))
    && forall k :: m < k < n ==> inputs[k] != DelayOver && !IsStop(inputs[k])
  }

  lemma DelayStep(s: State, input: Input)
    ensures var t := Step(s, input);
            t.phase.Delaying? <==>
            || (s.phase.Delaying? && input != DelayOver && !IsStop(input))
            || (s.phase.Dialing? && input == Dialed(false))
            || (s.phase.Running? && !t.phase.Running? && !EndsManager(s, input))
  {
  }

  ghost predicate Waits(states: seq<State>, inputs: seq<Input>, n: nat)
    requires |states| == |inputs| + 1
  {
    exists m: nat :: DelayingSince(states, inputs, m, n)
  }

  lemma WaitsExtends(states: seq<State>, inputs: seq<Input>, k: nat)
    requires |states| == |inputs| + 1 && k < |inputs|
    ensures Waits(states, inputs, k + 1) <==>
            || (states[k].phase.Dialing? && inputs[k] == Dialed(false))
            || LoopFails(states, inputs, k)
            || (Waits(states, inputs, k) && inputs[k] != DelayOver && !IsStop(inputs[k]))
  {
    if Waits(states, inputs, k + 1) {
      var m: nat :| DelayingSince(states, inputs, m, k + 1);
      if m < k {
        assert DelayingSince(states, inputs, m, k);
      }
    }
    if (states[k].phase.Dialing? && inputs[k] == Dialed(false)) || LoopFails(states, inputs, k) {
      assert DelayingSince(states, inputs, k, k + 1);
    }
    if Waits(states, inputs, k) && inputs[k] != DelayOver && !IsStop(inputs[k]) {
      var m: nat :| DelayingSince(states, inputs, m, k);
      assert DelayingSince(states, inputs, m, k + 1);
    }
  }

  /** The manager waits exactly since a failed dial or loop, until the delay is over or an end. */
  lemma {:induction false} DelayingIff(states: seq<State>, inputs: seq<Input>, n: nat)
    requires IsRun(states, inputs) && n <= |inputs|
    ensures states[n].phase.Delaying? <==> Waits(states, inputs, n)
  {
    if n > 0 {
      assert StepAt(states, inputs, n - 1);
      DelayStep(states[n - 1], inputs[n - 1]);
      if states[n - 1].phase.Running? {
        LoopEndsIff(states, inputs, n - 1);
      }
      DelayingIff(states, inputs, n - 1);
      WaitsExtends(states, inputs, n - 1);
    }
  }

  // ---------------------------------------------------------------------------------------
  // Events

  predicate Connects(s: State, input: Input) {
    && s.phase.Running? && s.phase.handle.None?
    && input.Received? && input.rpc.Succeeded? && (input.cmd.Connect? || input.cmd.Open?)
  }

  predicate Exits(s: State, t: State) {
    (s.phase.Running? && !t.phase.Running?) || (s.phase.Dialing? && t.phase.Done?)
  }

  lemma EventStep(s: State, input: Input)
    ensures var t := Step(s, input);
            t.events == s.events +
            if s.phase.Dialing? && input == Dialed(true) then [RunLoopStarts]
            else if Connects(s, input) then [ConnectedToVsApi(input.cmd.flag)]
            else if Exits(s, t) then [RunLoopExits]
            else []
  {
  }

  /**
    The events of an input: a start on a successful dial, a connection with the flag of its
    own command, an exit when a loop ends or a dial is cut off by an end; and no others.
   */
  lemma EventsIff(states: seq<State>, inputs: seq<Input>, n: nat)
    requires IsRun(states, inputs) && n < |inputs|
    ensures var before, after := states[n].events, states[n + 1].events;
            && (after == before + [RunLoopStarts] <==> states[n].phase.Dialing? && inputs[n] == Dialed(true))
            && (forall flag :: after == before + [ConnectedToVsApi(flag)] <==>
                                 Connects(states[n], inputs[n]) && inputs[n].cmd.flag == flag)
            && (after == before + [RunLoopExits] <==> Exits(states[n], states[n + 1]))
            && (after == before || exists e :: after == before + [e])
  {
    assert StepAt(states, inputs, n);
    EventStep(states[n], inputs[n]);
    StartStep(states[n], inputs[n]);
    ConnectGoesOn(states[n], inputs[n]);
    var before, after := states[n].events, states[n + 1].events;
    assert after != before ==> after == before + [after[|before|]];
    forall e: Event, e' | before + [e] == before + [e'] ensures e == e' {
      assert (before + [e])[|before|] == e && (before + [e'])[|before|] == e';
    }
  }

  lemma ConnectGoesOn(s: State, input: Input)
    ensures Connects(s, input) ==> Step(s, input).phase.Running?
  {
  }
}
