/** `run` and `run_with_reconnect` as loops over the input script. */
module VsConnLoops {
  import opened VsConn
  import opened Wrappers

  datatype RunResult = RunOk | RunErr | OutOfInput

  class Connection {
    const script: seq<Input>
    var next: nat
    var events: seq<Event>
    var resolved: seq<Resolution>
    var served: seq<Served>

    constructor (script: seq<Input>)
      ensures this.script == script && next == 0 && Here(Dialing) == INITIAL
    {
      this.script, next := script, 0;
      events, resolved, served := [], [], [];
    }

    ghost function Here(phase: Phase): State
      reads this
    {
      State(phase, events, resolved, served)
    }

    /** The inputs consumed so far lead to the fields' values and the given phase. */
    ghost predicate Reached(phase: Phase)
      reads this
    {
      next <= |script| && At(script, next) == Here(phase)
    }

    method SendLifecycleEvent(e: Event)
      modifies this`events
      ensures events == old(events) + [e]
    {
      events := events + [e];
    }

    method Reply(id: CommandId, reply: VsConn.Reply)
      modifies this`resolved
      ensures resolved == old(resolved) + [Resolution(id, reply)]
    {
      resolved := resolved + [Resolution(id, reply)];
    }

    /** Dropping a command closes its reply channel. */
    method Drop(cmd: Command)
      modifies this`resolved
      ensures forall phase :: Here(phase) == DropCommand(old(Here(phase)), cmd)
    {
      if BearsReply(cmd) {
        Reply(cmd.id, ConnClosed);
      }
    }

    /** Handles one command with the loop's handle; an error ends the loop. */
    method HandleCommandInPlace(handle0: Option<Handle>, ghost failures: nat, cmd: Command, rpc: Rpc)
      returns (handle: Option<Handle>, ok: bool)
      modifies this`events, this`resolved, this`served
      ensures var s := HandleCommand(old(Here(Running(handle0, failures))), cmd, rpc);
              && resolved == s.resolved && served == s.served
              && (cmd.Stop? || !ok ==> events + [RunLoopExits] == s.events && s.phase == if ok then Done else Delaying)
              && (!cmd.Stop? && ok ==> events == s.events && s.phase == Running(handle, failures))
    {
      handle, ok := handle0, true;
      match cmd
      case Stop(deregister) =>
        if deregister && handle.Some? {
          served := served + [Served(None, handle.value)];
          ok := rpc.Succeeded?;
        }
      case Restart =>
        ok := false;
      case Connect(id, flag) =>
        handle := EstablishInPlace(handle0, id, flag, rpc);
      case Open(id, flag) =>
        handle := EstablishInPlace(handle0, id, flag, rpc);
      case Reauthenticate(id) =>
        if handle.None? {
          Reply(id, Rejected);
        } else {
          if rpc.Succeeded? {
            handle := Some(rpc.handle);
          }
          Reply(id, Answered(rpc.Succeeded?));
        }
      case Call(id) =>
        if handle.None? {
          Reply(id, Rejected);
        } else {
          served := served + [Served(Some(id), handle.value)];
          Reply(id, Answered(rpc.Succeeded?));
        }
    }

    method EstablishInPlace(handle0: Option<Handle>, id: CommandId, flag: StateFlag, rpc: Rpc)
      returns (handle: Option<Handle>)
      modifies this`events, this`resolved
      ensures forall failures ::
                Here(Running(handle, failures)) == Establish(old(Here(Running(handle0, failures))), id, flag, rpc)
    {
      handle := handle0;
      if handle.Some? {
        Reply(id, Rejected);
      } else {
        match rpc
        case Failed =>
          Reply(id, Answered(false));
        case Succeeded(h) =>
          handle := Some(h);
          SendLifecycleEvent(ConnectedToVsApi(flag));
          Reply(id, Answered(true));
      }
    }

    /** Waits for the dial to finish while draining commands. */
    method Dial() returns (r: RunResult, connected: bool)
      requires Reached(Dialing)
      modifies this
      ensures connected ==> Reached(Running(None, 0)) && next > old(next)
      ensures !connected && r.RunOk? ==> Reached(Done)
      ensures !connected && r.RunErr? ==> Reached(Delaying) && next > old(next)
      ensures r.OutOfInput? ==> !connected && Reached(Dialing) && next == |script|
      ensures next >= old(next)
    {
      while next < |script|
        invariant Reached(Dialing) && next >= old(next)
        decreases |script| - next
      {
        var input := script[next];
        ExecStep(script, next);
        next := next + 1;
        match input
        case Dialed(ok) =>
          if ok {
            SendLifecycleEvent(RunLoopStarts);
            return RunOk, true;
          }
          return RunErr, false;
        case ChannelClosed =>
          SendLifecycleEvent(RunLoopExits);
          return RunOk, false;
        case Received(cmd, _) =>
          if cmd.Stop? {
            SendLifecycleEvent(RunLoopExits);
            return RunOk, false;
          }
          Drop(cmd);
        case _ =>
      }
      r, connected := OutOfInput, false;
    }

    method Run() returns (r: RunResult)
      requires Reached(Dialing)
      modifies this
      ensures r.RunOk? ==> Reached(Done)
      ensures r.RunErr? ==> Reached(Delaying) && next > old(next)
      ensures r.OutOfInput? ==> next == |script| && exists phase :: Reached(phase)
      ensures next >= old(next)
    {
      var connected;
      r, connected := Dial();
      if !connected {
        return r;
      }
      r := Loop();
    }

    /** Serves commands and pings until something ends the loop. */
    method Loop() returns (r: RunResult)
      requires Reached(Running(None, 0))
      modifies this
      ensures r.RunOk? ==> Reached(Done)
      ensures r.RunErr? ==> Reached(Delaying)
      ensures r.OutOfInput? ==> next == |script| && exists phase :: Reached(phase)
      ensures next >= old(next)
    {
      var handle: Option<Handle> := None;
      var pingFailures: nat := 0;
      var exiting := false;
      while next < |script|
        invariant !exiting && Reached(Running(handle, pingFailures)) && next >= old(next)
        decreases |script| - next
      {
        var input := script[next];
        ExecStep(script, next);
        next := next + 1;
        match input
        case ChannelClosed =>
          exiting := true;
          break;
        case Received(cmd, rpc) =>
          var ok;
          handle, ok := HandleCommandInPlace(handle, pingFailures, cmd, rpc);
          if !ok {
            SendLifecycleEvent(RunLoopExits);
            return RunErr;
          }
          if cmd.Stop? {
            exiting := true;
            break;
          }
        case PingTimer(ok) =>
          if handle.None? {
            pingFailures := 0;
          } else {
            served := served + [Served(None, handle.value)];
            if ok {
              pingFailures := 0;
            } else {
              pingFailures := pingFailures + 1;
              if pingFailures >= MAX_PING_FAILURES {
                SendLifecycleEvent(RunLoopExits);
                return RunErr;
              }
            }
          }
        case _ =>
      }
      if !exiting {
        return OutOfInput;
      }
      SendLifecycleEvent(RunLoopExits);
      r := RunOk;
    }

    /** Dials again after every failure, until a stop or a closed channel. */
    method RunWithReconnect() returns (r: RunResult)
      requires next == 0 && Here(Dialing) == INITIAL
      modifies this
      ensures r.RunOk? ==> Exec(script) == Here(Done)
      ensures r.OutOfInput? ==> exists phase :: Exec(script) == Here(phase)
      ensures !r.RunErr?
    {
      while true
        invariant Reached(Dialing)
        decreases |script| - next
      {
        r := Run();
        match r
        case RunOk => DoneIsFinal(script, next); return;
        case OutOfInput => assert script[..next] == script; return;
        case RunErr =>
          var delayOver := false;
          while next < |script| && !delayOver
            invariant if delayOver then Reached(Dialing) else Reached(Delaying)
            decreases |script| - next, !delayOver
          {
            var input := script[next];
            ExecStep(script, next);
            next := next + 1;
            match input
            case ChannelClosed => DoneIsFinal(script, next); return RunOk;
            case Received(cmd, _) =>
              if cmd.Stop? {
                DoneIsFinal(script, next);
                return RunOk;
              }
              Drop(cmd);
            case DelayOver => delayOver := true;
            case _ =>
          }
          if !delayOver {
            assert script[..next] == script;
            return OutOfInput;
          }
      }
    }
  }

  lemma {:induction false} DoneIsFinal(inputs: seq<Input>, n: nat)
    requires n <= |inputs| && At(inputs, n).phase.Done?
    ensures Exec(inputs) == At(inputs, n)
    decreases |inputs| - n
  {
    if n < |inputs| {
      ExecStep(inputs, n);
      DoneIsFinal(inputs, n + 1);
    } else {
      assert inputs[..n] == inputs;
    }
  }
}
