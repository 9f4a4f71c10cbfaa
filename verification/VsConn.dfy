/**
  The visa-service connection: dial, serve commands, wait, dial again.

  Time, the network and the callers are an input script: each entry is the branch that a
  `select!` takes next, together with the outcome of the RPC it leads to.  An input that
  the current phase does not wait for changes nothing.
 */
module VsConn {
  import opened Wrappers

  datatype StateFlag = NoState | HasState

  datatype Event = RunLoopStarts | ConnectedToVsApi(flag: StateFlag) | RunLoopExits

  type CommandId = nat
  type Handle = nat

  /** The commands; all but the first two carry a reply channel, named by `id`. */
  datatype Command =
    | Stop(deregister: bool)
    | Restart
    | Connect(id: CommandId, flag: StateFlag)
    | Open(id: CommandId, flag: StateFlag)
    | Reauthenticate(id: CommandId)
    | Call(id: CommandId)     // visa requests, registration, authorization, disconnect notices, pings

  predicate BearsReply(cmd: Command) {
    !cmd.Stop? && !cmd.Restart?
  }

  datatype Rpc = Failed | Succeeded(handle: Handle)

  datatype Input =
    | Dialed(ok: bool)                      // TCP, socket options and TLS
    | Received(cmd: Command, rpc: Rpc)
    | ChannelClosed
    | PingTimer(ok: bool)                   // the ping's outcome, if the timer leads to one
    | DelayOver

  datatype Reply = Answered(ok: bool) | Rejected | ConnClosed

  datatype Resolution = Resolution(id: CommandId, reply: Reply)

  /** A request to the service: by a command, or by the ping timer. */
  datatype Served = Served(command: Option<CommandId>, handle: Handle)

  datatype Phase = Dialing | Running(handle: Option<Handle>, pingFailures: nat) | Delaying | Done

  datatype State = State(phase: Phase, events: seq<Event>, resolved: seq<Resolution>, served: seq<Served>)

  const INITIAL := State(Dialing, [], [], [])
  const MAX_PING_FAILURES: nat := 2

  // ---------------------------------------------------------------------------------------
  // One step

  function Emit(s: State, e: Event): State {
    s.(events := s.events + [e])
  }

  function Resolve(s: State, id: CommandId, reply: Reply): State {
    s.(resolved := s.resolved + [Resolution(id, reply)])
  }

  function Serve(s: State, command: Option<CommandId>, handle: Handle): State {
    s.(served := s.served + [Served(command, handle)])
  }

  /** A command taken off the queue outside the run loop. */
  function DropCommand(s: State, cmd: Command): State {
    if BearsReply(cmd) then Resolve(s, cmd.id, ConnClosed) else s
  }

  /** The run loop ends; `phase` says what the manager does next. */
  function Exit(s: State, phase: Phase): State {
    Emit(s, RunLoopExits).(phase := phase)
  }

  function Establish(s: State, id: CommandId, flag: StateFlag, rpc: Rpc): State
    requires s.phase.Running?
  {
    if s.phase.handle.Some? then
      Resolve(s, id, Rejected)
    else match rpc
      case Failed => Resolve(s, id, Answered(false))
      case Succeeded(h) =>
        Resolve(Emit(s.(phase := s.phase.(handle := Some(h))), ConnectedToVsApi(flag)), id, Answered(true))
  }

  function HandleCommand(s: State, cmd: Command, rpc: Rpc): State
    requires s.phase.Running?
  {
    var handle := s.phase.handle;
    match cmd
    case Stop(deregister) =>
      if deregister && handle.Some? then
        Exit(Serve(s, None, handle.value), if rpc.Failed? then Delaying else Done)
      else
        Exit(s, Done)
    case Restart => Exit(s, Delaying)
    case Connect(id, flag) => Establish(s, id, flag, rpc)
    case Open(id, flag) => Establish(s, id, flag, rpc)
    case Reauthenticate(id) =>
      if handle.None? then Resolve(s, id, Rejected)
      else (match rpc
            case Failed => Resolve(s, id, Answered(false))
            case Succeeded(h) => Resolve(s.(phase := s.phase.(handle := Some(h))), id, Answered(true)))
    case Call(id) =>
      if handle.None? then Resolve(s, id, Rejected)
      else Resolve(Serve(s, Some(id), handle.value), id, Answered(rpc.Succeeded?))
  }

  function FirePing(s: State, ok: bool): State
    requires s.phase.Running?
  {
    var Running(handle, failures) := s.phase;
    if handle.None? then
      s.(phase := Running(None, 0))
    else
      var s' := Serve(s, None, handle.value);
      if ok then s'.(phase := Running(handle, 0))
      else if failures + 1 >= MAX_PING_FAILURES then Exit(s', Delaying)
      else s'.(phase := Running(handle, failures + 1))
  }

  function Step(s: State, input: Input): State {
    match s.phase
    case Done => s
    case Dialing =>
      (match input
       case Dialed(ok) => if ok then Emit(s, RunLoopStarts).(phase := Running(None, 0)) else s.(phase := Delaying)
       case Received(cmd, _) => if cmd.Stop? then Exit(s, Done) else DropCommand(s, cmd)
       case ChannelClosed => Exit(s, Done)
       case _ => s)
    case Running(_, _) =>
      (match input
       case Received(cmd, rpc) => HandleCommand(s, cmd, rpc)
       case ChannelClosed => Exit(s, Done)
       case PingTimer(ok) => FirePing(s, ok)
       case _ => s)
    case Delaying =>
      (match input
       case Received(cmd, _) => if cmd.Stop? then s.(phase := Done) else DropCommand(s, cmd)
       case ChannelClosed => s.(phase := Done)
       case DelayOver => s.(phase := Dialing)
       case _ => s)
  }

  function Exec(inputs: seq<Input>): State {
    if inputs == [] then INITIAL
    else Step(Exec(inputs[..|inputs| - 1]), inputs[|inputs| - 1])
  }

  /** The state before input `n`. */
  function At(inputs: seq<Input>, n: nat): State
    requires n <= |inputs|
  {
    Exec(inputs[..n])
  }

  lemma ExecStep(inputs: seq<Input>, n: nat)
    requires n < |inputs|
    ensures At(inputs, n + 1) == Step(At(inputs, n), inputs[n])
  {
    assert inputs[..n + 1][..n] == inputs[..n];
  }

  // ---------------------------------------------------------------------------------------
  // Whole runs

  ghost predicate StepAt(states: seq<State>, inputs: seq<Input>, n: nat)
    requires n < |inputs| && |states| == |inputs| + 1
  {
    states[n + 1] == Step(states[n], inputs[n])
  }

  /** The states of a run: `states[n]` is the one before input `n`. */
  ghost predicate IsRun(states: seq<State>, inputs: seq<Input>) {
    && |states| == |inputs| + 1 && states[0] == INITIAL
    && forall n: nat :: n < |inputs| ==> StepAt(states, inputs, n)
  }

  /** Every input script has its run, and `Exec` is where it ends. */
  lemma {:induction false} RunOf(inputs: seq<Input>) returns (states: seq<State>)
    ensures IsRun(states, inputs) && states[|inputs|] == Exec(inputs)
  {
    states := [INITIAL];
    if inputs != [] {
      var n := |inputs| - 1;
      var before := RunOf(inputs[..n]);
      states := before + [Step(before[n], inputs[n])];
      forall k: nat | k < |inputs| ensures StepAt(states, inputs, k) {
        assert k < n ==> StepAt(before, inputs[..n], k);
      }
    }
  }
}
