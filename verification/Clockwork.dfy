/** One Clockwork connection: its data-refresh state, its command queue over a REQ
    socket, and the ready/lost edges of its channel. */
module Clockwork {
  import opened Common

  datatype Startup = Starting | Init | Sent | Done | Reload

  datatype CommandState = WaitingCommand | WaitingResponse

  /** The callback queued with a message: the MODBUS REFRESH one drives the startup
      state, the ones operators queue only print. */
  datatype Callback = DataRefresh | Operator

  datatype Message = Message(text: string, callback: Callback)

  /** A REQ socket and the message that was sent on it and is not yet answered. */
  datatype Socket = Socket(inFlight: Option<Message>)

  datatype Reply = FailedText | TimeoutText | NotJson | JsonArray | JsonOther

  datatype Received = Nothing | NullBuffer | Text(reply: Reply)

  datatype Fate = Answered(reply: Reply) | Discarded | Dropped

  datatype Departure = Departure(message: Message, fate: Fate)

  /** The message queued at `position` was sent at `time`. */
  datatype Sending = Sending(position: nat, time: Word)

  /** What has happened on this connection: every message ever queued, every message that
      left the queue in leaving order, every sending, and how many messages had been queued
      when the channel was last seen to become ready. */
  datatype History = History(
    queued: seq<Message>, departed: seq<Departure>, sendings: seq<Sending>, epochStart: nat)

  datatype ChannelCheck = Threw | Failed | Up(ready: bool)

  /** Everything a pass takes from outside: the subscription manager's verdict, four
      clock readings, the moments at which the monitor thread raises the refresh flag,
      the transport, and the channel status the pass leaves behind. */
  datatype PassInput = PassInput(
    check: ChannelCheck,
    channelClock: Word, throttleClock: Word, commandClock: Word,
    allowDataSync: bool, panelWorking: bool,
    flag1: bool, flag2: bool, flag3: bool, flag4: bool,
    sendThrows: bool, received: Received,
    setupDoneAfter: bool)

  datatype Event =
    | Pass(input: PassInput)
    | Operate(text: string)
    | MonitorConnected
    | MonitorDisconnected

  const REARM_GUARD_US: Word := 1_000_000
  const LOCAL_COMMAND_TIMEOUT_US: Word := 7_000_000

  function DropAll(messages: seq<Message>): (dropped: seq<Departure>)
    ensures |dropped| == |messages|
    ensures forall i :: 0 <= i < |dropped| ==> dropped[i] == Departure(messages[i], Dropped)
  {
    seq(|messages|, i requires 0 <= i < |messages| => Departure(messages[i], Dropped))
  }

  predicate HasRefresh(messages: seq<Message>) {
    exists i :: 0 <= i < |messages| && messages[i].callback == DataRefresh
  }

  datatype Link = Link(
    startup: Startup,
    socket: Option<Socket>,
    messages: seq<Message>,
    commandState: CommandState,
    commandRequestStart: Word,
    lastUpdate: Word,
    needsRefresh: bool,
    channelWasReady: bool,
    lastChannelReady: Word,
    setupDone: bool,
    history: History)
  {
    function QueueMessage(text: string, callback: Callback): Link {
      var message := Message(text, callback);
      this.(messages := messages + [message],
            history := history.(queued := history.queued + [message]))
    }

    function ResetCommandPath(): Link {
      this.(socket := None, commandState := WaitingCommand, commandRequestStart := 0)
    }

    function SetupCommandInterface(): Link {
      this.(socket := Some(Socket(None)))
    }

    function ClearMessages(): Link {
      this.(messages := [], history := history.(departed := history.departed + DropAll(messages)))
    }

    function OnChannelLost(): Link {
      ResetCommandPath().ClearMessages().(channelWasReady := false, needsRefresh := true, startup := Init)
    }

    function OnChannelBecameReady(now: Word): Link {
      if lastChannelReady != 0 && Elapsed(now, lastChannelReady) < REARM_GUARD_US then this
      else ResetCommandPath().ClearMessages().(lastChannelReady := now, needsRefresh := true, startup := Init)
    }

    /** The monitor thread may raise the refresh flag; it never lowers it. */
    function Raise(flag: bool): Link {
      this.(needsRefresh := needsRefresh || flag)
    }

    predicate TimedOut(now: Word) {
      commandRequestStart != 0 && Elapsed(now, commandRequestStart) > LOCAL_COMMAND_TIMEOUT_US
    }

    function RunCallback(message: Message, reply: Reply): Link {
      match message.callback
      case Operator => this
      case DataRefresh => this.(startup := if reply == JsonArray then Reload else Init)
    }

    function PopFront(fate: Fate): Link
      requires messages != []
    {
      this.(messages := messages[1..],
            history := history.(departed := history.departed + [Departure(messages[0], fate)]),
            socket := Some(Socket(None)), commandState := WaitingCommand, commandRequestStart := 0)
    }

    function HandleCommand(input: PassInput): Link
      requires CommandPathOk() && socket.Some?
    {
      if commandState == WaitingCommand && messages != [] then
        if input.sendThrows then this
        else this.(socket := Some(Socket(Some(messages[0]))), commandState := WaitingResponse,
                   commandRequestStart := input.commandClock,
                   history := history.(
                     sendings := history.sendings + [Sending(|history.departed|, input.commandClock)]))
      else if commandState == WaitingResponse then
        if TimedOut(input.commandClock) then ResetCommandPath().SetupCommandInterface()
        else match input.received
          case Nothing => this
          case NullBuffer => PopFront(Discarded)
          case Text(reply) => RunCallback(messages[0], reply).PopFront(Answered(reply))
      else this
    }

    /** The connection's part of the panel's periodic update. */
    function UpdateData(input: PassInput): (updated: Link)
      ensures SameCommandPath(updated)
    {
      Raise(input.flag3).TakeRefreshFlag().Raise(input.flag4)
      .RequestSnapshot(input.allowDataSync).ShowSnapshot(input.panelWorking)
    }

    function TakeRefreshFlag(): Link {
      if needsRefresh then this.(needsRefresh := false, startup := Init) else this
    }

    function RequestSnapshot(allowDataSync: bool): Link {
      if startup != Init then this
      else if !allowDataSync then this.(startup := Done)
      else this.(startup := Sent).QueueMessage("MODBUS REFRESH", DataRefresh)
    }

    function ShowSnapshot(panelWorking: bool): Link {
      if startup == Reload && panelWorking then this.(startup := Done) else this
    }

    predicate ThrottleDue(now: Word) {
      setupDone && Elapsed(now, lastUpdate) > 10000
    }

    function Throttle(now: Word): Link {
      if !ThrottleDue(now) then this
      else this.(lastUpdate := if Elapsed(now, lastUpdate) > 15000 then now
                               else (lastUpdate + 10000) % UINT64_SPAN)
    }

    /** The ready and lost edges of the channel, with the command socket rebuilt. */
    function ChannelEdge(ready: bool, now: Word): (edged: Link)
      requires CommandPathOk() && socket.Some?
      ensures edged.CommandPathOk() && (ready ==> edged.socket.Some?)
    {
      var seen := this.(setupDone := ready);
      var reached :=
        if channelWasReady && !ready then seen.OnChannelLost()
        else if !channelWasReady && ready then
          var rearmed := seen.OnChannelBecameReady(now);
          var rebuilt := if rearmed.socket == None then rearmed.SetupCommandInterface() else rearmed;
          rebuilt.(history := rebuilt.history.(epochStart := |rebuilt.history.queued|))
        else seen;
      reached.(channelWasReady := ready)
    }

    predicate DataInitPending(allowDataSync: bool) {
      allowDataSync && (needsRefresh || startup != Done)
    }

    /** Before the command is served: honour the refresh flag, then run the periodic update
        when its throttle is due or a snapshot is still wanted. */
    function PrepareRefresh(input: PassInput): (prepared: Link)
      ensures SameCommandPath(prepared)
    {
      var armed := Raise(input.flag1).ArmRefresh(input.allowDataSync).Raise(input.flag2);
      var throttled := armed.Throttle(input.throttleClock);
      if armed.ThrottleDue(input.throttleClock) || armed.DataInitPending(input.allowDataSync)
      then throttled.UpdateData(input) else throttled
    }

    function ArmRefresh(allowDataSync: bool): Link {
      if allowDataSync && (startup == Starting || needsRefresh) then this.(startup := Init) else this
    }

    /** One idle pass over this connection. */
    function IdlePass(input: PassInput): Link
      requires CommandPathOk()
    {
      var connected := if socket == None then SetupCommandInterface() else this;
      var served :=
        match input.check
        case Threw => connected
        case Failed => connected.ChannelDown()
        case Up(ready) => connected.ChannelUp(ready, input);
      served.(setupDone := input.setupDoneAfter)
    }

    function ChannelDown(): Link {
      if channelWasReady then OnChannelLost() else this
    }

    /** The subscription manager is connected: edges first, service only when it is ready. */
    function ChannelUp(ready: bool, input: PassInput): Link
      requires CommandPathOk() && socket.Some?
    {
      var edged := ChannelEdge(ready, input.channelClock);
      if ready then edged.PrepareRefresh(input).HandleCommand(input) else edged
    }

    function Step(event: Event): Link
      requires CommandPathOk()
    {
      match event
      case Pass(input) => IdlePass(input)
      case Operate(text) => QueueMessage(text, Operator)
      case MonitorConnected => Raise(true)
      case MonitorDisconnected => Raise(setupDone || channelWasReady)
    }

    /** The command in flight, and so the front of the queue, is the same in `other`. */
    predicate SameCommandPath(other: Link) {
      && other.socket == socket && other.commandState == commandState
      && other.channelWasReady == channelWasReady
      && messages <= other.messages
    }

    /** A message in flight is the front of the queue and was sent on the live socket. */
    predicate CommandPathOk() {
      && (commandState == WaitingResponse ==>
            messages != [] && socket == Some(Socket(Some(messages[0]))))
      && (commandState == WaitingCommand && socket.Some? ==> socket.value.inFlight == None)
    }
  }

  function Initial(): Link {
    Link(Init, None, [], WaitingCommand, 0, 0, false, false, 0, false, History([], [], [], 0))
  }
}
