/** The connection object: its fields are updated in place, and each method is proved
    against the step of `Clockwork.Link` it implements. */
module ClockworkConnection {
  import opened Common
  import opened Clockwork

  class Connection {
    var startup: Startup
    var cmdInterface: Option<Socket>
    var messages: seq<Message>
    var commandState: CommandState
    var commandRequestStart: Word
    var lastUpdate: Word
    var needsRefresh: bool
    var channelWasReady: bool
    var lastChannelReady: Word
    var setupDone: bool
    ghost var history: History

    ghost function View(): Link
      reads this
    {
      Link(startup, cmdInterface, messages, commandState, commandRequestStart, lastUpdate,
           needsRefresh, channelWasReady, lastChannelReady, setupDone, history)
    }

    constructor ()
      ensures View() == Initial()
    {
      startup := Init;
      cmdInterface := None;
      messages := [];
      commandState := WaitingCommand;
      commandRequestStart, lastUpdate, lastChannelReady := 0, 0, 0;
      needsRefresh, channelWasReady, setupDone := false, false, false;
      history := History([], [], [], 0);
    }

    method QueueMessage(text: string, callback: Callback)
      modifies this
      ensures View() == old(View()).QueueMessage(text, callback)
    {
      messages := messages + [Message(text, callback)];
      history := history.(queued := history.queued + [Message(text, callback)]);
    }

    method ResetCommandPath()
      modifies this
      ensures View() == old(View()).ResetCommandPath()
    {
      if cmdInterface.Some? {
        cmdInterface := None;
      }
      commandState := WaitingCommand;
      commandRequestStart := 0;
    }

    method SetupCommandInterface()
      modifies this
      ensures View() == old(View()).SetupCommandInterface()
    {
      cmdInterface := Some(Socket(None));
    }

    method ClearMessages()
      modifies this
      ensures View() == old(View()).ClearMessages()
    {
      history := history.(departed := history.departed + DropAll(messages));
      messages := [];
    }

    method OnChannelLost()
      modifies this
      ensures View() == old(View()).OnChannelLost()
    {
      ResetCommandPath();
      ClearMessages();
      channelWasReady := false;
      needsRefresh := true;
      startup := Init;
    }

    method OnChannelBecameReady(now: Word)
      modifies this
      ensures View() == old(View()).OnChannelBecameReady(now)
    {
      if lastChannelReady != 0 && Elapsed(now, lastChannelReady) < REARM_GUARD_US {
        return;
      }
      lastChannelReady := now;
      ResetCommandPath();
      ClearMessages();
      needsRefresh := true;
      startup := Init;
    }

    /** Serves the command queue: sends the front message, or waits for its response,
        retrying through a fresh socket after the local timeout. */
    method HandleCommand(input: PassInput) returns (moreToSend: bool)
      requires View().CommandPathOk() && cmdInterface.Some?
      modifies this
      ensures View() == old(View()).HandleCommand(input)
      ensures moreToSend <==> commandState == WaitingCommand && messages != []
    {
      if commandState == WaitingCommand && messages != [] {
        if input.sendThrows {
          return true;
        }
        cmdInterface := Some(Socket(Some(messages[0])));
        commandState := WaitingResponse;
        commandRequestStart := input.commandClock;
        history := history.(sendings := history.sendings + [Sending(|history.departed|, input.commandClock)]);
      } else if commandState == WaitingResponse {
        if commandRequestStart != 0 &&
           Elapsed(input.commandClock, commandRequestStart) > LOCAL_COMMAND_TIMEOUT_US {
          ResetCommandPath();
          SetupCommandInterface();
          return true;
        }
        if input.received != Nothing {
          var front := messages[0];
          if input.received.Text? && front.callback == DataRefresh {
            startup := if input.received.reply == JsonArray then Reload else Init;
          }
          history := history.(departed := history.departed +
            [Departure(front, if input.received.Text? then Answered(input.received.reply) else Discarded)]);
          messages := messages[1..];
          cmdInterface := Some(Socket(None));
          commandState := WaitingCommand;
          commandRequestStart := 0;
        }
      }
      moreToSend := commandState == WaitingCommand && messages != [];
    }

    method UpdateData(input: PassInput)
      modifies this
      ensures View() == old(View()).UpdateData(input)
    {
      Raise(input.flag3);
      if needsRefresh {
        needsRefresh := false;
        if startup != Init {
          startup := Init;
        }
      }
      Raise(input.flag4);
      RequestSnapshot(input.allowDataSync);
      if startup == Reload && input.panelWorking {
        startup := Done;
      }
    }

    /** The monitor thread raising the flag at this point of the pass, or not. */
    method Raise(flag: bool)
      modifies this
      ensures View() == old(View()).Raise(flag)
    {
      needsRefresh := needsRefresh || flag;
    }

    method RequestSnapshot(allowDataSync: bool)
      modifies this
      ensures View() == old(View()).RequestSnapshot(allowDataSync)
    {
      if startup == Init {
        if !allowDataSync {
          startup := Done;
        } else {
          startup := Sent;
          QueueMessage("MODBUS REFRESH", DataRefresh);
        }
      }
    }

    /** The 10 ms throttle of the periodic update. */
    method Throttle(now: Word) returns (due: bool)
      modifies this
      ensures due == old(View()).ThrottleDue(now)
      ensures View() == old(View()).Throttle(now)
    {
      due := setupDone && Elapsed(now, lastUpdate) > 10000;
      if due {
        lastUpdate := if Elapsed(now, lastUpdate) > 15000 then now else (lastUpdate + 10000) % UINT64_SPAN;
      }
    }

    method PrepareRefresh(input: PassInput)
      modifies this
      ensures View() == old(View()).PrepareRefresh(input)
    {
      Raise(input.flag1);
      if input.allowDataSync && (startup == Starting || needsRefresh) {
        startup := Init;
      }
      Raise(input.flag2);
      var dataInitPending := input.allowDataSync && (needsRefresh || startup != Done);
      var due := Throttle(input.throttleClock);
      if due || dataInitPending {
        UpdateData(input);
      }
    }

    method ChannelEdge(ready: bool, now: Word)
      requires View().CommandPathOk() && cmdInterface.Some?
      modifies this
      ensures View() == old(View()).ChannelEdge(ready, now)
    {
      setupDone := ready;
      if channelWasReady && !ready {
        OnChannelLost();
      } else if !channelWasReady && ready {
        OnChannelBecameReady(now);
        if cmdInterface == None {
          SetupCommandInterface();
        }
        history := history.(epochStart := |history.queued|);
      }
      channelWasReady := ready;
    }

    /** One idle pass: the command socket, the channel edges, data refresh, commands. */
    method IdlePass(input: PassInput)
      requires View().CommandPathOk()
      modifies this
      ensures View() == old(View()).IdlePass(input)
    {
      if cmdInterface == None {
        SetupCommandInterface();
      }
      match input.check {
        case Threw =>
        case Failed =>
          if channelWasReady {
            OnChannelLost();
          }
          channelWasReady := false;
        case Up(ready) =>
          ChannelUp(ready, input);
      }
      setupDone := input.setupDoneAfter;
    }

    method ChannelUp(ready: bool, input: PassInput)
      requires View().CommandPathOk() && cmdInterface.Some?
      modifies this
      ensures View() == old(View()).ChannelUp(ready, input)
    {
      ChannelEdge(ready, input.channelClock);
      if ready {
        PrepareRefresh(input);
        var _ := HandleCommand(input);
      }
    }
  }
}
