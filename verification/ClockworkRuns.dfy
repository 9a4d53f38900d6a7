/** What every run of one connection keeps: conservation of its command queue, the
    pending refresh behind `Sent`, and the fresh snapshot behind `Reload` and `Done`. */
module ClockworkRuns {
  import opened Common
  import opened Clockwork

  function Messages(departed: seq<Departure>): (messages: seq<Message>)
    ensures |messages| == |departed|
    ensures forall i :: 0 <= i < |messages| ==> messages[i] == departed[i].message
  {
    seq(|departed|, i requires 0 <= i < |departed| => departed[i].message)
  }

  /** Nothing queued is lost, duplicated or reordered: what left the queue followed by
      what is still in it is exactly what was ever queued. So the message at position `i`
      of `departed` is the `i`-th message ever queued, and the one at position `i` of
      `messages` is the `|departed| + i`-th. */
  predicate Conserved(l: Link) {
    Messages(l.history.departed) + l.messages == l.history.queued
  }

  /** A pending refresh was requested after the latest ready edge, on a channel that is up. */
  predicate RefreshesCurrent(l: Link) {
    && l.history.epochStart <= |l.history.queued|
    && forall i :: 0 <= i < |l.messages| && l.messages[i].callback == DataRefresh ==>
         l.channelWasReady && l.history.epochStart <= |l.history.departed| + i
  }

  predicate Inv(l: Link) {
    && l.CommandPathOk()
    && Conserved(l)
    && RefreshesCurrent(l)
    && l.startup != Starting
    && (!l.channelWasReady ==> l.startup == Init)
  }

  /** An array reply answered a refresh that was requested since the latest ready edge. */
  ghost predicate FreshSnapshot(l: Link) {
    exists i :: l.history.epochStart <= i < |l.history.departed| && IsSnapshot(l.history.departed[i])
  }

  predicate IsSnapshot(d: Departure) {
    d.message.callback == DataRefresh && d.fate == Answered(JsonArray)
  }

  ghost predicate SnapshotBehindState(l: Link) {
    l.startup in {Reload, Done} ==> l.channelWasReady && FreshSnapshot(l)
  }

  predicate NoLostRefresh(l: Link) {
    l.startup == Sent ==> HasRefresh(l.messages)
  }

  predicate SyncAllowed(e: Event) {
    e.Pass? ==> e.input.allowDataSync
  }

  /** The receive supplied a buffer, as it does whenever it succeeds. */
  predicate RealBuffer(e: Event) {
    e.Pass? ==> e.input.received != NullBuffer
  }

  // ---- one step of each kind ----

  lemma QueueKeeps(l: Link, text: string, callback: Callback)
    requires Inv(l) && (callback == DataRefresh ==> l.channelWasReady)
    ensures Inv(l.QueueMessage(text, callback))
    ensures SnapshotBehindState(l) ==> SnapshotBehindState(l.QueueMessage(text, callback))
    ensures HasRefresh(l.messages) || callback == DataRefresh ==>
              HasRefresh(l.QueueMessage(text, callback).messages)
  {
    var r := l.QueueMessage(text, callback);
    assert r.messages[..|l.messages|] == l.messages;
    assert r.messages[|l.messages|].callback == callback;
    if HasRefresh(l.messages) {
      var i :| 0 <= i < |l.messages| && l.messages[i].callback == DataRefresh;
      assert r.messages[i].callback == DataRefresh;
    }
  }

  lemma ClearKeeps(l: Link)
    requires Conserved(l)
    ensures Conserved(l.ClearMessages())
    ensures FreshSnapshot(l) ==> FreshSnapshot(l.ClearMessages())
  {
    var r := l.ClearMessages();
    assert Messages(r.history.departed) == Messages(l.history.departed) + l.messages;
    if FreshSnapshot(l) {
      var i :| l.history.epochStart <= i < |l.history.departed| && IsSnapshot(l.history.departed[i]);
      assert IsSnapshot(r.history.departed[i]);
    }
  }

  lemma PopKeeps(l: Link, fate: Fate)
    requires Inv(l) && l.messages != []
    ensures Inv(l.PopFront(fate))
    ensures FreshSnapshot(l) ==> FreshSnapshot(l.PopFront(fate))
    ensures l.messages[0].callback == DataRefresh && fate == Answered(JsonArray) ==>
              FreshSnapshot(l.PopFront(fate))
  {
    var r := l.PopFront(fate);
    var n := |l.history.departed|;
    assert Messages(r.history.departed) == Messages(l.history.departed) + [l.messages[0]];
    assert Messages(r.history.departed) + r.messages == l.history.queued;
    assert r.history.departed[n] == Departure(l.messages[0], fate);
    if FreshSnapshot(l) {
      var i :| l.history.epochStart <= i < n && IsSnapshot(l.history.departed[i]);
      assert IsSnapshot(r.history.departed[i]);
    }
    if l.messages[0].callback == DataRefresh && fate == Answered(JsonArray) {
      assert IsSnapshot(r.history.departed[n]);
    }
  }

  lemma HandleCommandKeeps(l: Link, input: PassInput)
    requires Inv(l) && l.socket.Some?
    ensures Inv(l.HandleCommand(input))
    ensures l.HandleCommand(input).channelWasReady == l.channelWasReady
    ensures SnapshotBehindState(l) ==> SnapshotBehindState(l.HandleCommand(input))
  {
    if l.commandState == WaitingResponse && !l.TimedOut(input.commandClock) {
      match input.received
      case Nothing =>
      case NullBuffer => PopKeeps(l, Discarded);
      case Text(reply) =>
        PopKeeps(l.RunCallback(l.messages[0], reply), Answered(reply));
    }
  }

  lemma ChannelEdgeKeeps(l: Link, ready: bool, now: Word)
    requires Inv(l) && l.socket.Some?
    ensures Inv(l.ChannelEdge(ready, now))
    ensures ready ==> l.ChannelEdge(ready, now).socket.Some?
    ensures l.ChannelEdge(ready, now).channelWasReady == ready
    ensures SnapshotBehindState(l) ==> SnapshotBehindState(l.ChannelEdge(ready, now))
    ensures NoLostRefresh(l) ==> NoLostRefresh(l.ChannelEdge(ready, now))
  {
    ClearKeeps(l);
  }

  lemma UpdateDataKeeps(l: Link, input: PassInput)
    requires Inv(l) && l.channelWasReady
    ensures Inv(l.UpdateData(input))
    ensures l.UpdateData(input).channelWasReady && l.UpdateData(input).socket == l.socket
    ensures SnapshotBehindState(l) && input.allowDataSync ==> SnapshotBehindState(l.UpdateData(input))
    ensures NoLostRefresh(l) ==> NoLostRefresh(l.UpdateData(input))
  {
    var armed := l.Raise(input.flag3).TakeRefreshFlag().Raise(input.flag4);
    if armed.startup == Init && input.allowDataSync {
      QueueKeeps(armed.(startup := Sent), "MODBUS REFRESH", DataRefresh);
    }
  }

  lemma ArmedKeeps(l: Link, input: PassInput)
    requires Inv(l) && l.channelWasReady
    ensures var armed := l.Raise(input.flag1).ArmRefresh(input.allowDataSync).Raise(input.flag2)
                          .Throttle(input.throttleClock);
            && Inv(armed) && armed.channelWasReady
            && (SnapshotBehindState(l) ==> SnapshotBehindState(armed))
            && (NoLostRefresh(l) ==> NoLostRefresh(armed))
  {
  }

  lemma PrepareRefreshKeeps(l: Link, input: PassInput)
    requires Inv(l) && l.channelWasReady
    ensures Inv(l.PrepareRefresh(input))
    ensures SnapshotBehindState(l) && input.allowDataSync ==> SnapshotBehindState(l.PrepareRefresh(input))
    ensures NoLostRefresh(l) ==> NoLostRefresh(l.PrepareRefresh(input))
  {
    ArmedKeeps(l, input);
    var armed := l.Raise(input.flag1).ArmRefresh(input.allowDataSync).Raise(input.flag2);
    var throttled := armed.Throttle(input.throttleClock);
    UpdateDataKeeps(throttled, input);
    assert l.PrepareRefresh(input) == throttled.UpdateData(input) || l.PrepareRefresh(input) == throttled;
  }

  /** What serving a command would do if a reply came without a buffer: it loses the refresh
      behind `Sent` exactly when the only pending refresh is the message in flight. A
      receive that succeeds always supplies a buffer, so this does not happen. */
  lemma RefreshLostExactly(l: Link, input: PassInput)
    requires Inv(l) && l.socket.Some? && NoLostRefresh(l)
    ensures NoLostRefresh(l.HandleCommand(input)) <==>
            !(l.commandState == WaitingResponse && !l.TimedOut(input.commandClock) &&
              input.received == NullBuffer && l.startup == Sent && !HasRefresh(l.messages[1..]))
  {
  }

  lemma ChannelUpKeeps(l: Link, ready: bool, input: PassInput)
    requires Inv(l) && l.socket.Some?
    ensures var served := l.ChannelUp(ready, input);
            && Inv(served)
            && (SnapshotBehindState(l) && input.allowDataSync ==> SnapshotBehindState(served))
            && (NoLostRefresh(l) && input.received != NullBuffer ==> NoLostRefresh(served))
  {
    ChannelEdgeKeeps(l, ready, input.channelClock);
    if ready {
      var edged := l.ChannelEdge(true, input.channelClock);
      PrepareRefreshKeeps(edged, input);
      var prepared := edged.PrepareRefresh(input);
      HandleCommandKeeps(prepared, input);
      if NoLostRefresh(l) { RefreshLostExactly(prepared, input); }
    }
  }

  lemma ChannelDownKeeps(l: Link)
    requires Inv(l)
    ensures Inv(l.ChannelDown()) && l.ChannelDown().startup == Init
  {
  }

  /** The status the subscription manager is left with plays no part in the invariants. */
  lemma SetupDoneKeeps(l: Link, done: bool)
    requires Inv(l)
    ensures Inv(l.(setupDone := done))
    ensures SnapshotBehindState(l) ==> SnapshotBehindState(l.(setupDone := done))
    ensures NoLostRefresh(l) ==> NoLostRefresh(l.(setupDone := done))
  {
  }

  lemma PassKeeps(l: Link, input: PassInput)
    requires Inv(l)
    ensures Inv(l.IdlePass(input))
    ensures SnapshotBehindState(l) && input.allowDataSync ==> SnapshotBehindState(l.IdlePass(input))
    ensures NoLostRefresh(l) && input.received != NullBuffer ==> NoLostRefresh(l.IdlePass(input))
  {
    var connected := if l.socket == None then l.SetupCommandInterface() else l;
    match input.check {
      case Threw => SetupDoneKeeps(connected, input.setupDoneAfter);
      case Failed =>
        ChannelDownKeeps(connected);
        SetupDoneKeeps(connected.ChannelDown(), input.setupDoneAfter);
      case Up(ready) =>
        ChannelUpKeeps(connected, ready, input);
        SetupDoneKeeps(connected.ChannelUp(ready, input), input.setupDoneAfter);
    }
  }

  lemma StepKeeps(l: Link, e: Event)
    requires Inv(l)
    ensures Inv(l.Step(e))
    ensures SnapshotBehindState(l) && SyncAllowed(e) ==> SnapshotBehindState(l.Step(e))
    ensures NoLostRefresh(l) && RealBuffer(e) ==> NoLostRefresh(l.Step(e))
  {
    match e
    case Pass(input) => PassKeeps(l, input);
    case Operate(text) => QueueKeeps(l, text, Operator);
    case MonitorConnected =>
    case MonitorDisconnected =>
  }

  // ---- whole runs ----

  /** The connection after `events`, from its construction. Every run keeps the invariant:
      the queue is conserved and in order, a message waiting for a response is the front
      of the queue and was sent on the socket that is still open, and no refresh is
      pending from before the latest ready edge. */
  function Run(events: seq<Event>): (l: Link)
    ensures Inv(l)
  {
    if events == [] then Initial()
    else
      var before := Run(events[..|events| - 1]);
      var e := events[|events| - 1];
      StepKeeps(before, e);
      before.Step(e)
  }

  /** With data sync allowed, a connection in `Reload` or `Done` has processed an array
      snapshot that was both requested and answered since its latest ready edge. */
  lemma {:induction false} DoneMeansFreshSnapshot(events: seq<Event>)
    requires forall i :: 0 <= i < |events| ==> SyncAllowed(events[i])
    ensures SnapshotBehindState(Run(events))
  {
    if events != [] {
      DoneMeansFreshSnapshot(events[..|events| - 1]);
      StepKeeps(Run(events[..|events| - 1]), events[|events| - 1]);
    }
  }

  /** `Sent` always has a refresh still in the queue. */
  lemma {:induction false} RefreshNeverLost(events: seq<Event>)
    requires forall i :: 0 <= i < |events| ==> RealBuffer(events[i])
    ensures NoLostRefresh(Run(events))
  {
    if events != [] {
      RefreshNeverLost(events[..|events| - 1]);
      StepKeeps(Run(events[..|events| - 1]), events[|events| - 1]);
    }
  }

  predicate IsEdge(l: Link, e: Event) {
    e.Pass? &&
    match e.input.check
    case Threw => false
    case Failed => l.channelWasReady
    case Up(ready) => ready != l.channelWasReady
  }

  /** At most one message, the front one, was answered or discarded; none was dropped. */
  predicate ServedAtMostOne(before: History, after: History) {
    && before.queued <= after.queued
    && (|| after.departed == before.departed
        || (&& |after.departed| == |before.departed| + 1
            && before.departed <= after.departed
            && after.departed[|before.departed|].fate != Dropped))
  }

  lemma PrepareServesNone(l: Link, input: PassInput)
    ensures l.PrepareRefresh(input).history.departed == l.history.departed
    ensures l.history.queued <= l.PrepareRefresh(input).history.queued
  {
    var armed := l.Raise(input.flag1).ArmRefresh(input.allowDataSync).Raise(input.flag2);
    var throttled := armed.Throttle(input.throttleClock);
    UpdateServesNone(throttled, input);
  }

  lemma UpdateServesNone(l: Link, input: PassInput)
    ensures l.UpdateData(input).history.departed == l.history.departed
    ensures l.history.queued <= l.UpdateData(input).history.queued
  {
    var taken := l.Raise(input.flag3).TakeRefreshFlag().Raise(input.flag4);
    assert taken.RequestSnapshot(input.allowDataSync).history.departed == l.history.departed;
  }

  lemma HandleServesOne(l: Link, input: PassInput)
    requires l.CommandPathOk() && l.socket.Some?
    ensures ServedAtMostOne(l.history, l.HandleCommand(input).history)
  {
  }

  lemma SteadyChannelServesOne(l: Link, input: PassInput)
    requires l.CommandPathOk() && l.socket.Some? && l.channelWasReady
    ensures ServedAtMostOne(l.history, l.ChannelUp(true, input).history)
  {
    var edged := l.ChannelEdge(true, input.channelClock);
    assert edged.history == l.history;
    PrepareServesNone(edged, input);
    HandleServesOne(edged.PrepareRefresh(input), input);
  }

  /** A step that is not a channel edge answers or discards at most one message and
      drops none: messages are lost to the caller at lost and ready edges only. */
  lemma DropsOnlyAtEdges(l: Link, e: Event)
    requires Inv(l) && !IsEdge(l, e)
    ensures ServedAtMostOne(l.history, l.Step(e).history)
  {
    if e.Pass? && e.input.check == Up(true) {
      SteadyChannelServesOne(if l.socket == None then l.SetupCommandInterface() else l, e.input);
    }
  }

  /** A pass over a ready channel that has just become ready, or whose refresh flag is up,
      leaves a snapshot request in the queue, whatever the transport does; after a ready
      edge the connection waits for that one. */
  lemma ReadyPassRequests(l: Link, input: PassInput)
    requires Inv(l) && input.check == Up(true) && input.allowDataSync
    requires !l.channelWasReady || l.needsRefresh || input.flag1
    ensures HasRefresh(l.IdlePass(input).messages)
    ensures !l.channelWasReady ==> l.IdlePass(input).startup == Sent
  {
    hide Link.PrepareRefresh, Link.HandleCommand, Link.ChannelEdge, Conserved, RefreshesCurrent;
    var connected := if l.socket == None then l.SetupCommandInterface() else l;
    var edged := connected.ChannelEdge(true, input.channelClock);
    EdgeWants(l, connected, input.channelClock);
    PrepareRequests(edged, input);
    ServeKeepsLast(edged, edged.PrepareRefresh(input), input);
  }

  lemma EdgeWants(l: Link, connected: Link, now: Word)
    requires Inv(l) && connected == (if l.socket == None then l.SetupCommandInterface() else l)
    ensures var edged := connected.ChannelEdge(true, now);
            && edged.CommandPathOk() && edged.socket.Some?
            && (!l.channelWasReady ==> edged.startup == Init && !HasRefresh(edged.messages))
            && (l.channelWasReady ==> edged.needsRefresh == l.needsRefresh)
  {
  }

  lemma PrepareRequests(l: Link, input: PassInput)
    requires input.allowDataSync && (l.startup == Init || l.needsRefresh || input.flag1)
    ensures var prepared := l.PrepareRefresh(input);
            prepared.startup == Sent && prepared.messages == l.messages + [Message("MODBUS REFRESH", DataRefresh)]
  {
    hide Link.Throttle;
    var armed := l.Raise(input.flag1).ArmRefresh(true).Raise(input.flag2);
    ThrottleOnly(armed, input.throttleClock);
  }

  lemma ThrottleOnly(l: Link, now: Word)
    ensures l.Throttle(now) == l.(lastUpdate := l.Throttle(now).lastUpdate)
  {
  }

  /** Serving a command never takes the message that was queued last in the same pass. */
  lemma ServeKeepsLast(l: Link, prepared: Link, input: PassInput)
    requires l.CommandPathOk() && prepared.CommandPathOk() && prepared.socket.Some?
    requires l.SameCommandPath(prepared) && prepared.startup == Sent
    requires prepared.messages == l.messages + [Message("MODBUS REFRESH", DataRefresh)]
    ensures HasRefresh(prepared.HandleCommand(input).messages)
    ensures !HasRefresh(l.messages) ==> prepared.HandleCommand(input).startup == Sent
  {
    var served := prepared.HandleCommand(input);
    assert served.messages == prepared.messages || (l.messages != [] && served.messages == prepared.messages[1..]);
    assert served.messages[|served.messages| - 1] == Message("MODBUS REFRESH", DataRefresh);
  }

  /** The local timeout keeps the queue and its history, rebuilds the socket, and the
      next service sends the same message again. */
  lemma TimeoutRetries(l: Link, input: PassInput, next: PassInput)
    requires Inv(l) && l.socket.Some? && l.commandState == WaitingResponse && l.TimedOut(input.commandClock)
    requires !next.sendThrows
    ensures var rebuilt := l.HandleCommand(input);
            && rebuilt.messages == l.messages && rebuilt.history == l.history && rebuilt.startup == l.startup
            && rebuilt.socket == Some(Socket(None))
            && rebuilt.HandleCommand(next).socket == l.socket
            && rebuilt.HandleCommand(next).commandState == WaitingResponse
  {
  }

  // ---- a first pass ----

  const QUIET_PASS: PassInput :=
    PassInput(Up(true), 1, 1, 1, true, true, false, false, false, false, false, Nothing, true)

  const REFRESH: Message := Message("MODBUS REFRESH", DataRefresh)

  /** The connection after its first pass over a ready channel: one refresh in flight. */
  const REQUESTED: Link :=
    Link(Sent, Some(Socket(Some(REFRESH))), [REFRESH], WaitingResponse, 1, 0, false, true, 1, true,
         History([REFRESH], [], [Sending(0, 1)], 0))

  lemma FirstPassRequests()
    ensures Initial().IdlePass(QUIET_PASS) == REQUESTED
  {
    var edged := Initial().SetupCommandInterface().ChannelEdge(true, 1);
    assert edged == Link(Init, Some(Socket(None)), [], WaitingCommand, 0, 0, true, true, 1, true,
                         History([], [], [], 0));
    var armed := edged.Raise(false).ArmRefresh(true).Raise(false).Throttle(1);
    assert armed == edged;
    var prepared := edged.UpdateData(QUIET_PASS);
    assert prepared == Link(Sent, Some(Socket(None)), [REFRESH], WaitingCommand, 0, 0, false, true, 1, true,
                            History([REFRESH], [], [], 0));
    assert edged.PrepareRefresh(QUIET_PASS) == prepared;
  }
}
