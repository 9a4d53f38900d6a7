/** What a pass over a connection does, as a table of its inputs and of what was queued and
    sent before: which message leaves the queue, what is asked for, what is sent. */
module ClockworkPasses {
  import opened Common
  import opened Clockwork
  import opened ClockworkRuns

  predicate Waiting(l: Link) { l.commandState == WaitingResponse }

  /** The message that waits for a response is the one sent last, at the recorded time. */
  predicate SentFront(l: Link) {
    Waiting(l) ==> l.history.sendings != [] && LastSending(l) == Sending(|l.history.departed|, l.commandRequestStart)
  }

  function LastSending(l: Link): Sending
    requires l.history.sendings != []
  {
    l.history.sendings[|l.history.sendings| - 1]
  }

  // ---- a channel that stays ready ----

  predicate UpdateDue(l: Link, input: PassInput) { Elapsed(input.throttleClock, l.lastUpdate) > 10_000 }

  /** A snapshot is wanted: it was not asked for yet, or a flag was raised in time. */
  predicate Wanted(l: Link, input: PassInput) {
    l.startup == Init || l.needsRefresh || input.flag1 || input.flag2 || input.flag3
  }

  /** The periodic update runs when it is due, and at once while a snapshot is on its way. */
  predicate UpdateRuns(l: Link, input: PassInput) {
    || UpdateDue(l, input)
    || (input.allowDataSync && (l.startup != Done || l.needsRefresh || input.flag1 || input.flag2))
  }

  predicate Asks(l: Link, input: PassInput) {
    input.allowDataSync && UpdateRuns(l, input) && Wanted(l, input)
  }

  function Asked(l: Link, input: PassInput): seq<Message> {
    if Asks(l, input) then [Message("MODBUS REFRESH", DataRefresh)] else []
  }

  /** The message in flight was sent more than seven seconds ago; a sending at time zero never
      expires. */
  predicate Expired(l: Link, now: Word)
    requires l.history.sendings != []
  {
    LastSending(l).time != 0 && Elapsed(now, LastSending(l).time) > 7_000_000
  }

  /** A message is in flight, its send is no more than seven seconds ago, and a reply is here. */
  predicate Replied(l: Link, input: PassInput)
    requires SentFront(l)
  {
    Waiting(l) && !Expired(l, input.commandClock) && input.received != Nothing
  }

  /** A pass sends when nothing is in flight and there is something to send. */
  predicate Sends(l: Link, input: PassInput) {
    !Waiting(l) && l.messages + Asked(l, input) != [] && !input.sendThrows
  }

  /** The startup state that the update leaves behind, before a reply is handled. */
  function Updated(l: Link, input: PassInput): Startup {
    if !UpdateRuns(l, input) then l.startup
    else if Wanted(l, input) then if input.allowDataSync then Sent else Done
    else if l.startup == Reload && input.panelWorking then Done
    else l.startup
  }

  /** Only the snapshot request, the startup state and the flag depend on the update. */
  lemma UpdateExactly(l: Link, input: PassInput)
    ensures var wanted := l.startup == Init || l.needsRefresh || input.flag3;
            var asked := if wanted && input.allowDataSync then [Message("MODBUS REFRESH", DataRefresh)] else [];
            l.UpdateData(input) ==
            l.(messages := l.messages + asked, history := l.history.(queued := l.history.queued + asked),
               needsRefresh := input.flag4,
               startup := if wanted then if input.allowDataSync then Sent else Done
                          else if l.startup == Reload && input.panelWorking then Done
                          else l.startup)
  {
    assert l.messages + [] == l.messages && l.history.queued + [] == l.history.queued;
  }

  /** Before the command is served. */
  lemma PreparedExactly(l: Link, input: PassInput)
    requires l.startup != Starting && l.setupDone
    ensures var prepared := l.PrepareRefresh(input);
            prepared ==
            l.(messages := l.messages + Asked(l, input),
               history := l.history.(queued := l.history.queued + Asked(l, input)),
               startup := Updated(l, input),
               needsRefresh :=
                 if UpdateRuns(l, input) then input.flag4 else l.needsRefresh || input.flag1 || input.flag2,
               lastUpdate := prepared.lastUpdate)
  {
    var armed := l.Raise(input.flag1).ArmRefresh(input.allowDataSync).Raise(input.flag2);
    hide Link.Throttle, Link.UpdateData;
    ThrottleOnly(armed, input.throttleClock);
    UpdateExactly(armed.Throttle(input.throttleClock), input);
    assert l.messages + [] == l.messages && l.history.queued + [] == l.history.queued;
  }

  lemma ServesExactly(l: Link, input: PassInput)
    requires l.CommandPathOk() && l.socket.Some? && SentFront(l)
    ensures var served := l.HandleCommand(input);
            var replied := Replied(l, input);
            var sends := !Waiting(l) && l.messages != [] && !input.sendThrows;
            && served.messages == (if replied then l.messages[1..] else l.messages)
            && served.history ==
               l.history.(
                 departed := l.history.departed + (if replied then [Left(l, input)] else []),
                 sendings := l.history.sendings +
                             if sends then [Sending(|l.history.departed|, input.commandClock)] else [])
            && (Waiting(served) <==> sends || (Waiting(l) && !replied && !Expired(l, input.commandClock)))
            && served.startup == (if replied then Handled(l, input, l.startup) else l.startup)
            && served.needsRefresh == l.needsRefresh && served.socket.Some? && SentFront(served)
            && served.channelWasReady == l.channelWasReady && served.lastChannelReady == l.lastChannelReady
            && served.lastUpdate == l.lastUpdate
  {
    assert l.history.departed + [] == l.history.departed && l.history.sendings + [] == l.history.sendings;
  }

  /** How the front message leaves: answered with exactly this reply. */
  function Left(l: Link, input: PassInput): Departure
    requires l.messages != []
  {
    Departure(l.messages[0], if input.received.Text? then Answered(input.received.reply) else Discarded)
  }

  /** The startup state after a reply: an operator's message does not change it. */
  function Handled(l: Link, input: PassInput, startup: Startup): Startup
    requires l.messages != []
  {
    if !input.received.Text? || l.messages[0].callback == Operator then startup
    else if input.received.reply == JsonArray then Reload
    else Init
  }

  function NextUpdate(l: Link, input: PassInput): Word {
    if !UpdateDue(l, input) then l.lastUpdate
    else if Elapsed(input.throttleClock, l.lastUpdate) > 15_000 then input.throttleClock
    else (l.lastUpdate + 10_000) % UINT64_SPAN
  }

  lemma UpdatedAt(l: Link, input: PassInput)
    requires l.setupDone
    ensures l.PrepareRefresh(input).lastUpdate == NextUpdate(l, input)
  {
    var armed := l.Raise(input.flag1).ArmRefresh(input.allowDataSync).Raise(input.flag2);
    hide Link.UpdateData;
    UpdateExactly(armed.Throttle(input.throttleClock), input);
  }

  /** The pass as a whole: what leaves the queue, what is asked for, what is sent, and the
      state that is left, each by the inputs of the pass and by what was sent before. */
  ghost predicate PassTable(l: Link, input: PassInput, after: Link)
    requires l.CommandPathOk() && SentFront(l)
  {
    var replied := Replied(l, input);
    && after.history.departed == l.history.departed + (if replied then [Left(l, input)] else [])
    && after.history.queued == l.history.queued + Asked(l, input)
    && after.messages == (if replied then l.messages[1..] else l.messages) + Asked(l, input)
    && after.history.sendings ==
       l.history.sendings +
       (if Sends(l, input) then [Sending(|l.history.departed|, input.commandClock)] else [])
    && (Waiting(after) <==> Sends(l, input) || (Waiting(l) && !replied && !Expired(l, input.commandClock)))
    && after.startup == (if replied then Handled(l, input, Updated(l, input)) else Updated(l, input))
    && after.needsRefresh ==
       (if UpdateRuns(l, input) then input.flag4 else l.needsRefresh || input.flag1 || input.flag2)
    && after.lastUpdate == NextUpdate(l, input) && after.socket.Some? && SentFront(after)
    && after.channelWasReady && after.setupDone == input.setupDoneAfter
    && after.lastChannelReady == l.lastChannelReady && after.history.epochStart == l.history.epochStart
  }

  lemma ServedAfterUpdate(l: Link, input: PassInput, served: Link)
    requires l.CommandPathOk() && l.socket.Some? && SentFront(l) && l.channelWasReady && l.setupDone
    requires l.startup != Starting && served == l.PrepareRefresh(input).HandleCommand(input)
    ensures PassTable(l, input, served.(setupDone := input.setupDoneAfter))
  {
    hide Link.PrepareRefresh, Link.HandleCommand, Asked, Updated, UpdateRuns, NextUpdate;
    PreparedExactly(l, input);
    UpdatedAt(l, input);
    ServesExactly(l.PrepareRefresh(input), input);
  }

  lemma StaysReady(l: Link, input: PassInput)
    requires l.CommandPathOk() && l.channelWasReady && input.check == Up(true)
    ensures var edged := l.(setupDone := true, socket := Some(if l.socket.Some? then l.socket.value else Socket(None)));
            && edged.CommandPathOk()
            && l.IdlePass(input) ==
               edged.PrepareRefresh(input).HandleCommand(input).(setupDone := input.setupDoneAfter)
  {
    hide Link.PrepareRefresh, Link.HandleCommand;
  }

  /** On a channel that stays ready the front message leaves exactly when it is in flight, a
      reply is here and its send is no more than seven seconds ago, answered with that reply;
      a snapshot is asked for exactly when one is wanted and the update runs; and a message is
      sent exactly when none is in flight. */
  lemma SteadyPass(l: Link, input: PassInput)
    requires Inv(l) && SentFront(l) && l.channelWasReady && input.check == Up(true)
    ensures PassTable(l, input, l.IdlePass(input))
  {
    StaysReady(l, input);
    hide Link.PrepareRefresh, Link.HandleCommand, Link.IdlePass, Conserved, RefreshesCurrent, PassTable;
    var edged := l.(setupDone := true, socket := Some(if l.socket.Some? then l.socket.value else Socket(None)));
    ServedAfterUpdate(edged, input, edged.PrepareRefresh(input).HandleCommand(input));
    SameTable(l, true, edged.socket, input, l.IdlePass(input));
  }

  /** The table does not look at the socket or the channel's status. */
  lemma SameTable(l: Link, setupDone: bool, socket: Option<Socket>, input: PassInput, after: Link)
    requires l.CommandPathOk() && l.(setupDone := setupDone, socket := socket).CommandPathOk() && SentFront(l)
    ensures var m := l.(setupDone := setupDone, socket := socket);
            SentFront(m) && (PassTable(l, input, after) <==> PassTable(m, input, after))
  {
    hide Link.CommandPathOk;
    var m := l.(setupDone := setupDone, socket := socket);
    assert SentFront(m) && Replied(m, input) == Replied(l, input);
    assert Asked(m, input) == Asked(l, input) && Sends(m, input) == Sends(l, input);
    hide Replied, Asked, Sends;
  }

  // ---- the edges of the channel ----

  /** A ready edge counts unless another did less than a second before. */
  predicate Honoured(l: Link, now: Word) {
    l.lastChannelReady == 0 || Elapsed(now, l.lastChannelReady) >= 1_000_000
  }

  function OpenSocket(l: Link): Option<Socket> { if l.socket.Some? then l.socket else Some(Socket(None)) }

  /** Everything pending is dropped and a snapshot is wanted again. */
  function StartedOver(l: Link, now: Word): Link {
    Link(Init, Some(Socket(None)), [], WaitingCommand, 0, l.lastUpdate, true, true, now, true,
         History(l.history.queued, l.history.departed + DropAll(l.messages), l.history.sendings, |l.history.queued|))
  }

  /** What a ready edge makes of the connection before it is served. */
  function AtReadyEdge(l: Link, now: Word): Link {
    if Honoured(l, now) then StartedOver(l, now)
    else
      l.(socket := OpenSocket(l), channelWasReady := true, setupDone := true,
         history := l.history.(epochStart := |l.history.queued|))
  }

  /** What a lost edge makes of it. */
  function AtLostEdge(l: Link): Link {
    Link(Init, None, [], WaitingCommand, 0, l.lastUpdate, true, false, l.lastChannelReady, l.setupDone,
         History(l.history.queued, l.history.departed + DropAll(l.messages), l.history.sendings, l.history.epochStart))
  }

  lemma EdgeIs(l: Link, now: Word)
    requires l.CommandPathOk() && !l.channelWasReady
    ensures var open, edged := l.(socket := OpenSocket(l)), AtReadyEdge(l, now);
            && open.CommandPathOk() && edged.CommandPathOk()
            && edged.socket.Some? && edged.setupDone && edged.channelWasReady
            && open.ChannelEdge(true, now) == edged
  {
  }

  /** A pass that sees the channel come up is a pass over a ready channel of a connection that
      starts over, or, within a second of the last such edge, goes on as it was. */
  lemma ReadyEdgePass(l: Link, input: PassInput)
    requires l.CommandPathOk() && !l.channelWasReady && input.check == Up(true)
    ensures AtReadyEdge(l, input.channelClock).CommandPathOk()
    ensures l.IdlePass(input) == AtReadyEdge(l, input.channelClock).IdlePass(input)
  {
    hide Link.PrepareRefresh, Link.HandleCommand;
    EdgeIs(l, input.channelClock);
    StaysReady(AtReadyEdge(l, input.channelClock), input);
    hide Link.ChannelEdge, AtReadyEdge, Link.CommandPathOk;
  }

  lemma LostIs(l: Link, now: Word)
    requires l.CommandPathOk()
    ensures var open := l.(socket := OpenSocket(l));
            var lost := if l.channelWasReady then AtLostEdge(l) else open;
            && open.CommandPathOk() && open.socket.Some?
            && open.ChannelDown() == lost && open.ChannelEdge(false, now) == lost.(setupDone := false)
  {
  }

  /** A pass over a channel that is not ready drops everything if it was, and serves nothing. */
  lemma UnreadyPass(l: Link, input: PassInput)
    requires l.CommandPathOk() && input.check != Up(true)
    ensures l.IdlePass(input) ==
            (if l.channelWasReady && input.check != Threw then AtLostEdge(l) else l.(socket := OpenSocket(l)))
            .(setupDone := input.setupDoneAfter)
  {
    LostIs(l, input.channelClock);
    hide Link.PrepareRefresh, Link.HandleCommand, Link.ChannelEdge, Link.ChannelDown, AtLostEdge, Link.CommandPathOk;
  }

  /** Operators and the monitor thread only add a message and raise the flag. */
  lemma OtherEvents(l: Link, text: string)
    requires l.CommandPathOk()
    ensures l.Step(Operate(text)) ==
            l.(messages := l.messages + [Message(text, Operator)],
               history := l.history.(queued := l.history.queued + [Message(text, Operator)]))
    ensures l.Step(MonitorConnected) == l.(needsRefresh := true)
    ensures l.Step(MonitorDisconnected) ==
            if l.setupDone || l.channelWasReady then l.(needsRefresh := true) else l
  {
  }

  // ---- every run ----

  /** What is in flight was sent last, on a channel that is ready. */
  predicate Flight(l: Link) { SentFront(l) && (Waiting(l) ==> l.channelWasReady) }

  lemma StepKeepsFlight(l: Link, e: Event)
    requires Inv(l) && Flight(l)
    ensures Flight(l.Step(e))
  {
    match e {
      case Pass(input) =>
        if input.check == Up(true) {
          hide Link.IdlePass, Inv, AtReadyEdge, PassTable, Flight;
          var edged := ReadyPass(l, input);
          TableFlies(edged, input, l.IdlePass(input));
        } else {
          hide Link.IdlePass;
          UnreadyPass(l, input);
        }
      case _ =>
    }
  }

  lemma TableFlies(l: Link, input: PassInput, after: Link)
    requires l.CommandPathOk() && SentFront(l) && PassTable(l, input, after)
    ensures Flight(after)
  {
    hide Replied, Sends, Asked, Updated, UpdateRuns, Handled;
  }

  /** A pass over a ready channel: the table over the connection, started over at an edge. */
  lemma ReadyPass(l: Link, input: PassInput) returns (edged: Link)
    requires Inv(l) && Flight(l) && input.check == Up(true)
    ensures edged == if l.channelWasReady then l else AtReadyEdge(l, input.channelClock)
    ensures Inv(edged) && edged.CommandPathOk() && Flight(edged) && SentFront(edged)
    ensures PassTable(edged, input, l.IdlePass(input))
  {
    hide Link.IdlePass, Conserved, RefreshesCurrent, PassTable;
    edged := if l.channelWasReady then l else AtReadyEdge(l, input.channelClock);
    if !l.channelWasReady {
      ReadyEdgePass(l, input);
      EdgeKeeps(l, input.channelClock);
    }
    SteadyPass(edged, input);
  }

  lemma EdgeKeeps(l: Link, now: Word)
    requires Inv(l) && Flight(l) && !l.channelWasReady
    ensures Inv(AtReadyEdge(l, now)) && Flight(AtReadyEdge(l, now)) && !Waiting(AtReadyEdge(l, now))
  {
    ClearKeeps(l);
  }

  /** What leaves the queue at one event. */
  function Leaving(l: Link, e: Event): seq<Departure>
    requires l.CommandPathOk() && SentFront(l)
  {
    match e
    case Pass(input) =>
      if input.check == Up(true) then
        if l.channelWasReady then if Replied(l, input) then [Left(l, input)] else []
        else if Honoured(l, input.channelClock) then DropAll(l.messages)
        else []
      else if l.channelWasReady && input.check != Threw then DropAll(l.messages)
      else []
    case _ => []
  }

  lemma {:induction false} FlightOverRuns(events: seq<Event>)
    ensures Flight(Run(events))
  {
    if events != [] {
      hide Link.Step, Flight;
      FlightOverRuns(events[..|events| - 1]);
      StepKeepsFlight(Run(events[..|events| - 1]), events[|events| - 1]);
    } else {
      assert Flight(Initial());
    }
  }

  lemma StepLeaves(l: Link, e: Event)
    requires Inv(l) && Flight(l)
    ensures l.Step(e).history.departed == l.history.departed + Leaving(l, e)
  {
    match e {
      case Pass(input) =>
        if input.check == Up(true) {
          hide Link.IdlePass, Inv, PassTable, Replied, Left, AtReadyEdge;
          var edged := ReadyPass(l, input);
          TableLeaves(edged, input, l.IdlePass(input));
          if !l.channelWasReady { EdgeLeaves(l, input); }
        } else {
          UnreadyPass(l, input);
          hide Link.IdlePass;
        }
      case _ =>
    }
  }

  lemma TableLeaves(l: Link, input: PassInput, after: Link)
    requires l.CommandPathOk() && SentFront(l) && PassTable(l, input, after)
    ensures after.history.departed == l.history.departed + (if Replied(l, input) then [Left(l, input)] else [])
  {
  }

  /** Nothing is in flight right after a ready edge. */
  lemma EdgeLeaves(l: Link, input: PassInput)
    requires Inv(l) && Flight(l) && !l.channelWasReady
    ensures var edged := AtReadyEdge(l, input.channelClock);
            && SentFront(edged) && !Replied(edged, input)
            && edged.history.departed ==
               l.history.departed + (if Honoured(l, input.channelClock) then DropAll(l.messages) else [])
  {
    hide Conserved, RefreshesCurrent;
  }

  /** Over every run: a message leaves exactly when its reply is here while it is in flight and
      its send no more than seven seconds old, answered with that reply, or, with all others,
      dropped when the channel is lost or a ready edge counts. */
  lemma LeavesExactly(events: seq<Event>)
    requires events != []
    ensures var before := Run(events[..|events| - 1]);
            && Flight(before)
            && Run(events).history.departed ==
               before.history.departed + Leaving(before, events[|events| - 1])
  {
    hide Link.Step, Flight, Leaving;
    FlightOverRuns(events[..|events| - 1]);
    StepLeaves(Run(events[..|events| - 1]), events[|events| - 1]);
  }

  /** Every receive supplies a buffer, so every message that leaves is answered or dropped. */
  lemma {:induction false} NeverDiscarded(events: seq<Event>)
    requires forall i :: 0 <= i < |events| ==> RealBuffer(events[i])
    ensures forall i :: 0 <= i < |Run(events).history.departed| ==>
              Run(events).history.departed[i].fate != Discarded
  {
    if events != [] {
      hide Run;
      NeverDiscarded(events[..|events| - 1]);
      LeavesExactly(events);
    }
  }

  // ---- what was sent ----

  /** What is sent at one event. */
  function SentIn(l: Link, e: Event): seq<Sending>
    requires l.CommandPathOk() && SentFront(l)
  {
    match e
    case Pass(input) =>
      var edged := if l.channelWasReady then l else AtReadyEdge(l, input.channelClock);
      if input.check == Up(true) && Sends(edged, input)
      then [Sending(|edged.history.departed|, input.commandClock)] else []
    case _ => []
  }

  lemma StepSends(l: Link, e: Event)
    requires Inv(l) && Flight(l)
    ensures l.Step(e).history.sendings == l.history.sendings + SentIn(l, e)
  {
    match e {
      case Pass(input) =>
        if input.check == Up(true) {
          hide Link.IdlePass, Inv;
          var edged := ReadyPass(l, input);
        } else {
          hide Link.IdlePass;
          UnreadyPass(l, input);
        }
      case _ =>
    }
  }

  predicate WasSent(sendings: seq<Sending>, position: nat) {
    exists k :: 0 <= k < |sendings| && sendings[k].position == position
  }

  predicate AnsweredSent(h: History) {
    forall i :: 0 <= i < |h.departed| && h.departed[i].fate.Answered? ==> WasSent(h.sendings, i)
  }

  /** Only what was sent is answered. */
  lemma {:induction false} AnsweredWasSent(events: seq<Event>)
    ensures AnsweredSent(Run(events).history)
  {
    if events != [] {
      hide Run, Link.Step, Inv, Flight, AnsweredSent, Leaving, SentIn, WasSent;
      var l, e := Run(events[..|events| - 1]), events[|events| - 1];
      AnsweredWasSent(events[..|events| - 1]);
      LeavesExactly(events);
      LastStep(events);
      StepSends(l, e);
      FrontWasSent(l, e);
      SentGrows(l.history, Run(events).history, Leaving(l, e), SentIn(l, e));
    }
  }

  lemma SentGrows(before: History, after: History, leaving: seq<Departure>, sent: seq<Sending>)
    requires AnsweredSent(before)
    requires after.departed == before.departed + leaving && after.sendings == before.sendings + sent
    requires forall i :: 0 <= i < |leaving| && leaving[i].fate.Answered? ==>
               i == 0 && WasSent(before.sendings, |before.departed|)
    ensures AnsweredSent(after)
  {
    forall i | 0 <= i < |after.departed| && after.departed[i].fate.Answered? ensures WasSent(after.sendings, i) {
      assert WasSent(before.sendings, i);
      var k :| 0 <= k < |before.sendings| && before.sendings[k].position == i;
      assert after.sendings[k].position == i;
    }
  }

  lemma LastStep(events: seq<Event>)
    requires events != []
    ensures Inv(Run(events[..|events| - 1])) && Run(events[..|events| - 1]).CommandPathOk()
    ensures Run(events) == Run(events[..|events| - 1]).Step(events[|events| - 1])
  {
  }

  lemma FrontWasSent(l: Link, e: Event)
    requires l.CommandPathOk() && Flight(l)
    ensures forall i :: 0 <= i < |Leaving(l, e)| && Leaving(l, e)[i].fate.Answered? ==>
              i == 0 && WasSent(l.history.sendings, |l.history.departed|)
  {
    if Waiting(l) { assert l.history.sendings[|l.history.sendings| - 1].position == |l.history.departed|; }
  }

  /** No pass reads an earlier command clock than one before it. */
  predicate SteadyClock(events: seq<Event>) {
    forall i, k :: 0 <= i <= k < |events| && events[i].Pass? && events[k].Pass? ==>
      events[i].input.commandClock <= events[k].input.commandClock
  }

  predicate ClockUpto(events: seq<Event>, now: Word) {
    forall i :: 0 <= i < |events| && events[i].Pass? ==> events[i].input.commandClock <= now
  }

  /** A message sent right after a sending of itself is sent more than seven seconds later. */
  predicate Paced(sendings: seq<Sending>) {
    forall k :: 0 <= k < |sendings| - 1 ==>
      && sendings[k].position <= sendings[k + 1].position
      && (sendings[k].position == sendings[k + 1].position ==> sendings[k + 1].time - sendings[k].time > 7_000_000)
  }

  /** The last sending was of a message before the front, or of the front, which is in flight
      or was given up after its seven seconds. */
  predicate PacedUpto(l: Link, now: Word) {
    && Paced(l.history.sendings)
    && (l.history.sendings != [] ==>
          var last := LastSending(l);
          && last.position <= |l.history.departed| && last.time <= now
          && (last.position == |l.history.departed| ==>
                l.messages != [] && (Waiting(l) || now - last.time > 7_000_000)))
  }

  lemma PacedAppend(sendings: seq<Sending>, s: Sending)
    requires Paced(sendings)
    requires sendings != [] ==>
               var last := sendings[|sendings| - 1];
               last.position < s.position || (last.position == s.position && s.time - last.time > 7_000_000)
    ensures Paced(sendings + [s])
  {
  }

  lemma TableKeepsPaced(l: Link, input: PassInput, after: Link, now: Word)
    requires l.CommandPathOk() && Flight(l) && PacedUpto(l, now) && now <= input.commandClock
    requires PassTable(l, input, after)
    ensures PacedUpto(after, input.commandClock)
  {
    hide Paced, Updated, UpdateRuns, Handled, Asked;
    if Sends(l, input) {
      PacedAppend(l.history.sendings, Sending(|l.history.departed|, input.commandClock));
      assert LastSending(after) == Sending(|l.history.departed|, input.commandClock);
    } else {
      assert after.history.sendings == l.history.sendings;
    }
  }

  lemma EdgeKeepsPaced(l: Link, input: PassInput, now: Word)
    requires Inv(l) && Flight(l) && PacedUpto(l, now) && input.check == Up(true)
    ensures PacedUpto(if l.channelWasReady then l else AtReadyEdge(l, input.channelClock), now)
  {
    hide Paced, Conserved, RefreshesCurrent;
  }

  lemma UnreadyKeepsPaced(l: Link, input: PassInput, now: Word)
    requires Inv(l) && Flight(l) && PacedUpto(l, now) && now <= input.commandClock && input.check != Up(true)
    ensures PacedUpto(l.IdlePass(input), input.commandClock)
  {
    UnreadyPass(l, input);
    hide Paced, Conserved, RefreshesCurrent, Link.IdlePass;
  }

  lemma StepKeepsPaced(l: Link, e: Event, now: Word)
    requires Inv(l) && Flight(l) && PacedUpto(l, now) && (e.Pass? ==> now <= e.input.commandClock)
    ensures PacedUpto(l.Step(e), if e.Pass? then e.input.commandClock else now)
  {
    match e {
      case Pass(input) =>
        hide Link.IdlePass, PassTable, AtReadyEdge, Inv, PacedUpto, Flight;
        if input.check == Up(true) {
          var edged := ReadyPass(l, input);
          EdgeKeepsPaced(l, input, now);
          InvIsOk(edged);
          TableKeepsPaced(edged, input, l.IdlePass(input), now);
        } else {
          UnreadyKeepsPaced(l, input, now);
        }
      case _ => hide Paced;
    }
  }

  lemma InvIsOk(l: Link)
    requires Inv(l)
    ensures l.CommandPathOk()
  {
  }

  /** With a steady clock no message is sent again within seven seconds of its last sending,
      and messages are sent in the order in which they were queued. */
  lemma {:induction false} SentAgainLate(events: seq<Event>, now: Word)
    requires SteadyClock(events) && ClockUpto(events, now)
    ensures PacedUpto(Run(events), now)
  {
    if events != [] {
      hide Run, Link.Step, Inv, Flight;
      var prefix, e := events[..|events| - 1], events[|events| - 1];
      var upto := if e.Pass? then e.input.commandClock else now;
      assert ClockUpto(prefix, upto) by {
        forall i | 0 <= i < |prefix| && prefix[i].Pass? ensures prefix[i].input.commandClock <= upto {
          assert prefix[i] == events[i];
        }
      }
      SentAgainLate(prefix, upto);
      LastStep(events);
      FlightOverRuns(prefix);
      StepKeepsPaced(Run(prefix), e, upto);
    }
  }
}
