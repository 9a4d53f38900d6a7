/** The panel object: its connections and the overlay's fields, updated in place. */
module ControlPanel {
  import Clockwork
  import opened ClockworkRuns
  import opened ClockworkConnection
  import opened ControlOverlay

  class ControlPanel {
    var connections: seq<Connection>
    var visible: bool
    var disconnectPending: bool
    var everReady: bool
    var needsCoveredRebuild: bool
    var settleRemaining: int
    var disconnectedAt: int
    var channelReadyAtValid: bool
    var channelReadyAt: int

    ghost predicate Valid()
      reads this, connections
    {
      && (forall i, k :: 0 <= i < k < |connections| ==> connections[i] != connections[k])
      && forall i :: 0 <= i < |connections| ==> Inv(connections[i].View())
    }

    ghost function Links(): (links: seq<Clockwork.Link>)
      reads this, connections
      ensures |links| == |connections|
      ensures forall i :: 0 <= i < |links| ==> links[i] == connections[i].View()
    {
      seq(|connections|, i requires 0 <= i < |connections| reads this, connections => connections[i].View())
    }

    ghost function State(): Overlay
      reads this
    {
      Overlay(visible, disconnectPending, everReady, needsCoveredRebuild, settleRemaining,
              disconnectedAt, channelReadyAtValid, channelReadyAt)
    }

    ghost function View(): Panel
      reads this, connections
    {
      Panel(Links(), State())
    }

    constructor ()
      ensures Valid() && View() == Panel([], HIDDEN)
    {
      connections := [];
      visible, disconnectPending, everReady, needsCoveredRebuild := false, false, false, true;
      settleRemaining, disconnectedAt, channelReadyAtValid, channelReadyAt := -1, 0, false, 0;
    }

    method AddConnection()
      requires Valid()
      modifies this
      ensures Valid() && View() == old(View()).Step(Event.AddConnection)
    {
      var connection := new Connection();
      connections := connections + [connection];
      assert Links() == old(Links()) + [Clockwork.Initial()];
    }

    /** Every connection is ready and has its snapshot, and there is at least one. */
    method ControlConnectionsReady() returns (ready: bool)
      requires Valid()
      ensures ready == ConnectionsReady(Links())
    {
      if connections == [] {
        return false;
      }
      for i := 0 to |connections|
        invariant forall k :: 0 <= k < i ==> LinkReady(Links()[k])
      {
        var connection := connections[i];
        if !connection.setupDone ||
           (connection.startup != Clockwork.Done && connection.startup != Clockwork.Reload) {
          assert !LinkReady(Links()[i]);
          return false;
        }
      }
      return true;
    }

    method HideOverlay() returns (redraw: bool)
      modifies this
      ensures connections == old(connections) && State() == old(State()).Hide()
      ensures redraw == old(visible)
    {
      redraw := visible;
      disconnectPending := false;
      settleRemaining := -1;
      needsCoveredRebuild := false;
      if visible {
        visible := false;
      }
    }

    /** The update of the overlay, and whether it asks for a frame. */
    method UpdateOverlay(settings: Settings, page: Page, ready: bool, now: int) returns (redraw: bool)
      modifies this
      ensures connections == old(connections)
      ensures State() == old(State()).Update(settings, page, ready, now)
      ensures redraw == old(State()).RequestsRedraw(settings, page, ready, now)
    {
      redraw := false;
      if !settings.enabled || settings.editMode {
        channelReadyAtValid := false;
        redraw := HideOverlay();
        needsCoveredRebuild := true;
        return;
      }
      if !ready {
        channelReadyAtValid := false;
        settleRemaining := -1;
        needsCoveredRebuild := true;
        if !disconnectPending {
          disconnectPending := true;
          disconnectedAt := now;
        }
        var delayElapsed := !everReady || now - disconnectedAt >= Max(0, settings.delaySeconds) * TICKS_PER_SECOND;
        if !visible && delayElapsed {
          visible := true;
          redraw := true;
        }
        return;
      }
      disconnectPending := false;
      everReady := true;
      if !channelReadyAtValid {
        channelReadyAt := now;
        channelReadyAtValid := true;
      }
      if now - channelReadyAt >= Max(0, settings.uncoverSeconds) * TICKS_PER_SECOND {
        if page.hasPanelWidgets {
          redraw := HideOverlay();
        }
        return;
      }
      if !visible {
        if !needsCoveredRebuild {
          settleRemaining := -1;
          return;
        }
        visible := true;
      }
      redraw := true;
      if !page.Ready() {
        settleRemaining := -1;
        return;
      }
      if settleRemaining < 0 {
        settleRemaining := Max(1, settings.settleFrames);
      }
    }

    /** One idle pass: every connection in turn, then the overlay. */
    method Idle(inputs: seq<Clockwork.PassInput>, settings: Settings, page: Page, now: int) returns (redraw: bool)
      requires Valid()
      modifies this, connections
      ensures Valid() && connections == old(connections)
      ensures View() == old(View()).Step(Event.Idle(inputs, settings, page, now))
      ensures redraw == old(State()).RequestsRedraw(settings, page, ConnectionsReady(Links()), now)
    {
      hide Overlay.Update, Overlay.RequestsRedraw, Clockwork.Link.IdlePass, Inv, Panel.PassAll, ConnectionsReady;
      PassAll(inputs);
      var ready := ControlConnectionsReady();
      redraw := UpdateOverlay(settings, page, ready, now);
    }

    /** One turn of the drawing loop: an idle pass, and in the same turn a frame if the pass
        or something else asked for one. */
    method DrawAll(inputs: seq<Clockwork.PassInput>, settings: Settings, page: Page, now: int, asked: bool,
                   captureExpired: bool) returns (painted: bool)
      requires Valid()
      modifies this, connections
      ensures Valid() && connections == old(connections)
      ensures old(View()).CommandPathsOk()
      ensures var idled := old(View()).Step(Event.Idle(inputs, settings, page, now));
              && painted == (asked || old(State()).RequestsRedraw(settings, page, ConnectionsReady(idled.links), now))
              && idled.CommandPathsOk()
              && View() == if painted then idled.Step(Frame(captureExpired, page)) else idled
    {
      var redraw := Idle(inputs, settings, page, now);
      painted := redraw || asked;
      if painted {
        AfterFrameRendered(captureExpired, page);
      }
    }

    method PassAll(inputs: seq<Clockwork.PassInput>)
      requires Valid()
      modifies connections
      ensures old(View()).CommandPathsOk() && Links() == old(View()).PassAll(inputs)
      ensures Valid()
    {
      assert View().CommandPathsOk();
      hide Clockwork.Link.IdlePass, Inv, Valid;
      PassEach(inputs);
    }

    method PassEach(inputs: seq<Clockwork.PassInput>)
      requires Valid()
      modifies connections
      ensures forall i :: 0 <= i < |connections| ==>
                connections[i].View() == old(connections[i].View()).IdlePass(InputFor(inputs, i))
      ensures Valid()
    {
      hide Clockwork.Link.IdlePass;
      for i := 0 to |connections|
        invariant forall k :: 0 <= k < i ==>
                    connections[k].View() == old(connections[k].View()).IdlePass(InputFor(inputs, k))
        invariant forall k :: 0 <= k < |connections| ==> Inv(connections[k].View())
        invariant forall k :: i <= k < |connections| ==> connections[k].View() == old(connections[k].View())
      {
        PassOne(connections[i], InputFor(inputs, i));
      }
    }

    static method PassOne(connection: Connection, input: Clockwork.PassInput)
      requires Inv(connection.View())
      modifies connection
      ensures Inv(connection.View()) && connection.View() == old(connection.View()).IdlePass(input)
    {
      PassKeeps(connection.View(), input);
      connection.IdlePass(input);
    }

    /** The frame hook: counts a frame painted under the overlay, and uncovers after the last. */
    method AfterFrameRendered(captureExpired: bool, page: Page)
      requires Valid()
      modifies this
      ensures Valid() && connections == old(connections)
      ensures View() == old(View()).Step(Frame(captureExpired, page))
    {
      if captureExpired {
        return;
      }
      var ready := ControlConnectionsReady();
      if visible && ready && page.Ready() && settleRemaining > 0 {
        settleRemaining := settleRemaining - 1;
        if settleRemaining == 0 {
          visible := false;
          disconnectPending := false;
          needsCoveredRebuild := false;
        }
      }
    }

    /** An operator message for the named connection; an unknown one is ignored. */
    method QueueMessage(index: nat, text: string)
      requires Valid()
      modifies connections
      ensures Valid() && View() == old(View()).Step(Operate(index, text))
    {
      if index < |connections| {
        QueueKeeps(connections[index].View(), text, Clockwork.Operator);
        connections[index].QueueMessage(text, Clockwork.Operator);
        assert Links() == old(Links())[index := old(Links())[index].QueueMessage(text, Clockwork.Operator)];
      }
    }
  }
}
