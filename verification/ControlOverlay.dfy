/** The "Control is not connected" overlay, and the panel that couples it to the
    connections: idle passes, painted frames, operator messages, new connections. */
module ControlOverlay {
  import Clockwork

  const TICKS_PER_SECOND: int := 1_000_000_000

  datatype Settings = Settings(
    enabled: bool, editMode: bool, delaySeconds: int, uncoverSeconds: int, settleFrames: int)
  {
    predicate Active() { enabled && !editMode }
  }

  /** What the overlay asks about the user window: the GUI is in its working state, the
      window holds panel widgets, and the selected screen is the one shown (or is unset
      or unknown). */
  datatype Page = Page(working: bool, hasPanelWidgets: bool, screenLoaded: bool)
  {
    predicate Ready() { working && hasPanelWidgets && screenLoaded }
  }

  function Max(a: int, b: int): int { if a < b then b else a }

  datatype Overlay = Overlay(
    visible: bool,
    disconnectPending: bool,
    everReady: bool,
    needsCoveredRebuild: bool,
    settleRemaining: int,
    disconnectedAt: int,
    channelReadyAtValid: bool,
    channelReadyAt: int)
  {
    function Hide(): Overlay {
      this.(disconnectPending := false, settleRemaining := -1, needsCoveredRebuild := false, visible := false)
    }

    function Update(settings: Settings, page: Page, ready: bool, now: int): Overlay {
      if !settings.Active() then Hide().(channelReadyAtValid := false, needsCoveredRebuild := true)
      else if !ready then WhileUnready(settings, now)
      else WhileReady(settings, page, now)
    }

    /** The update asks for a frame: whenever it shows or hides the overlay, and whenever it
        goes on covering a page with the connections ready. */
    predicate RequestsRedraw(settings: Settings, page: Page, ready: bool, now: int) {
      if !settings.Active() then visible
      else if !ready then !visible && WhileUnready(settings, now).visible
      else if ReadyFor(now) >= Max(0, settings.uncoverSeconds) * TICKS_PER_SECOND then visible && page.hasPanelWidgets
      else visible || needsCoveredRebuild
    }

    /** How long connections that are ready have been so; zero at the first ready update. */
    function ReadyFor(now: int): int { if channelReadyAtValid then now - channelReadyAt else 0 }

    function WhileUnready(settings: Settings, now: int): Overlay {
      var since := if disconnectPending then disconnectedAt else now;
      var delayElapsed := !everReady || now - since >= Max(0, settings.delaySeconds) * TICKS_PER_SECOND;
      this.(channelReadyAtValid := false, settleRemaining := -1, needsCoveredRebuild := true,
            disconnectPending := true, disconnectedAt := since, visible := visible || delayElapsed)
    }

    function WhileReady(settings: Settings, page: Page, now: int): Overlay {
      var since := if channelReadyAtValid then channelReadyAt else now;
      var seen := this.(disconnectPending := false, everReady := true,
                        channelReadyAt := since, channelReadyAtValid := true);
      if now - since >= Max(0, settings.uncoverSeconds) * TICKS_PER_SECOND then
        if page.hasPanelWidgets then seen.Hide() else seen
      else if !visible && !needsCoveredRebuild then seen.(settleRemaining := -1)
      else
        seen.(visible := true,
              settleRemaining := if !page.Ready() then -1
                                 else if settleRemaining < 0 then Max(1, settings.settleFrames)
                                 else settleRemaining)
    }

    predicate CoversFrame(captureExpired: bool, ready: bool, page: Page) {
      !captureExpired && visible && ready && page.Ready() && settleRemaining > 0
    }

    function AfterFrame(captureExpired: bool, ready: bool, page: Page): Overlay {
      if !CoversFrame(captureExpired, ready, page) then this
      else if settleRemaining == 1 then
        this.(settleRemaining := 0, visible := false, disconnectPending := false, needsCoveredRebuild := false)
      else this.(settleRemaining := settleRemaining - 1)
    }
  }

  const HIDDEN: Overlay := Overlay(false, false, false, true, -1, 0, false, 0)

  datatype Event =
    | Idle(inputs: seq<Clockwork.PassInput>, settings: Settings, page: Page, now: int)
    | Frame(captureExpired: bool, page: Page)
    | Operate(index: nat, text: string)
    | Monitor(index: nat, connected: bool)
    | AddConnection

  /** A connection the idle pass does not reach: its poll throws at once. */
  const UNREACHED: Clockwork.PassInput :=
    Clockwork.PassInput(Clockwork.Threw, 0, 0, 0, true, false, false, false, false, false, false,
                        Clockwork.Nothing, false)

  function InputFor(inputs: seq<Clockwork.PassInput>, i: nat): Clockwork.PassInput {
    if i < |inputs| then inputs[i] else UNREACHED
  }

  predicate LinkReady(l: Clockwork.Link) {
    l.setupDone && (l.startup == Clockwork.Done || l.startup == Clockwork.Reload)
  }

  predicate ConnectionsReady(links: seq<Clockwork.Link>) {
    links != [] && forall i :: 0 <= i < |links| ==> LinkReady(links[i])
  }

  datatype Panel = Panel(links: seq<Clockwork.Link>, overlay: Overlay)
  {
    predicate CommandPathsOk() {
      forall i :: 0 <= i < |links| ==> links[i].CommandPathOk()
    }

    function PassAll(inputs: seq<Clockwork.PassInput>): (passed: seq<Clockwork.Link>)
      requires CommandPathsOk()
      ensures |passed| == |links|
      ensures forall i :: 0 <= i < |links| ==> passed[i] == links[i].IdlePass(InputFor(inputs, i))
    {
      seq(|links|, i requires 0 <= i < |links| => links[i].IdlePass(InputFor(inputs, i)))
    }

    function Step(e: Event): Panel
      requires CommandPathsOk()
    {
      match e
      case Idle(inputs, settings, page, now) =>
        var passed := PassAll(inputs);
        Panel(passed, overlay.Update(settings, page, ConnectionsReady(passed), now))
      case Frame(captureExpired, page) =>
        this.(overlay := overlay.AfterFrame(captureExpired, ConnectionsReady(links), page))
      case Operate(index, text) => At(index, Clockwork.Operate(text))
      case Monitor(index, connected) =>
        At(index, if connected then Clockwork.MonitorConnected else Clockwork.MonitorDisconnected)
      case AddConnection => this.(links := links + [Clockwork.Initial()])
    }

    /** An event on one connection; an unknown connection is ignored. */
    function At(index: nat, e: Clockwork.Event): Panel
      requires CommandPathsOk()
    {
      if index < |links| then this.(links := links[index := links[index].Step(e)]) else this
    }
  }
}
