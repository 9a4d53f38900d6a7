/** The project backlight: requests from the control point, the blanking delay, and the
    key or button press that wakes a blanked display. */
module Backlight {

  const TICKS_PER_SECOND: int := 1_000_000_000

  datatype Action = Press | Repeat | Release

  /** The value of the control point as `updateBacklightRequest` reads it. */
  datatype Request = On | Off | Unrecognised

  /** `settings` says whether the project settings exist, `applied` whether the hardware
      command of this event succeeded, `covered` whether the disconnected overlay is up. */
  datatype Event =
    | Point(now: int, settings: bool, configured: bool, value: Request)
    | Tick(now: int, settings: bool, delaySeconds: int)
    | Key(now: int, key: int, scancode: int, action: Action, applied: bool, covered: bool)
    | Mouse(now: int, down: bool, applied: bool, covered: bool)

  datatype State = State(
    offPending: bool,
    isBlanked: bool,
    wakeKeyHeld: bool,
    wakeKey: int,
    wakeScancode: int,
    requestKnown: bool,
    requestedOn: bool,
    initialised: bool,
    offRequestedAt: int)
  {
    predicate Swallows(key: int, scancode: int) {
      wakeKeyHeld && key == wakeKey && scancode == wakeScancode
    }

    /** A key or button press that is not the tail of a wake press. */
    predicate IsActivity(e: Event) {
      match e
      case Key(_, key, scancode, action, _, _) => action == Press && !Swallows(key, scancode)
      case Mouse(_, down, _, _) => down
      case _ => false
    }

    function NoteActivity(now: int): State {
      if offPending then this.(offRequestedAt := now) else this
    }

    function Wake(now: int): State {
      this.(isBlanked := false, offRequestedAt := now, offPending := true)
    }

    function OnRequest(requested: bool, now: int): State {
      if requestKnown && requestedOn == requested then this
      else if requested then
        this.(requestKnown := true, requestedOn := true, offPending := false, isBlanked := false)
      else this.(requestKnown := true, requestedOn := false, offRequestedAt := now, offPending := true)
    }

    function OnTick(now: int, delaySeconds: int): State {
      var started := if initialised then this else this.(initialised := true, isBlanked := false);
      if started.offPending && now - offRequestedAt >= delaySeconds * TICKS_PER_SECOND
      then started.(offPending := false, isBlanked := true) else started
    }

    function OnKey(e: Event): State
      requires e.Key?
    {
      if Swallows(e.key, e.scancode) then
        if e.action == Release then this.(wakeKeyHeld := false) else this
      else if isBlanked && e.action == Press then
        var taken := this.(wakeKey := e.key, wakeScancode := e.scancode, wakeKeyHeld := e.applied);
        if e.applied then taken.Wake(e.now) else taken
      else if e.action == Press then NoteActivity(e.now)
      else this
    }

    function OnMouse(e: Event): State
      requires e.Mouse?
    {
      if !e.down then this
      else if isBlanked && e.applied then Wake(e.now)
      else NoteActivity(e.now)
    }

    function Step(e: Event): State {
      match e
      case Point(now, settings, configured, value) =>
        if settings && configured && value != Unrecognised then OnRequest(value == On, now) else this
      case Tick(now, settings, delaySeconds) => if settings then OnTick(now, delaySeconds) else this
      case Key(_, _, _, _, _, _) => OnKey(e)
      case Mouse(_, _, _, _) => OnMouse(e)
    }

    /** The event goes on to the widgets. */
    predicate Delivers(e: Event) {
      match e
      case Key(_, key, scancode, action, _, covered) =>
        !Swallows(key, scancode) && !(isBlanked && action == Press) && !covered
      case Mouse(_, down, applied, covered) => !(down && isBlanked && applied) && !covered
      case _ => false
    }
  }

  const START: State := State(false, false, false, 0, 0, false, true, false, 0)

  function Run(events: seq<Event>): State {
    if events == [] then START else Run(events[..|events| - 1]).Step(events[|events| - 1])
  }

  /** The last request of the run that was recognised, or `Unrecognised` if there was none. */
  function LastRequest(events: seq<Event>): Request {
    if events == [] then Unrecognised
    else
      var e := events[|events| - 1];
      if e.Point? && e.settings && e.configured && e.value != Unrecognised then e.value
      else LastRequest(events[..|events| - 1])
  }

  /** Over every run: the last recognised request is "off" exactly when one of pending
      and blanked holds, the two never hold together, and nothing is blanked before
      initialisation. */
  lemma {:induction false} BlankingFollowsRequest(events: seq<Event>)
    ensures var s := Run(events);
            && (LastRequest(events) == Off <==> s.offPending || s.isBlanked)
            && !(s.offPending && s.isBlanked)
            && (s.isBlanked ==> s.initialised)
            && (LastRequest(events) == Unrecognised <==> !s.requestKnown)
            && (LastRequest(events) == On ==> s.requestedOn) && (LastRequest(events) == Off ==> !s.requestedOn)
  {
    if events != [] {
      BlankingFollowsRequest(events[..|events| - 1]);
      hide Run;
      RunStep(events);
    }
  }

  lemma RunStep(events: seq<Event>)
    requires events != []
    ensures Run(events) == Run(events[..|events| - 1]).Step(events[|events| - 1])
  {
  }

  /** Event `i` is a key press that woke the display. */
  predicate WakesAt(events: seq<Event>, i: nat)
    requires i < |events|
  {
    var before := Run(events[..i]);
    events[i].Key? && events[i].action == Press && before.isBlanked && events[i].applied
    && !before.Swallows(events[i].key, events[i].scancode)
  }

  /** Event `j` neither ends nor replaces the hold that event `i` took: it is not the
      release of that key, and not a press of another key on a blanked display. */
  predicate KeepsHold(events: seq<Event>, i: nat, j: nat)
    requires i < |events| && j < |events| && events[i].Key?
  {
    events[j].Key? ==>
      var same := events[j].key == events[i].key && events[j].scancode == events[i].scancode;
      if same then events[j].action != Release
      else !(events[j].action == Press && Run(events[..j]).isBlanked)
  }

  lemma {:induction false} HoldLasts(events: seq<Event>, i: nat, k: nat)
    requires i < k <= |events| && WakesAt(events, i)
    requires forall j :: i < j < k ==> KeepsHold(events, i, j)
    ensures Run(events[..k]).Swallows(events[i].key, events[i].scancode)
    decreases k
  {
    assert events[..k][..k - 1] == events[..k - 1];
    if k > i + 1 {
      HoldLasts(events, i, k - 1);
      assert KeepsHold(events, i, k - 1);
    }
  }

  /** The hold lasts exactly that long. */
  lemma {:induction false} HoldLastsExactly(events: seq<Event>, i: nat, k: nat)
    requires i < k <= |events| && WakesAt(events, i)
    ensures (forall j :: i < j < k ==> KeepsHold(events, i, j))
            <==> (forall j :: i < j <= k ==> Run(events[..j]).Swallows(events[i].key, events[i].scancode))
    decreases k
  {
    hide Run;
    if k == i + 1 {
      HoldLasts(events, i, k);
    } else {
      HoldLastsExactly(events, i, k - 1);
      if Run(events[..k - 1]).Swallows(events[i].key, events[i].scancode) { HoldStep(events, i, k - 1); }
    }
  }

  lemma HoldStep(events: seq<Event>, i: nat, j: nat)
    requires i < |events| && j < |events| && events[i].Key?
    requires Run(events[..j]).Swallows(events[i].key, events[i].scancode)
    ensures Run(events[..j + 1]).Swallows(events[i].key, events[i].scancode) <==> KeepsHold(events, i, j)
  {
    assert events[..j + 1][..j] == events[..j];
  }

  /** Event `i` woke the display with that key, and nothing since has ended or replaced the
      hold it took. */
  ghost predicate StillHeldSince(events: seq<Event>, i: nat, key: int, scancode: int) {
    && i < |events| && events[i].Key? && WakesAt(events, i) && events[i].key == key && events[i].scancode == scancode
    && forall j :: i < j < |events| ==> KeepsHold(events, i, j)
  }

  /** A key is held exactly since a press of it that woke the display. */
  lemma {:induction false} HeldExactly(events: seq<Event>, key: int, scancode: int)
    ensures Run(events).Swallows(key, scancode) <==> exists i :: StillHeldSince(events, i, key, scancode)
  {
    assert events[..|events|] == events;
    if i: nat :| StillHeldSince(events, i, key, scancode) { HoldLasts(events, i, |events|); }
    if Run(events).Swallows(key, scancode) {
      var last := |events| - 1;
      var prefix := events[..last];
      HoldTaken(prefix, events[last], key, scancode);
      assert prefix + [events[last]] == events;
      if Run(prefix).Swallows(key, scancode) {
        HeldExactly(prefix, key, scancode);
        var i :| StillHeldSince(prefix, i, key, scancode);
        HeldOneMore(events, i, key, scancode);
      } else {
        assert StillHeldSince(events, last, key, scancode);
      }
    }
  }

  lemma StepTakes(s: State, e: Event, key: int, scancode: int)
    requires s.Step(e).Swallows(key, scancode) && !s.Swallows(key, scancode)
    ensures e.Key? && e.action == Press && s.isBlanked && e.applied && !s.Swallows(e.key, e.scancode)
    ensures e.key == key && e.scancode == scancode
  {
  }

  /** After an event the key is held if the event woke the display with it, or it was held. */
  lemma HoldTaken(events: seq<Event>, e: Event, key: int, scancode: int)
    requires Run(events + [e]).Swallows(key, scancode)
    ensures Run(events).Swallows(key, scancode)
            || (WakesAt(events + [e], |events|) && e.key == key && e.scancode == scancode)
  {
    hide Run, State.Swallows, State.Step;
    assert (events + [e])[..|events|] == events;
    RunStep(events + [e]);
    if !Run(events).Swallows(key, scancode) { StepTakes(Run(events), e, key, scancode); }
  }

  lemma HeldOneMore(events: seq<Event>, i: nat, key: int, scancode: int)
    requires events != [] && StillHeldSince(events[..|events| - 1], i, key, scancode)
    requires Run(events[..|events| - 1]).Swallows(key, scancode) && Run(events).Swallows(key, scancode)
    ensures StillHeldSince(events, i, key, scancode)
  {
    hide Run, State.Swallows, KeepsHold, WakesAt;
    var last := |events| - 1;
    var prefix := events[..last];
    assert events[..last + 1] == events;
    SameInPrefix(events, i, i);
    HoldStep(events, i, last);
    forall j | i < j < |events| ensures KeepsHold(events, i, j) {
      if j < last { SameInPrefix(events, i, j); }
    }
  }

  lemma SameInPrefix(events: seq<Event>, i: nat, j: nat)
    requires i <= j < |events| - 1 && (events[i].Key? || i == j)
    ensures var prefix := events[..|events| - 1];
            && WakesAt(prefix, i) == WakesAt(events, i)
            && (events[i].Key? ==> KeepsHold(prefix, i, j) == KeepsHold(events, i, j))
  {
    hide Run;
    var prefix := events[..|events| - 1];
    assert prefix[..i] == events[..i] && prefix[..j] == events[..j];
  }

  /** A key event reaches the widgets exactly when the overlay is not up, it is not a press on
      a blanked display, and its key is not held since a press of it that woke the display:
      once anything ended that hold, its repeats and its release are delivered. */
  lemma DeliveredExactly(events: seq<Event>, e: Event)
    requires e.Key?
    ensures Run(events).Delivers(e) <==>
              && !e.covered && !(Run(events).isBlanked && e.action == Press)
              && !exists i :: StillHeldSince(events, i, e.key, e.scancode)
  {
    HeldExactly(events, e.key, e.scancode);
  }

  /** After a press that wakes the display, no event for that key and scancode reaches a
      widget until its release, or until another key is pressed on a blanked display. */
  lemma WakeKeyIsSwallowed(events: seq<Event>, i: nat, k: nat)
    requires i <= k < |events| && WakesAt(events, i)
    requires forall j :: i < j < k ==> KeepsHold(events, i, j)
    requires events[k].Key? && events[k].key == events[i].key && events[k].scancode == events[i].scancode
    ensures !Run(events[..k]).Delivers(events[k])
  {
    if i < k { HoldLasts(events, i, k); }
  }

  /** A failed wake by a second key also ends the hold: with key 1 still down, its next
      repeat is delivered although key 1 was not released and nothing woke in between. */
  lemma FailedWakeEndsHold()
    ensures var events := [Point(0, true, true, Off), Tick(0, true, 0), Key(1, 1, 1, Press, true, false),
                           Tick(2, true, 0), Key(3, 2, 2, Press, false, false), Key(4, 1, 1, Repeat, false, false)];
            && WakesAt(events, 2)
            && (forall j :: 2 < j < 5 ==> !WakesAt(events, j))
            && Run(events[..5]).Delivers(events[5])
  {
    var events := [Point(0, true, true, Off), Tick(0, true, 0), Key(1, 1, 1, Press, true, false),
                   Tick(2, true, 0), Key(3, 2, 2, Press, false, false), Key(4, 1, 1, Repeat, false, false)];
    assert events[..1][..0] == [] && events[..2][..1] == events[..1] && events[..3][..2] == events[..2];
    assert events[..4][..3] == events[..3] && events[..5][..4] == events[..4];
    var s1 := Run(events[..1]);
    assert Run(events[..1][..0]) == START;
    assert s1 == START.Step(events[0]);
    var s2 := Run(events[..2]);
    assert s2 == s1.Step(events[1]);
    var s3 := Run(events[..3]);
    assert s3 == s2.Step(events[2]);
    var s4 := Run(events[..4]);
    assert s4 == s3.Step(events[3]);
    assert Run(events[..5]) == s4.Step(events[4]);
  }

  predicate SteadyClock(events: seq<Event>) {
    forall i, j :: 0 <= i <= j < |events| ==> events[i].now <= events[j].now
  }

  /** A pending delay runs from before the event or from the event itself, and from the event
      if that is operator activity. */
  lemma DelayStep(s: State, e: Event)
    requires !(s.offPending && s.isBlanked) && s.Step(e).offPending
    ensures s.Step(e).offRequestedAt == e.now
            || (s.offPending && s.Step(e).offRequestedAt == s.offRequestedAt && !s.IsActivity(e))
  {
  }

  lemma {:induction false} DelayRestartsOnActivity(events: seq<Event>, i: nat)
    requires SteadyClock(events) && i < |events| && Run(events[..i]).IsActivity(events[i])
    requires Run(events).offPending
    ensures events[i].now <= Run(events).offRequestedAt
    decreases |events|
  {
    hide State.Step, State.IsActivity;
    var last := |events| - 1;
    var prefix := events[..last];
    BlankingFollowsRequest(prefix);
    DelayStep(Run(prefix), events[last]);
    if i < last {
      assert prefix[..i] == events[..i];
      if Run(prefix).offPending { DelayRestartsOnActivity(prefix, i); }
    }
  }

  /** The display is blanked only after the configured delay without operator activity. */
  lemma BlanksOnlyWhenQuiet(events: seq<Event>, i: nat, e: Event)
    requires SteadyClock(events + [e]) && i < |events| && Run(events[..i]).IsActivity(events[i])
    requires e.Tick? && !Run(events).isBlanked && Run(events).Step(e).isBlanked
    ensures e.now - events[i].now >= e.delaySeconds * TICKS_PER_SECOND
  {
    assert forall k :: 0 <= k < |events| ==> (events + [e])[k] == events[k];
    DelayRestartsOnActivity(events, i);
  }

  /** Event `i` starts the blanking delay: "off" is requested and was not before, or a press
      wakes the display or comes while the delay runs. */
  predicate StartsDelay(events: seq<Event>, i: nat)
    requires i < |events|
  {
    var before := Run(events[..i]);
    match events[i]
    case Point(_, settings, configured, value) =>
      settings && configured && value == Off && LastRequest(events[..i]) != Off
    case Tick(_, _, _) => false
    case Key(_, key, scancode, action, applied, _) =>
      action == Press && !before.Swallows(key, scancode) && ((before.isBlanked && applied) || before.offPending)
    case Mouse(_, down, applied, _) => down && ((before.isBlanked && applied) || before.offPending)
  }

  predicate LastStart(events: seq<Event>, i: nat) {
    i < |events| && StartsDelay(events, i) && forall j :: i < j < |events| ==> !StartsDelay(events, j)
  }

  lemma StartInPrefix(events: seq<Event>, i: nat)
    requires i < |events| - 1
    ensures StartsDelay(events[..|events| - 1], i) == StartsDelay(events, i)
  {
    assert events[..|events| - 1][..i] == events[..i];
  }

  /** A delay that runs does so from the event that started it last. */
  lemma {:induction false} DelayRunsFrom(events: seq<Event>) returns (i: nat)
    requires Run(events).offPending
    ensures LastStart(events, i) && Run(events).offRequestedAt == events[i].now
  {
    hide Run, State.Step, StartsDelay;
    assert events != [] by { NoDelayAtStart(); }
    var last := |events| - 1;
    RunStep(events);
    StartStep(events);
    if StartsDelay(events, last) {
      i := last;
    } else {
      i := DelayRunsFrom(events[..last]);
      forall j | 0 <= j < last ensures StartsDelay(events[..last], j) == StartsDelay(events, j) {
        StartInPrefix(events, j);
      }
    }
  }

  lemma NoDelayAtStart()
    ensures !Run([]).offPending
  {
  }

  lemma StartStep(events: seq<Event>)
    requires events != [] && Run(events).offPending
    ensures var before := Run(events[..|events| - 1]);
            if StartsDelay(events, |events| - 1) then Run(events).offRequestedAt == events[|events| - 1].now
            else before.offPending && Run(events).offRequestedAt == before.offRequestedAt
  {
    BlankingFollowsRequest(events[..|events| - 1]);
    RunStep(events);
    hide Run;
  }

  /** A timeout check blanks the display exactly when "off" was the last request and the delay
      has passed since the event that started it last. */
  lemma BlanksExactly(events: seq<Event>, e: Event)
    requires e.Tick? && !Run(events).isBlanked
    ensures Run(events).Step(e).isBlanked <==>
              && e.settings && LastRequest(events) == Off
              && exists i: nat :: LastStart(events, i) && e.now - events[i].now >= e.delaySeconds * 1_000_000_000
  {
    BlankingFollowsRequest(events);
    hide Run, LastStart;
    if Run(events).offPending {
      var i := DelayRunsFrom(events);
      forall k: nat | LastStart(events, k) ensures k == i { OneLastStart(events, i, k); }
    }
  }

  lemma OneLastStart(events: seq<Event>, i: nat, k: nat)
    requires LastStart(events, i) && LastStart(events, k)
    ensures i == k
  {
  }

  /** A blanked display comes back exactly at a recognised "on", or at a press other than the
      tail of a wake press for which the hardware obeys. */
  lemma WakesExactly(events: seq<Event>, e: Event)
    requires Run(events).isBlanked
    ensures !Run(events).Step(e).isBlanked <==>
              match e
              case Point(_, settings, configured, value) => settings && configured && value == On
              case Tick(_, _, _) => false
              case Key(_, key, scancode, action, applied, _) =>
                action == Press && applied && !exists i :: StillHeldSince(events, i, key, scancode)
              case Mouse(_, down, applied, _) => down && applied
  {
    BlankingFollowsRequest(events);
    if e.Key? { HeldExactly(events, e.key, e.scancode); }
    hide Run;
  }

  /** A button event reaches the widgets exactly when the overlay is not up and it is not the
      press that wakes the display. */
  lemma ClickDeliveredExactly(events: seq<Event>, e: Event)
    requires e.Mouse?
    ensures Run(events).Delivers(e) <==>
              !e.covered && !(Run(events).isBlanked && !Run(events).Step(e).isBlanked)
  {
    hide Run;
  }

  /** The panel's backlight fields, updated in place by its event handlers. */
  class BacklightController {
    var offPending: bool
    var isBlanked: bool
    var wakeKeyHeld: bool
    var wakeKey: int
    var wakeScancode: int
    var requestKnown: bool
    var requestedOn: bool
    var initialised: bool
    var offRequestedAt: int

    ghost function View(): State
      reads this
    {
      State(offPending, isBlanked, wakeKeyHeld, wakeKey, wakeScancode, requestKnown, requestedOn,
            initialised, offRequestedAt)
    }

    constructor ()
      ensures View() == START
    {
      offPending, isBlanked, wakeKeyHeld, wakeKey, wakeScancode := false, false, false, 0, 0;
      requestKnown, requestedOn, initialised, offRequestedAt := false, true, false, 0;
    }

    method UpdateRequest(now: int, settings: bool, configured: bool, value: Request)
      modifies this
      ensures View() == old(View()).Step(Point(now, settings, configured, value))
    {
      if !settings || !configured || value == Unrecognised {
        return;
      }
      var requested := value == On;
      if requestKnown && requestedOn == requested {
        return;
      }
      requestKnown := true;
      requestedOn := requested;
      if requested {
        offPending := false;
        isBlanked := false;
      } else {
        offRequestedAt := now;
        offPending := true;
      }
    }

    method ProcessTimeout(now: int, settings: bool, delaySeconds: int)
      modifies this
      ensures View() == old(View()).Step(Tick(now, settings, delaySeconds))
    {
      if !settings {
        return;
      }
      if !initialised {
        initialised := true;
        isBlanked := false;
      }
      if !offPending {
        return;
      }
      if now - offRequestedAt >= delaySeconds * TICKS_PER_SECOND {
        offPending := false;
        isBlanked := true;
      }
    }

    method NoteOperatorActivity(now: int)
      modifies this
      ensures View() == old(View()).NoteActivity(now)
    {
      if offPending {
        offRequestedAt := now;
      }
    }

    method TryWakeBlankedDisplay(now: int, applied: bool) returns (woken: bool)
      modifies this
      ensures woken == (old(isBlanked) && applied)
      ensures View() == if woken then old(View()).Wake(now) else old(View())
    {
      if !isBlanked || !applied {
        return false;
      }
      isBlanked := false;
      offRequestedAt := now;
      offPending := true;
      return true;
    }

    method KeyboardEvent(e: Event) returns (consumed: bool)
      requires e.Key?
      modifies this
      ensures View() == old(View()).Step(e)
      ensures consumed == !old(View()).Delivers(e)
    {
      if wakeKeyHeld && e.key == wakeKey && e.scancode == wakeScancode {
        if e.action == Release {
          wakeKeyHeld := false;
        }
        return true;
      }
      if isBlanked && e.action == Press {
        wakeKey := e.key;
        wakeScancode := e.scancode;
        wakeKeyHeld := true;
        var woken := TryWakeBlankedDisplay(e.now, e.applied);
        if !woken {
          wakeKeyHeld := false;
        }
        return true;
      }
      if e.action == Press {
        NoteOperatorActivity(e.now);
      }
      return e.covered;
    }

    method MouseButtonEvent(e: Event) returns (consumed: bool)
      requires e.Mouse?
      modifies this
      ensures View() == old(View()).Step(e)
      ensures consumed == !old(View()).Delivers(e)
    {
      if e.down && isBlanked {
        var woken := TryWakeBlankedDisplay(e.now, e.applied);
        if woken {
          return true;
        }
      }
      if e.down {
        NoteOperatorActivity(e.now);
      }
      return e.covered;
    }
  }
}
