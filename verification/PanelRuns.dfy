/** Safety of the overlay over every run of the panel. */
module PanelRuns {
  import Clockwork
  import opened ControlOverlay
  import opened ClockworkRuns

  predicate OverlayInv(o: Overlay) {
    && (o.visible ==> o.needsCoveredRebuild)
    && (o.settleRemaining > 0 ==> o.visible && !o.disconnectPending && o.channelReadyAtValid)
    && (o.settleRemaining == 0 ==> !o.needsCoveredRebuild)
    && (o.channelReadyAtValid ==> o.everReady)
  }

  predicate LinksInv(links: seq<Clockwork.Link>) {
    forall i :: 0 <= i < |links| ==> Inv(links[i])
  }

  ghost predicate AllSnapshots(links: seq<Clockwork.Link>) {
    forall i :: 0 <= i < |links| ==> SnapshotBehindState(links[i])
  }

  predicate PanelInv(p: Panel) {
    LinksInv(p.links) && OverlayInv(p.overlay)
  }

  predicate SyncAllowedIn(e: Event) {
    e.Idle? ==> forall i :: 0 <= i < |e.inputs| ==> e.inputs[i].allowDataSync
  }

  lemma PassAllKeeps(p: Panel, inputs: seq<Clockwork.PassInput>)
    requires LinksInv(p.links)
    ensures LinksInv(p.PassAll(inputs))
    ensures AllSnapshots(p.links) && (forall i :: 0 <= i < |inputs| ==> inputs[i].allowDataSync) ==>
              AllSnapshots(p.PassAll(inputs))
  {
    forall i | 0 <= i < |p.links|
      ensures Inv(p.PassAll(inputs)[i])
      ensures SnapshotBehindState(p.links[i]) && (forall k :: 0 <= k < |inputs| ==> inputs[k].allowDataSync) ==>
                SnapshotBehindState(p.PassAll(inputs)[i])
    {
      PassKeeps(p.links[i], InputFor(inputs, i));
    }
  }

  lemma AtKeeps(p: Panel, index: nat, e: Clockwork.Event)
    requires LinksInv(p.links) && !e.Pass?
    ensures LinksInv(p.At(index, e).links)
    ensures AllSnapshots(p.links) ==> AllSnapshots(p.At(index, e).links)
    ensures p.At(index, e).overlay == p.overlay
  {
    if index < |p.links| {
      StepKeeps(p.links[index], e);
    }
  }

  lemma PanelStepKeeps(p: Panel, e: Event)
    requires PanelInv(p)
    ensures PanelInv(p.Step(e))
    ensures AllSnapshots(p.links) && SyncAllowedIn(e) ==> AllSnapshots(p.Step(e).links)
  {
    OverlayKeeps(p.overlay);
    hide OverlayInv, Overlay.Update, Overlay.AfterFrame, ConnectionsReady;
    match e
    case Idle(inputs, settings, page, now) => PassAllKeeps(p, inputs);
    case Frame(captureExpired, page) =>
    case Operate(index, text) => AtKeeps(p, index, Clockwork.Operate(text));
    case Monitor(index, connected) =>
      AtKeeps(p, index, if connected then Clockwork.MonitorConnected else Clockwork.MonitorDisconnected);
    case AddConnection => NewIsSound();
  }

  /** Updates and painted frames keep what relates the overlay's fields. */
  lemma OverlayKeeps(o: Overlay)
    requires OverlayInv(o)
    ensures forall settings: Settings, page: Page, ready: bool, now: int ::
              OverlayInv(o.Update(settings, page, ready, now))
    ensures forall expired: bool, ready: bool, page: Page :: OverlayInv(o.AfterFrame(expired, ready, page))
  {
  }

  lemma NewIsSound()
    ensures Inv(Clockwork.Initial()) && SnapshotBehindState(Clockwork.Initial())
  {
  }

  /** The panel after `events`, from start-up with no connection and no overlay. On every
      run a visible overlay still wants its covered rebuild, and an armed frame count
      means the overlay is visible, no drop is pending and a snapshot was seen. */
  function Run(events: seq<Event>): (p: Panel)
    ensures PanelInv(p)
  {
    if events == [] then Panel([], HIDDEN)
    else
      var before := Run(events[..|events| - 1]);
      PanelStepKeeps(before, events[|events| - 1]);
      before.Step(events[|events| - 1])
  }

  lemma {:induction false} SnapshotsOverRuns(events: seq<Event>)
    requires forall i :: 0 <= i < |events| ==> SyncAllowedIn(events[i])
    ensures AllSnapshots(Run(events).links)
  {
    if events != [] {
      SnapshotsOverRuns(events[..|events| - 1]);
      PanelStepKeeps(Run(events[..|events| - 1]), events[|events| - 1]);
    }
  }

  predicate OverlayActive(e: Event) {
    e.Idle? ==> e.settings.Active()
  }

  /** The overlay was visible and the last event uncovered the panel. */
  predicate Uncovers(events: seq<Event>) {
    events != [] && Run(events[..|events| - 1]).overlay.visible && !Run(events).overlay.visible
  }

  /** With data sync allowed throughout, the overlay in force at the uncovering step is
      lifted only over a panel that has widgets, with at least one connection, and after
      every connection's channel has delivered, since its latest ready edge, the answer
      to a snapshot request made since that edge. */
  lemma {:induction false} UncoverSafety(events: seq<Event>)
    requires Uncovers(events) && OverlayActive(events[|events| - 1])
    requires forall i :: 0 <= i < |events| ==> SyncAllowedIn(events[i])
    ensures var e := events[|events| - 1];
            (e.Idle? || e.Frame?) && e.page.hasPanelWidgets
    ensures var links := Run(events).links;
            && links != []
            && forall i :: 0 <= i < |links| ==>
                 links[i].setupDone && links[i].channelWasReady && FreshSnapshot(links[i])
  {
    SnapshotsOverRuns(events);
    var before := Run(events[..|events| - 1]);
    var e := events[|events| - 1];
    if e.Operate? { AtKeeps(before, e.index, Clockwork.Operate(e.text)); }
    if e.Monitor? {
      AtKeeps(before, e.index, if e.connected then Clockwork.MonitorConnected else Clockwork.MonitorDisconnected);
    }
    var links := Run(events).links;
    assert ConnectionsReady(links);
    forall i | 0 <= i < |links|
      ensures links[i].channelWasReady && FreshSnapshot(links[i])
    {
      assert LinkReady(links[i]);
      assert SnapshotBehindState(links[i]);
    }
  }

  // ---- how long an unready panel can stay uncovered ----

  predicate ObservedAt(events: seq<Event>, i: nat, ready: bool)
    requires i < |events|
  {
    events[i].Idle? && events[i].settings.Active() &&
    ConnectionsReady(Run(events[..i + 1]).links) == ready
  }

  /** Every overlay update from event `j` on is active and sees the connections `ready`. */
  predicate Streak(events: seq<Event>, j: nat, ready: bool) {
    && j < |events| && events[j].Idle?
    && forall i :: j <= i < |events| && events[i].Idle? ==> ObservedAt(events, i, ready)
  }

  /** The run up to and including its last pass over the connections. */
  function LastPass(events: seq<Event>): (n: nat)
    ensures n <= |events| && (n > 0 ==> events[n - 1].Idle?)
    ensures forall i :: n <= i < |events| ==> !events[i].Idle?
  {
    if events == [] then 0 else if events[|events| - 1].Idle? then |events| else LastPass(events[..|events| - 1])
  }

  /** The last update was active and saw the connections `ready`. */
  predicate LastSaw(events: seq<Event>, ready: bool) {
    LastPass(events) > 0 && ObservedAt(events, LastPass(events) - 1, ready)
  }

  /** The first update of the present series. */
  predicate StreakFrom(events: seq<Event>, j: nat, ready: bool) {
    Streak(events, j, ready) && !LastSaw(events[..j], ready)
  }

  lemma LastSawNext(events: seq<Event>, ready: bool)
    requires events != []
    ensures LastSaw(events, ready) ==
            if events[|events| - 1].Idle? then ObservedAt(events, |events| - 1, ready)
            else LastSaw(events[..|events| - 1], ready)
  {
    hide Run, ConnectionsReady;
    var prefix := events[..|events| - 1];
    if !events[|events| - 1].Idle? && LastPass(prefix) > 0 {
      assert prefix[..LastPass(prefix)] == events[..LastPass(prefix)];
    }
  }

  /** A ready time is recorded exactly while the last update saw the connections ready. */
  lemma {:induction false} ReadyRecorded(events: seq<Event>)
    ensures Run(events).overlay.channelReadyAtValid <==> LastSaw(events, true)
  {
    hide Run, ConnectionsReady;
    StartsHidden();
    if events != [] {
      ReadyRecorded(events[..|events| - 1]);
      LastSawNext(events, true);
      LastOverlay(events);
      assert events[..|events|] == events;
    }
  }

  predicate MonotoneClock(events: seq<Event>) {
    forall i, k :: 0 <= i <= k < |events| && events[i].Idle? && events[k].Idle? ==>
      events[i].now <= events[k].now
  }

  lemma StreakPrefix(events: seq<Event>, j: nat, ready: bool)
    requires Streak(events, j, ready) && j < |events| - 1
    ensures Streak(events[..|events| - 1], j, ready)
  {
    var prefix := events[..|events| - 1];
    forall i | j <= i < |prefix| && prefix[i].Idle?
      ensures ObservedAt(prefix, i, ready)
    {
      assert prefix[..i + 1] == events[..i + 1];
      assert ObservedAt(events, i, ready);
    }
  }

  lemma {:induction false} DropNotInFuture(events: seq<Event>, t: int)
    requires forall i :: 0 <= i < |events| && events[i].Idle? ==> events[i].now <= t
    ensures var o := Run(events).overlay;
            o.disconnectPending ==> o.disconnectedAt <= t
  {
    hide Run;
    StartsHidden();
    if events != [] { DropNotInFuture(events[..|events| - 1], t); LastOverlay(events); }
  }

  /** The overlay after the last event: updates and painted frames change it, operator
      messages, monitor flags and new connections do not. */
  lemma LastOverlay(events: seq<Event>)
    requires events != []
    ensures var before := Run(events[..|events| - 1]);
            var e := events[|events| - 1];
            Run(events).overlay ==
            match e {
              case Idle(_, settings, page, now) =>
                before.overlay.Update(settings, page, ConnectionsReady(Run(events).links), now)
              case Frame(captureExpired, page) =>
                before.overlay.AfterFrame(captureExpired, ConnectionsReady(before.links), page)
              case _ => before.overlay
            }
  {
  }

  lemma StartsHidden()
    ensures Run([]).overlay == HIDDEN
  {
  }

  lemma {:induction false} UnreadyStreakPending(events: seq<Event>, j: nat)
    requires Streak(events, j, false) && MonotoneClock(events)
    ensures var o := Run(events).overlay;
            o.disconnectPending && o.disconnectedAt <= events[j].now
    decreases |events|
  {
    hide Run;
    var last := |events| - 1;
    if j < last {
      StreakPrefix(events, j, false);
      UnreadyStreakPending(events[..last], j);
    } else {
      DropNotInFuture(events[..last], events[j].now);
    }
    LastOverlay(events);
    assert events[..last + 1] == events;
    assert events[last].Idle? ==> ObservedAt(events, last, false);
  }

  lemma {:induction false} EverReadyWasObserved(events: seq<Event>)
    requires forall i :: 0 <= i < |events| ==> !ObservedAt(events, i, true)
    ensures !Run(events).overlay.everReady
  {
    if events != [] {
      var prefix := events[..|events| - 1];
      forall i | 0 <= i < |prefix| ensures !ObservedAt(prefix, i, true) {
        assert prefix[..i + 1] == events[..i + 1];
        assert !ObservedAt(events, i, true);
      }
      EverReadyWasObserved(prefix);
      LastOverlay(events);
      assert events[..|events|] == events;
      assert !ObservedAt(events, |events| - 1, true);
    }
  }

  /** What the previous state must be for an unready update to leave the overlay visible. */
  lemma UnreadyUpdateShows(events: seq<Event>)
    requires events != [] && ObservedAt(events, |events| - 1, false)
    requires var o := Run(events[..|events| - 1]).overlay;
             var e := events[|events| - 1];
             || !o.everReady
             || e.now - (if o.disconnectPending then o.disconnectedAt else e.now)
                  >= Max(0, e.settings.delaySeconds) * TICKS_PER_SECOND
    ensures Run(events).overlay.visible
  {
    assert events[..|events|] == events;
    LastOverlay(events);
  }

  /** Until the connections have once been seen ready, every update covers the panel. */
  lemma ColdStartIsCovered(events: seq<Event>)
    requires events != [] && ObservedAt(events, |events| - 1, false)
    requires forall i :: 0 <= i < |events| ==> !ObservedAt(events, i, true)
    ensures Run(events).overlay.visible
  {
    var prefix := events[..|events| - 1];
    forall i | 0 <= i < |prefix| ensures !ObservedAt(prefix, i, true) {
      assert prefix[..i + 1] == events[..i + 1];
      assert !ObservedAt(events, i, true);
    }
    EverReadyWasObserved(prefix);
    UnreadyUpdateShows(events);
  }

  /** With a steady clock, the panel is covered after an update if every update since
      event `j` saw the connections unready and that was at least the delay ago. */
  lemma DropIsCoveredAfterDelay(events: seq<Event>, j: nat)
    requires Streak(events, j, false) && MonotoneClock(events)
    requires events[|events| - 1].Idle?
    requires var e := events[|events| - 1];
             e.now - events[j].now >= Max(0, e.settings.delaySeconds) * TICKS_PER_SECOND
    ensures Run(events).overlay.visible
  {
    PendingSince(events, j);
    UnreadyUpdateShows(events);
  }

  lemma PendingSince(events: seq<Event>, j: nat)
    requires Streak(events, j, false) && MonotoneClock(events) && events[|events| - 1].Idle?
    ensures ObservedAt(events, |events| - 1, false)
    ensures var o := Run(events[..|events| - 1]).overlay;
            (if o.disconnectPending then o.disconnectedAt else events[|events| - 1].now) <= events[j].now
  {
    hide Run, ConnectionsReady;
    var last := |events| - 1;
    assert ObservedAt(events, last, false);
    if j < last {
      StreakPrefix(events, j, false);
      UnreadyStreakPending(events[..last], j);
    } else {
      DropNotInFuture(events[..last], events[last].now);
    }
  }

  // ---- what an uncovering step has behind it ----

  /** The painted frames since event `j` that counted towards the covered rebuild. */
  function CoveredFrames(events: seq<Event>, j: nat): nat {
    if |events| <= j + 1 then 0
    else
      var prefix := events[..|events| - 1];
      var e := events[|events| - 1];
      var before := Run(prefix);
      CoveredFrames(prefix, j) +
      (if e.Frame? && before.overlay.CoversFrame(e.captureExpired, ConnectionsReady(before.links), e.page)
       then 1 else 0)
  }

  /** The update that first saw the present run of ready connections. */
  lemma {:induction false} ReadySince(events: seq<Event>) returns (j: nat)
    requires Run(events).overlay.channelReadyAtValid
    ensures StreakFrom(events, j, true) && events[j].now == Run(events).overlay.channelReadyAt
  {
    hide Run;
    StartsHidden();
    var last := |events| - 1;
    var prefix := events[..last];
    assert events[..last + 1] == events;
    LastOverlay(events);
    ReadyRecorded(prefix);
    if Run(prefix).overlay.channelReadyAtValid {
      j := ReadySince(prefix);
      StreakExtends(events, j, true);
      assert prefix[..j] == events[..j];
    } else {
      j := last;
    }
  }

  lemma StreakExtends(events: seq<Event>, j: nat, ready: bool)
    requires events != [] && Streak(events[..|events| - 1], j, ready)
    requires events[|events| - 1].Idle? ==> ObservedAt(events, |events| - 1, ready)
    ensures Streak(events, j, ready)
  {
    var prefix := events[..|events| - 1];
    forall i | j <= i < |prefix| && events[i].Idle?
      ensures ObservedAt(events, i, ready)
    {
      assert prefix[..i + 1] == events[..i + 1];
      assert ObservedAt(prefix, i, ready);
    }
  }

  /** An update that goes on counting frames: it finds the page ready, or is due to uncover
      and finds no widgets. */
  predicate GoesOn(events: seq<Event>, i: nat)
    requires i < |events| && events[i].Idle?
  {
    var e := events[i];
    || (e.page.working && e.page.hasPanelWidgets && e.page.screenLoaded)
    || (!e.page.hasPanelWidgets &&
        Run(events[..i]).overlay.ReadyFor(e.now) >= Max(0, e.settings.uncoverSeconds) * TICKS_PER_SECOND)
  }

  /** The update that armed the present frame count, with the frames already painted; none
      since has broken it off. */
  lemma {:induction false} ArmedSince(events: seq<Event>) returns (j: nat)
    requires Run(events).overlay.settleRemaining > 0
    ensures Streak(events, j, true) && Run(events[..j]).overlay.settleRemaining <= 0
    ensures forall i :: j <= i < |events| && events[i].Idle? ==> GoesOn(events, i)
    ensures Max(1, events[j].settings.settleFrames) ==
            Run(events).overlay.settleRemaining + CoveredFrames(events, j)
  {
    hide Run;
    StartsHidden();
    var last := |events| - 1;
    var prefix := events[..last];
    assert events[..last + 1] == events;
    LastOverlay(events);
    if Run(prefix).overlay.settleRemaining > 0 {
      j := ArmedSince(prefix);
      StreakExtends(events, j, true);
      assert prefix[..j] == events[..j];
      forall i | j <= i < last && events[i].Idle? ensures GoesOn(events, i) {
        assert prefix[..i] == events[..i] && GoesOn(prefix, i);
      }
    } else {
      j := last;
    }
  }

  /** Every uncovering step of an active overlay ends a run of updates that all saw the
      connections ready, and either that run began at least the configured uncover time
      ago, or the updates since one of them all went on counting and exactly the configured
      number (at least one) of frames was painted under the overlay over a ready page. */
  lemma UncoverIsEarned(events: seq<Event>) returns (j: nat)
    requires Uncovers(events) && OverlayActive(events[|events| - 1])
    ensures Streak(events, j, true)
    ensures var e := events[|events| - 1];
            if e.Idle? then
              && StreakFrom(events, j, true)
              && e.now - events[j].now >= Max(0, e.settings.uncoverSeconds) * TICKS_PER_SECOND
            else
              && CoveredFrames(events, j) == Max(1, events[j].settings.settleFrames)
              && forall i :: j <= i < |events| && events[i].Idle? ==> GoesOn(events, i)
  {
    var last := |events| - 1;
    assert events[..last + 1] == events;
    if events[last].Idle? {
      LastOverlay(events);
      hide Run, ConnectionsReady, ObservedAt;
      j := ReadySince(events);
    } else {
      LastFrame(events);
      hide Run, ConnectionsReady, ObservedAt, GoesOn, Streak;
      j := ArmedSince(events[..last]);
      StreakExtends(events, j, true);
      GoneOn(events, j);
    }
  }

  /** An uncovering that is not an update is the frame counted last. */
  lemma LastFrame(events: seq<Event>)
    requires Uncovers(events) && !events[|events| - 1].Idle?
    ensures Run(events[..|events| - 1]).overlay.settleRemaining == 1
    ensures forall j :: 0 <= j < |events| - 1 ==>
              CoveredFrames(events, j) == CoveredFrames(events[..|events| - 1], j) + 1
  {
    LastOverlay(events);
    hide Run, ConnectionsReady;
  }

  lemma GoneOn(events: seq<Event>, j: nat)
    requires events != [] && !events[|events| - 1].Idle?
    requires var prefix := events[..|events| - 1];
             forall i :: j <= i < |prefix| && prefix[i].Idle? ==> GoesOn(prefix, i)
    ensures forall i :: j <= i < |events| && events[i].Idle? ==> GoesOn(events, i)
  {
    hide Run;
    forall i | j <= i < |events| - 1 && events[i].Idle? ensures GoesOn(events, i) {
      assert events[..|events| - 1][..i] == events[..i] && GoesOn(events[..|events| - 1], i);
    }
  }
}
