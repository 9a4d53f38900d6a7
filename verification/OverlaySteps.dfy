/** When exactly the overlay comes up and when it is lifted. */
module OverlaySteps {
  import Clockwork
  import opened ControlOverlay
  import opened PanelRuns

  /** A visible, active overlay is lifted by an update exactly when the connections have
      been ready long enough and the window holds widgets, and by a painted frame exactly
      when it is the last one counted over a ready page. Nothing else lifts it. */
  lemma UncoversExactly(events: seq<Event>)
    requires events != [] && Run(events[..|events| - 1]).overlay.visible && OverlayActive(events[|events| - 1])
    ensures var before := Run(events[..|events| - 1]);
            var e := events[|events| - 1];
            Uncovers(events) <==>
              if e.Idle? then
                && ConnectionsReady(Run(events).links) && e.page.hasPanelWidgets
                && before.overlay.ReadyFor(e.now) >= Max(0, e.settings.uncoverSeconds) * 1_000_000_000
              else
                && e.Frame? && !e.captureExpired && ConnectionsReady(before.links)
                && e.page.working && e.page.hasPanelWidgets && e.page.screenLoaded
                && before.overlay.settleRemaining == 1
  {
    hide Run, ConnectionsReady;
    LastOverlay(events);
  }

  /** A hidden overlay comes up at an update exactly when the connections are unready and
      were never ready or have been unready for the delay, or when they are ready, not long
      enough to uncover, and the page has yet to be rebuilt under cover. */
  lemma CoversExactly(events: seq<Event>)
    requires events != [] && !Run(events[..|events| - 1]).overlay.visible && OverlayActive(events[|events| - 1])
    ensures var o := Run(events[..|events| - 1]).overlay;
            var e := events[|events| - 1];
            Run(events).overlay.visible <==>
              && e.Idle?
              && if !ConnectionsReady(Run(events).links) then
                   !o.everReady || UnreadyAge(o, e.now) >= Max(0, e.settings.delaySeconds) * 1_000_000_000
                 else
                   o.needsCoveredRebuild &&
                   o.ReadyFor(e.now) < Max(0, e.settings.uncoverSeconds) * 1_000_000_000
  {
    hide Run, ConnectionsReady;
    LastOverlay(events);
  }

  function UnreadyAge(o: Overlay, now: int): int { if o.disconnectPending then now - o.disconnectedAt else 0 }

  /** A drop is recorded exactly while the last update saw the connections unready. */
  lemma {:induction false} DropRecorded(events: seq<Event>)
    ensures Run(events).overlay.disconnectPending <==> LastSaw(events, false)
  {
    hide Run, ConnectionsReady;
    StartsHidden();
    if events != [] {
      RunKeepsOverlay(events[..|events| - 1]);
      DropRecorded(events[..|events| - 1]);
      LastSawNext(events, false);
      LastOverlay(events);
      assert events[..|events|] == events;
    }
  }

  lemma RunKeepsOverlay(events: seq<Event>)
    ensures OverlayInv(Run(events).overlay)
  {
  }

  /** The update that first saw the present run of unready connections. */
  lemma {:induction false} UnreadySince(events: seq<Event>) returns (j: nat)
    requires Run(events).overlay.disconnectPending
    ensures StreakFrom(events, j, false) && events[j].now == Run(events).overlay.disconnectedAt
  {
    hide Run, ConnectionsReady, LastSaw;
    StartsHidden();
    var last := |events| - 1;
    assert events[..last + 1] == events;
    LastOverlay(events);
    DropRecorded(events[..last]);
    if Run(events[..last]).overlay.disconnectPending {
      j := UnreadySince(events[..last]);
      StreakExtends(events, j, false);
      assert events[..last][..j] == events[..j];
    } else {
      j := last;
    }
  }

  /** Once connections were ready, a drop covers the panel only after updates saw them unready
      for the whole delay: a shorter flicker never does. */
  lemma CoverIsEarned(events: seq<Event>) returns (j: nat)
    requires events != [] && Run(events[..|events| - 1]).overlay.everReady
    requires !Run(events[..|events| - 1]).overlay.visible && Run(events).overlay.visible
    requires ObservedAt(events, |events| - 1, false)
    ensures StreakFrom(events, j, false)
    ensures var e := events[|events| - 1];
            e.now - events[j].now >= Max(0, e.settings.delaySeconds) * TICKS_PER_SECOND
  {
    hide Run;
    assert events[..|events|] == events;
    LastOverlay(events);
    j := UnreadySince(events);
  }

  // ---- what the overlay remembers ----

  /** The connections were once seen ready, at an update with the overlay in force. */
  lemma {:induction false} EverReadyExactly(events: seq<Event>)
    ensures Run(events).overlay.everReady <==> exists i :: 0 <= i < |events| && ObservedAt(events, i, true)
  {
    hide Run, ConnectionsReady;
    StartsHidden();
    if events != [] {
      var last := |events| - 1;
      var prefix := events[..last];
      EverReadyExactly(prefix);
      LastOverlay(events);
      assert events[..last + 1] == events;
      forall i | 0 <= i < last ensures ObservedAt(prefix, i, true) == ObservedAt(events, i, true) {
        assert prefix[..i + 1] == events[..i + 1];
      }
      if i :| 0 <= i < last && ObservedAt(prefix, i, true) { assert ObservedAt(events, i, true); }
      assert ObservedAt(events, last, true) ==> Run(events).overlay.everReady;
    }
  }

  /** At event `k` the page was rebuilt under cover, or the time for it had passed over a page
      with widgets. */
  predicate Rebuilt(events: seq<Event>, k: nat)
    requires k < |events|
  {
    var before, e := Run(events[..k]), events[k];
    if e.Frame? then
      && !e.captureExpired && before.overlay.visible && ConnectionsReady(before.links)
      && e.page.working && e.page.hasPanelWidgets && e.page.screenLoaded && before.overlay.settleRemaining == 1
    else
      && ObservedAt(events, k, true) && e.page.hasPanelWidgets
      && before.overlay.ReadyFor(e.now) >= Max(0, e.settings.uncoverSeconds) * TICKS_PER_SECOND
  }

  /** The page was rebuilt at event `k`, and every update since saw the connections ready. */
  predicate RebuiltSince(events: seq<Event>, k: nat) {
    && k < |events| && Rebuilt(events, k)
    && forall i :: k < i < |events| && events[i].Idle? ==> ObservedAt(events, i, true)
  }

  lemma RebuiltNext(events: seq<Event>, k: nat)
    requires events != [] && k < |events|
    ensures RebuiltSince(events, k) <==>
              if k == |events| - 1 then Rebuilt(events, k)
              else
                && RebuiltSince(events[..|events| - 1], k)
                && (events[|events| - 1].Idle? ==> ObservedAt(events, |events| - 1, true))
  {
    hide Run, ConnectionsReady;
    var prefix := events[..|events| - 1];
    if k < |events| - 1 {
      assert prefix[..k] == events[..k] && prefix[..k + 1] == events[..k + 1];
      forall i | k < i < |prefix| ensures ObservedAt(prefix, i, true) == ObservedAt(events, i, true) {
        assert prefix[..i + 1] == events[..i + 1];
      }
    }
  }

  /** A covered rebuild is still to come exactly until the page is rebuilt, and again from the
      first update that finds the connections unready or the overlay not in force. */
  lemma {:induction false} RebuildExactly(events: seq<Event>)
    ensures Run(events).overlay.needsCoveredRebuild <==> !exists k: nat :: RebuiltSince(events, k)
  {
    hide Run, ConnectionsReady, RebuiltSince;
    StartsHidden();
    if events != [] {
      var last := |events| - 1;
      RebuildExactly(events[..last]);
      forall k: nat | k < |events|
        ensures RebuiltSince(events, k) <==>
                  if k == last then Rebuilt(events, k)
                  else RebuiltSince(events[..last], k) && (events[last].Idle? ==> ObservedAt(events, last, true))
      {
        RebuiltNext(events, k);
      }
      LastRebuild(events);
      RebuiltInside(events);
      RebuiltInside(events[..last]);
    } else {
      RebuiltInside(events);
    }
  }

  lemma RebuiltInside(events: seq<Event>)
    ensures forall k: nat :: RebuiltSince(events, k) ==> k < |events|
  {
  }

  lemma LastRebuild(events: seq<Event>)
    requires events != []
    ensures var last := |events| - 1;
            !Run(events).overlay.needsCoveredRebuild <==>
              || Rebuilt(events, last)
              || (!Run(events[..last]).overlay.needsCoveredRebuild
                  && (events[last].Idle? ==> ObservedAt(events, last, true)))
  {
    hide Run, ConnectionsReady;
    RunKeepsOverlay(events[..|events| - 1]);
    LastOverlay(events);
    assert events[..|events|] == events;
  }

  /** The overlay is up only while the last update had the feature enabled and edit mode off:
      any other update takes it down, and no frame, message or monitor event brings it up. */
  lemma {:induction false} InactiveIsDown(events: seq<Event>)
    requires Run(events).overlay.visible
    ensures LastPass(events) > 0
    ensures var settings := events[LastPass(events) - 1].settings; settings.enabled && !settings.editMode
  {
    hide Run, ConnectionsReady;
    StartsHidden();
    LastOverlay(events);
    if !events[|events| - 1].Idle? { InactiveIsDown(events[..|events| - 1]); }
  }

  /** An update asks for a frame exactly when it changes whether the overlay is up, or leaves
      it up over ready connections before the time to uncover. */
  lemma RedrawExactly(o: Overlay, settings: Settings, page: Page, ready: bool, now: int)
    ensures var after := o.Update(settings, page, ready, now);
            o.RequestsRedraw(settings, page, ready, now) <==>
              || after.visible != o.visible
              || (&& settings.enabled && !settings.editMode && ready && after.visible
                  && o.ReadyFor(now) < Max(0, settings.uncoverSeconds) * TICKS_PER_SECOND)
  {
  }

  /** A frame count that runs is left as it is by an update that goes on counting and by a frame
      that is not counted, and a frame that is counted takes one off. */
  lemma CountRunsOn(events: seq<Event>)
    requires events != [] && Run(events[..|events| - 1]).overlay.settleRemaining > 0
    ensures var before, after, e := Run(events[..|events| - 1]), Run(events).overlay, events[|events| - 1];
            match e {
              case Idle(_, settings, page, now) =>
                ObservedAt(events, |events| - 1, true) && GoesOn(events, |events| - 1)
                && !(page.hasPanelWidgets &&
                     before.overlay.ReadyFor(now) >= Max(0, settings.uncoverSeconds) * TICKS_PER_SECOND) ==>
                  after.settleRemaining == before.overlay.settleRemaining
              case Frame(captureExpired, page) =>
                after.settleRemaining == before.overlay.settleRemaining -
                  (if !captureExpired && ConnectionsReady(before.links) && page.working && page.hasPanelWidgets
                      && page.screenLoaded then 1 else 0)
              case _ => after.settleRemaining == before.overlay.settleRemaining
            }
  {
    hide Run, ConnectionsReady;
    RunKeepsOverlay(events[..|events| - 1]);
    LastOverlay(events);
    assert events[..|events|] == events;
  }

  /** An operator message or a monitor event reaches the named connection and nothing else; a
      new connection joins behind the others. */
  lemma ReachesOne(p: Panel, index: nat, text: string, connected: bool)
    requires p.CommandPathsOk()
    ensures var told, seen := p.Step(Operate(index, text)), p.Step(Monitor(index, connected));
            var more := p.Step(AddConnection);
            && told.overlay == seen.overlay == more.overlay == p.overlay
            && more.links == p.links + [Clockwork.Initial()]
            && |told.links| == |seen.links| == |p.links|
            && forall i :: 0 <= i < |p.links| ==>
                 var l, message := p.links[i], Clockwork.Message(text, Clockwork.Operator);
                 if i != index then told.links[i] == seen.links[i] == l
                 else
                   && told.links[i] == l.(messages := l.messages + [message],
                                          history := l.history.(queued := l.history.queued + [message]))
                   && seen.links[i] ==
                      l.(needsRefresh := l.needsRefresh || connected || l.setupDone || l.channelWasReady)
  {
  }
}
