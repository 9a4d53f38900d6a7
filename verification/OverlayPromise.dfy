/** The documented promise of an uncovering: every connection in `Done`, the selected page
    shown, a frame painted under the overlay. The exact conditions under which each part is
    kept, and runs that break them. */
module OverlayPromise {
  import opened Common
  import Clockwork
  import ClockworkRuns
  import opened ControlOverlay
  import opened PanelRuns
  import opened OverlaySteps

  /** The GUI is in one state during a pass: the connections' updates find a working panel
      exactly when the overlay does, if there is a window with widgets. The page shown may
      still change between the two, when a message selects another screen. */
  predicate Consistent(e: Event) {
    e.Idle? ==>
      forall i :: 0 <= i < |e.inputs| ==>
        && (e.inputs[i].panelWorking ==> e.page.working)
        && (e.page.working && e.page.hasPanelWidgets ==> e.inputs[i].panelWorking)
  }

  // ---- every connection in `Done` ----

  predicate AllDone(links: seq<Clockwork.Link>) {
    forall i :: 0 <= i < |links| ==> links[i].startup == Clockwork.Done
  }

  /** The reply to a refresh in flight arrives in the pass, and it is an array. */
  predicate SnapshotArrives(l: Clockwork.Link, input: Clockwork.PassInput) {
    && input.check == Clockwork.Up(true) && l.channelWasReady
    && l.commandState == Clockwork.WaitingResponse
    && l.messages != [] && l.messages[0].callback == Clockwork.DataRefresh
    && !l.TimedOut(input.commandClock) && input.received == Clockwork.Text(Clockwork.JsonArray)
  }

  /** A snapshot that arrived earlier is still not shown: the pass threw, or found no
      working panel. */
  predicate SnapshotWaits(l: Clockwork.Link, input: Clockwork.PassInput) {
    l.startup == Clockwork.Reload && (input.check == Clockwork.Threw || !input.panelWorking)
  }

  /** The command in flight is the same, and started at the same time. */
  predicate SamePath(l: Clockwork.Link, m: Clockwork.Link) {
    && m.commandState == l.commandState && m.channelWasReady == l.channelWasReady
    && m.commandRequestStart == l.commandRequestStart && l.messages <= m.messages
  }

  /** Where an update leads from `l`: a snapshot that is there is shown if the panel works. */
  predicate Shown(l: Clockwork.Link, working: bool, m: Clockwork.Link) {
    && m.startup in {Clockwork.Sent, Clockwork.Done, Clockwork.Reload}
    && (m.startup == Clockwork.Reload ==> l.startup == Clockwork.Reload && !working)
    && (m.startup == Clockwork.Done ==> l.startup == Clockwork.Done || (l.startup == Clockwork.Reload && working))
  }

  lemma RequestShows(l: Clockwork.Link, working: bool)
    requires l.startup != Clockwork.Starting
    ensures var shown := l.RequestSnapshot(true).ShowSnapshot(working);
            SamePath(l, shown) && Shown(l, working, shown)
  {
  }

  lemma UpdateShows(l: Clockwork.Link, input: Clockwork.PassInput)
    requires input.allowDataSync && l.startup != Clockwork.Starting
    ensures SamePath(l, l.UpdateData(input)) && Shown(l, input.panelWorking, l.UpdateData(input))
  {
    hide Clockwork.Link.RequestSnapshot, Clockwork.Link.ShowSnapshot;
    var taken := l.Raise(input.flag3).TakeRefreshFlag().Raise(input.flag4);
    RequestShows(taken, input.panelWorking);
  }

  /** With data sync allowed nothing but `Done` without a refresh flag escapes the update. */
  lemma PrepareShows(l: Clockwork.Link, input: Clockwork.PassInput)
    requires input.allowDataSync && l.startup != Clockwork.Starting
    ensures SamePath(l, l.PrepareRefresh(input)) && Shown(l, input.panelWorking, l.PrepareRefresh(input))
  {
    hide Clockwork.Link.UpdateData, Clockwork.Link.Throttle;
    var armed := l.Raise(input.flag1).ArmRefresh(true).Raise(input.flag2);
    ClockworkRuns.ThrottleOnly(armed, input.throttleClock);
    UpdateShows(armed.Throttle(input.throttleClock), input);
  }

  /** Serving a command ends in `Reload` when it is a snapshot that arrives, and otherwise
      where it was or in `Init`. */
  lemma ServeReloads(l: Clockwork.Link, input: Clockwork.PassInput)
    requires l.CommandPathOk() && l.socket.Some?
    ensures var served := l.HandleCommand(input);
            var arrives := && l.commandState == Clockwork.WaitingResponse
                           && l.messages[0].callback == Clockwork.DataRefresh
                           && !l.TimedOut(input.commandClock)
                           && input.received == Clockwork.Text(Clockwork.JsonArray);
            && (arrives ==> served.startup == Clockwork.Reload)
            && (!arrives ==> served.startup == l.startup || served.startup == Clockwork.Init)
  {
  }

  /** A channel that was not ready has no refresh in flight and starts over in `Init`. */
  lemma EdgeStartsOver(l: Clockwork.Link, input: Clockwork.PassInput)
    requires ClockworkRuns.Inv(l) && l.socket.Some? && !l.channelWasReady
    ensures var edged := l.ChannelEdge(true, input.channelClock);
            && edged.startup == Clockwork.Init
            && (edged.messages != [] ==> edged.messages[0].callback != Clockwork.DataRefresh)
  {
  }

  /** A connection that a pass leaves ready is in `Reload` exactly when its snapshot arrived
      in that pass, or arrived earlier and could not be shown. */
  lemma ReloadExactly(l: Clockwork.Link, input: Clockwork.PassInput)
    requires ClockworkRuns.Inv(l) && input.allowDataSync
    ensures l.IdlePass(input).startup in {Clockwork.Done, Clockwork.Reload} ==>
              (l.IdlePass(input).startup == Clockwork.Reload <==> SnapshotArrives(l, input) || SnapshotWaits(l, input))
  {
    hide Clockwork.Link.PrepareRefresh, Clockwork.Link.HandleCommand;
    var c := if l.socket == None then l.SetupCommandInterface() else l;
    match input.check {
      case Threw =>
      case Failed =>
      case Up(ready) =>
        if ready {
          var edged := c.ChannelEdge(true, input.channelClock);
          var prepared := edged.PrepareRefresh(input);
          PrepareShows(edged, input);
          ServeReloads(prepared, input);
          if !l.channelWasReady { EdgeStartsOver(c, input); }
        }
    }
  }

  /** Between passes connections are only added, and no startup state changes. */
  lemma StepStands(p: Panel, e: Event)
    requires p.CommandPathsOk() && !e.Idle?
    ensures var after := p.Step(e).links;
            && |p.links| <= |after|
            && forall i :: 0 <= i < |after| ==>
                 after[i].startup == if i < |p.links| then p.links[i].startup else Clockwork.Init
  {
  }

  lemma RunStep(events: seq<Event>)
    requires events != []
    ensures Run(events[..|events| - 1]).CommandPathsOk()
    ensures Run(events) == Run(events[..|events| - 1]).Step(events[|events| - 1])
  {
  }

  /** Every connection has the startup state that the last pass left it in, or is new. */
  lemma {:induction false} StartupStands(events: seq<Event>)
    ensures var passed, links := Run(events[..LastPass(events)]).links, Run(events).links;
            && |passed| <= |links|
            && forall i :: 0 <= i < |links| ==>
                 links[i].startup == if i < |passed| then passed[i].startup else Clockwork.Init
  {
    hide Run;
    assert events[..|events|] == events;
    if LastPass(events) < |events| {
      var prefix := events[..|events| - 1];
      assert events[..LastPass(events)] == prefix[..LastPass(prefix)];
      RunStep(events);
      StartupStands(prefix);
      StepStands(Run(prefix), events[|events| - 1]);
    }
  }

  lemma ReadyAtUncover(events: seq<Event>)
    requires Uncovers(events) && OverlayActive(events[|events| - 1])
    ensures ConnectionsReady(Run(events).links) && (events[|events| - 1].Idle? || events[|events| - 1].Frame?)
    ensures events[|events| - 1].page.hasPanelWidgets
    ensures events[|events| - 1].Frame? ==> events[|events| - 1].page.Ready()
  {
    hide Run, ConnectionsReady;
    UncoversExactly(events);
    if events[|events| - 1].Frame? {
      RunStep(events);
    }
  }

  /** The connections of an uncovered panel that are still in `Reload` are those whose
      snapshot arrived in the last pass, or could not be shown in it. */
  lemma DoneExactly(events: seq<Event>)
    requires Uncovers(events) && OverlayActive(events[|events| - 1])
    requires LastPass(events) > 0 ==> SyncAllowedIn(events[LastPass(events) - 1])
    ensures LastPass(events) > 0
    ensures AllDone(Run(events).links) <==> AllShown(events)
  {
    hide Run, ShownInPass, LinkReady, Uncovers, Overlay.Update, InputFor, SyncAllowedIn, OverlayActive;
    hide ClockworkRuns.Inv, Clockwork.Link.IdlePass, Clockwork.Link.CommandPathOk;
    ReadyAtUncover(events);
    StartupStands(events);
    NoPassNoLinks(events);
    var passing := events[..LastPass(events)];
    assert passing[..|passing| - 1] == events[..|passing| - 1];
    ReadyBeforeNew(events);
    hide ConnectionsReady;
    PassedCount(passing);
    PassShows(passing);
  }

  lemma PassedCount(events: seq<Event>)
    requires events != [] && events[|events| - 1].Idle?
    ensures |Run(events).links| == |Run(events[..|events| - 1]).links|
  {
    PassedLinks(events);
  }

  /** Ready connections were there at the last pass, and it left them ready but for the
      channel status. */
  lemma ReadyBeforeNew(events: seq<Event>)
    requires ConnectionsReady(Run(events).links)
    ensures var passed := Run(events[..LastPass(events)]).links;
            && |passed| == |Run(events).links|
            && forall i :: 0 <= i < |passed| ==> passed[i].startup in {Clockwork.Done, Clockwork.Reload}
  {
    hide Run;
    StartupStands(events);
    var links, passed := Run(events).links, Run(events[..LastPass(events)]).links;
    assert |passed| < |links| ==> LinkReady(links[|passed|]);
    forall i | 0 <= i < |links| ensures links[i].startup in {Clockwork.Done, Clockwork.Reload} {
      assert LinkReady(links[i]);
    }
  }

  /** A pass leaves a connection that it leaves ready in `Done` exactly when its snapshot is
      shown. */
  lemma PassShows(events: seq<Event>)
    requires events != [] && events[|events| - 1].Idle? && SyncAllowedIn(events[|events| - 1])
    ensures var before, e, after := Run(events[..|events| - 1]).links, events[|events| - 1], Run(events).links;
            forall i :: 0 <= i < |after| && i < |before| && after[i].startup in {Clockwork.Done, Clockwork.Reload} ==>
              (after[i].startup == Clockwork.Done <==> ShownInPass(before[i], InputFor(e.inputs, i)))
  {
    hide Run, Clockwork.Link.IdlePass, SnapshotArrives, SnapshotWaits, ClockworkRuns.Inv;
    var before, e, after := Run(events[..|events| - 1]).links, events[|events| - 1], Run(events).links;
    PassedLinks(events);
    forall i | 0 <= i < |after| && after[i].startup in {Clockwork.Done, Clockwork.Reload}
      ensures after[i].startup == Clockwork.Done <==> ShownInPass(before[i], InputFor(e.inputs, i))
    {
      ReloadExactly(before[i], InputFor(e.inputs, i));
    }
  }

  predicate ShownInPass(l: Clockwork.Link, input: Clockwork.PassInput) {
    !SnapshotArrives(l, input) && !SnapshotWaits(l, input)
  }

  /** Every connection's snapshot was shown when the last pass ended. */
  predicate AllShown(events: seq<Event>)
    requires LastPass(events) > 0
  {
    var n := LastPass(events);
    var before := Run(events[..n - 1]).links;
    forall i :: 0 <= i < |before| ==> ShownInPass(before[i], InputFor(events[n - 1].inputs, i))
  }

  lemma PassedLinks(events: seq<Event>)
    requires events != [] && events[|events| - 1].Idle?
    ensures var before, e, after := Run(events[..|events| - 1]).links, events[|events| - 1], Run(events).links;
            && |after| == |before|
            && forall i :: 0 <= i < |after| ==>
                 ClockworkRuns.Inv(before[i]) && after[i] == before[i].IdlePass(InputFor(e.inputs, i))
  {
    hide Clockwork.Link.IdlePass;
  }

  /** Before the first pass there is no ready connection. */
  lemma NoPassNoLinks(events: seq<Event>)
    requires ConnectionsReady(Run(events).links)
    ensures LastPass(events) > 0
  {
    hide Run;
    StartupStands(events);
    if LastPass(events) == 0 {
      assert LinkReady(Run(events).links[0]);
      StartsEmpty();
    }
  }

  lemma StartsEmpty()
    ensures Run([]).links == []
  {
  }

  // ---- a frame painted under the overlay ----

  /** A frame painted under the overlay over a ready page, which the overlay counts. */
  predicate CountsFrame(events: seq<Event>, k: nat)
    requires k < |events|
  {
    var before := Run(events[..k]);
    && events[k].Frame?
    && before.overlay.CoversFrame(events[k].captureExpired, ConnectionsReady(before.links), events[k].page)
  }

  /** A counted frame was painted in the present series of ready updates. */
  ghost predicate FramePainted(events: seq<Event>) {
    exists j :: Streak(events, j, true) && CoveredFrames(events, j) >= 1
  }

  /** A frame is counted, more are to come, and every update since saw the connections ready. */
  ghost predicate MoreToCome(events: seq<Event>, k: nat) {
    && k < |events| && CountsFrame(events, k) && Run(events[..k]).overlay.settleRemaining > 1
    && forall i :: k < i < |events| && events[i].Idle? ==> ObservedAt(events, i, true)
  }

  lemma ObservedPrefix(events: seq<Event>, i: nat)
    requires events != [] && i < |events| - 1
    ensures ObservedAt(events[..|events| - 1], i, true) == ObservedAt(events, i, true)
    ensures CountsFrame(events[..|events| - 1], i) == CountsFrame(events, i)
    ensures Run(events[..|events| - 1][..i]) == Run(events[..i])
  {
    var prefix := events[..|events| - 1];
    assert prefix[..i + 1] == events[..i + 1] && prefix[..i] == events[..i];
  }

  lemma MoreToComeGrows(events: seq<Event>, k: nat)
    requires events != [] && (events[|events| - 1].Idle? ==> ObservedAt(events, |events| - 1, true))
    requires MoreToCome(events[..|events| - 1], k)
    ensures MoreToCome(events, k)
  {
    hide ObservedAt, CountsFrame, Run;
    forall i | 0 <= i < |events| - 1
      ensures ObservedAt(events[..|events| - 1], i, true) == ObservedAt(events, i, true)
              && CountsFrame(events[..|events| - 1], i) == CountsFrame(events, i)
              && Run(events[..|events| - 1][..i]) == Run(events[..i])
    {
      ObservedPrefix(events, i);
    }
  }

  /** After a counted frame of a ready series either more are to come or the overlay is gone
      for good: a frame that is the last one lifts it. */
  lemma {:induction false} CountedOrGone(events: seq<Event>, j: nat)
    requires Streak(events, j, true)
    ensures CoveredFrames(events, j) == 0 || (exists k :: MoreToCome(events, k))
            || (!Run(events).overlay.visible && !Run(events).overlay.needsCoveredRebuild)
  {
    hide Run, MoreToCome, ConnectionsReady;
    var last := |events| - 1;
    var prefix := events[..last];
    assert events[..last + 1] == events;
    if CoveredFrames(events, j) >= 1 {
      StreakPrefix(events, j, true);
      LastOverlay(events);
      CountedOrGone(prefix, j);
      if CoveredFrames(prefix, j) >= 1 {
        if k :| MoreToCome(prefix, k) { MoreToComeGrows(events, k); }
      } else if Run(prefix).overlay.settleRemaining > 1 {
        LastToCome(events);
      }
    }
  }

  lemma LastToCome(events: seq<Event>)
    requires events != [] && CountsFrame(events, |events| - 1)
    requires Run(events[..|events| - 1]).overlay.settleRemaining > 1
    ensures MoreToCome(events, |events| - 1)
  {
  }

  lemma {:induction false} CountsIncluded(events: seq<Event>, j: nat, k: nat)
    requires j < k < |events| && CountsFrame(events, k)
    ensures CoveredFrames(events, j) >= 1
    decreases |events|
  {
    hide Run;
    if k < |events| - 1 {
      ObservedPrefix(events, k);
      CountsIncluded(events[..|events| - 1], j, k);
    }
  }

  /** At an uncovering step a counted frame was painted in the present series exactly when
      the step is such a frame, or an earlier one left more to come. */
  lemma PaintedExactly(events: seq<Event>)
    requires Uncovers(events) && OverlayActive(events[|events| - 1])
    ensures FramePainted(events) <==>
              events[|events| - 1].Frame? || exists k :: MoreToCome(events, k)
  {
    assert events != [];
    hide Run, MoreToCome, ConnectionsReady, Uncovers;
    var last := |events| - 1;
    ReadyAtUncover(events);
    if events[last].Frame? {
      FrameCounts(events);
    } else {
      if j :| Streak(events, j, true) && CoveredFrames(events, j) >= 1 { TimedAfterFrame(events, j); }
      if k :| MoreToCome(events, k) { PaintedBefore(events, k); }
    }
  }

  lemma FrameCounts(events: seq<Event>)
    requires Uncovers(events) && events[|events| - 1].Frame?
    ensures FramePainted(events)
  {
    hide Run, Streak, CoveredFrames, Uncovers;
    var j := UncoverIsEarned(events);
  }

  lemma TimedAfterFrame(events: seq<Event>, j: nat)
    requires Uncovers(events) && events[|events| - 1].Idle?
    requires Streak(events, j, true) && CoveredFrames(events, j) >= 1
    ensures exists k :: MoreToCome(events, k)
  {
    hide Run, MoreToCome, ConnectionsReady, ObservedAt;
    var prefix := events[..|events| - 1];
    StreakPrefix(events, j, true);
    CountedOrGone(prefix, j);
    var k :| MoreToCome(prefix, k);
    MoreToComeGrows(events, k);
  }

  lemma PaintedBefore(events: seq<Event>, k: nat)
    requires MoreToCome(events, k)
    ensures FramePainted(events)
  {
    hide Run, ConnectionsReady, ObservedAt, CoveredFrames, CountsFrame;
    var j := ArmedSince(events[..k]);
    forall i | 0 <= i < k ensures ObservedAt(events[..k], i, true) == ObservedAt(events, i, true) {
      ObservedIn(events, k, i);
    }
    CountIsFrame(events, k);
    CountsIncluded(events, j, k);
  }

  lemma CountIsFrame(events: seq<Event>, k: nat)
    requires k < |events| && CountsFrame(events, k)
    ensures events[k].Frame?
  {
  }

  lemma ObservedIn(events: seq<Event>, k: nat, i: nat)
    requires i < k <= |events|
    ensures ObservedAt(events[..k], i, true) == ObservedAt(events, i, true)
  {
    assert events[..k][..i + 1] == events[..i + 1];
  }

  /** While every update asks for at most one frame, as by default, that is: exactly when the
      step is a painted frame. The timed uncovering never has one behind it. */
  lemma PaintedByDefault(events: seq<Event>)
    requires Uncovers(events) && OverlayActive(events[|events| - 1])
    requires forall i :: 0 <= i < |events| && events[i].Idle? ==> events[i].settings.settleFrames <= 1
    ensures FramePainted(events) <==> events[|events| - 1].Frame?
  {
    hide Run, Uncovers, FramePainted;
    PaintedExactly(events);
    if k: nat :| MoreToCome(events, k) { AtMostOne(events[..k]); }
  }

  lemma {:induction false} AtMostOne(events: seq<Event>)
    requires forall i :: 0 <= i < |events| && events[i].Idle? ==> events[i].settings.settleFrames <= 1
    ensures Run(events).overlay.settleRemaining <= 1
  {
    hide Run, ConnectionsReady;
    StartsHidden();
    if events != [] {
      AtMostOne(events[..|events| - 1]);
      LastOverlay(events);
    }
  }

  // ---- the drawing loop ----

  /** The update asks for a frame, which is painted in the same turn of the drawing loop. */
  predicate AsksForFrame(events: seq<Event>, k: nat)
    requires k < |events|
  {
    var e := events[k];
    && e.Idle?
    && Run(events[..k]).overlay.RequestsRedraw(e.settings, e.page, ConnectionsReady(Run(events[..k + 1]).links), e.now)
  }

  /** A frame over the page of update `k` comes right after it, if anything does. */
  predicate PaintedNext(events: seq<Event>, k: nat)
    requires k < |events|
  {
    k + 1 < |events| ==> events[k].Idle? && events[k + 1].Frame? && events[k + 1].page == events[k].page
  }

  predicate FollowsUpdate(events: seq<Event>, k: nat)
    requires k < |events|
  {
    events[k].Frame? ==> k > 0 && events[k - 1].Idle? && events[k].page == events[k - 1].page
  }

  /** The events of a drawing loop: a frame is painted right after an update, over the same
      page, and always after an update that asks for one. A monitor event that comes between
      the two is counted after the frame. */
  predicate Drawn(events: seq<Event>) {
    forall k :: 0 <= k < |events| ==> (AsksForFrame(events, k) ==> PaintedNext(events, k)) && FollowsUpdate(events, k)
  }

  /** The overlay is down, and nothing but an unready or inactive update will bring it up. */
  predicate Gone(o: Overlay) { !o.visible && !o.needsCoveredRebuild }

  /** Within a series of ready updates an overlay that is gone stays gone. */
  lemma {:induction false} StaysGone(events: seq<Event>, j: nat, m: nat, n: nat)
    requires Streak(events, j, true) && j < m <= n <= |events| && Gone(Run(events[..m]).overlay)
    ensures Gone(Run(events[..n]).overlay)
    decreases n
  {
    hide Run, ConnectionsReady;
    if m < n {
      StaysGone(events, j, m, n - 1);
      OverlayStep(events, n - 1);
      assert events[n - 1].Idle? ==> ObservedAt(events, n - 1, true);
    }
  }

  /** The overlay before and after event `k`. */
  lemma OverlayStep(events: seq<Event>, k: nat)
    requires k < |events|
    ensures var before, after := Run(events[..k]), Run(events[..k + 1]);
            after.overlay ==
            match events[k] {
              case Idle(_, settings, page, now) =>
                before.overlay.Update(settings, page, ConnectionsReady(after.links), now)
              case Frame(captureExpired, page) =>
                before.overlay.AfterFrame(captureExpired, ConnectionsReady(before.links), page)
              case _ => before.overlay
            }
  {
    hide Run;
    assert events[..k + 1][..k] == events[..k];
    LastOverlay(events[..k + 1]);
  }

  /** An update that finds the connections and the page ready leaves the overlay gone, or
      asks for a frame that it will count. */
  lemma ReadyUpdate(o: Overlay, settings: Settings, page: Page, now: int)
    requires OverlayInv(o) && settings.Active() && page.Ready()
    ensures var after := o.Update(settings, page, true, now);
            Gone(after) || (after.visible && after.settleRemaining > 0 && o.RequestsRedraw(settings, page, true, now))
  {
  }

  /** From update `j` to the last one the configured uncover time has passed. */
  predicate OldEnough(events: seq<Event>, j: nat) {
    && j < |events| && events[j].Idle? && events[|events| - 1].Idle?
    && var last := events[|events| - 1];
       last.now - events[j].now >= Max(0, last.settings.uncoverSeconds) * TICKS_PER_SECOND
  }

  /** The frame after event `i` leaves more to come, or is the last one of a capture. */
  ghost predicate LeavesMore(events: seq<Event>, i: nat) {
    i + 1 < |events| && events[i + 1].Frame? && (events[i + 1].captureExpired || MoreToCome(events, i + 1))
  }

  predicate EndsCapture(events: seq<Event>, i: nat) {
    i + 1 < |events| && events[i + 1].Frame? && events[i + 1].captureExpired
  }

  /** Event `i` is an update that found the page ready. */
  predicate FoundPage(events: seq<Event>, i: nat) {
    i < |events| && events[i].Idle? && events[i].page.Ready()
  }

  /** What a timed uncovering has behind it in a drawing loop: a series of ready updates that
      is old enough, in which every earlier update over a ready page was followed by a frame
      that left more to come, or by the last frame of a capture. */
  lemma TimedUncoverBehind(events: seq<Event>) returns (j: nat)
    requires Uncovers(events) && events[|events| - 1].Idle? && OverlayActive(events[|events| - 1]) && Drawn(events)
    ensures Streak(events, j, true) && OldEnough(events, j)
    ensures forall i :: j <= i < |events| - 1 && FoundPage(events, i) ==> LeavesMore(events, i)
  {
    assert events != [];
    hide Run, ConnectionsReady, Uncovers, MoreToCome, Drawn, Streak;
    j := UncoverIsEarned(events);
    StreakStarts(events, j);
    forall i | j <= i < |events| - 1 && FoundPage(events, i) ensures LeavesMore(events, i) {
      ReadyUpdateIsPainted(events, j, i);
    }
  }

  lemma StreakStarts(events: seq<Event>, j: nat)
    requires Streak(events, j, true)
    ensures j < |events| && events[j].Idle?
  {
    hide ObservedAt;
  }

  lemma ReadyUpdateIsPainted(events: seq<Event>, j: nat, i: nat)
    requires Uncovers(events) && events[|events| - 1].Idle? && Drawn(events) && Streak(events, j, true)
    requires j <= i < |events| - 1 && events[i].Idle? && events[i].page.Ready()
    ensures events[i + 1].Frame? && (events[i + 1].captureExpired || MoreToCome(events, i + 1))
  {
    hide Run, Uncovers, Streak, Drawn, MoreToCome;
    NotGoneBefore(events, j, i + 1);
    UpdateIsPainted(events, j, i);
    FrameGoesOn(events, j, i + 1);
    if i + 1 < |events| - 1 { NotGoneBefore(events, j, i + 2); }
  }

  /** An overlay that is there to be lifted was there at every step of the series. */
  lemma NotGoneBefore(events: seq<Event>, j: nat, m: nat)
    requires Uncovers(events) && Streak(events, j, true) && j < m < |events|
    ensures !Gone(Run(events[..m]).overlay)
  {
    var last := |events| - 1;
    assert Run(events[..last]).overlay.visible;
    hide Run, Streak, Uncovers;
    if Gone(Run(events[..m]).overlay) { StaysGone(events, j, m, last); }
  }

  /** The frame after an update that found the page ready and did not lift the overlay. */
  lemma UpdateIsPainted(events: seq<Event>, j: nat, i: nat)
    requires Streak(events, j, true) && Drawn(events) && j <= i < |events| - 1
    requires events[i].Idle? && events[i].page.Ready() && !Gone(Run(events[..i + 1]).overlay)
    ensures events[i + 1].Frame? && events[i + 1].page == events[i].page
    ensures ConnectionsReady(Run(events[..i + 1]).links) && Run(events[..i + 1]).overlay.visible
    ensures Run(events[..i + 1]).overlay.settleRemaining > 0
  {
    var e := events[i];
    assert ObservedAt(events, i, true);
    RunInv(events[..i]);
    hide Run, ConnectionsReady;
    OverlayStep(events, i);
    ReadyUpdate(Run(events[..i]).overlay, e.settings, e.page, e.now);
    hide Overlay.Update, Overlay.RequestsRedraw;
    assert AsksForFrame(events, i);
    assert PaintedNext(events, i);
  }

  lemma RunInv(events: seq<Event>)
    ensures OverlayInv(Run(events).overlay)
  {
  }

  /** A frame over a ready page under the overlay is counted: it lifts the overlay or leaves
      more to come, unless it is the last one of a capture. */
  lemma FrameGoesOn(events: seq<Event>, j: nat, k: nat)
    requires Streak(events, j, true) && j < k < |events| && events[k].Frame? && events[k].page.Ready()
    requires ConnectionsReady(Run(events[..k]).links)
    requires Run(events[..k]).overlay.visible && Run(events[..k]).overlay.settleRemaining > 0
    ensures events[k].captureExpired || MoreToCome(events, k) || Gone(Run(events[..k + 1]).overlay)
  {
    hide Run, ConnectionsReady, ObservedAt;
    OverlayStep(events, k);
  }

  /** With at most one frame asked for, as by default, no earlier update of the series found
      the page ready, unless its frame was the last one of a capture. */
  lemma TimedUncoverByDefault(events: seq<Event>) returns (j: nat)
    requires Uncovers(events) && events[|events| - 1].Idle? && OverlayActive(events[|events| - 1]) && Drawn(events)
    requires forall i :: 0 <= i < |events| && events[i].Idle? ==> events[i].settings.settleFrames <= 1
    ensures Streak(events, j, true) && OldEnough(events, j)
    ensures forall i :: j <= i < |events| - 1 && FoundPage(events, i) ==> EndsCapture(events, i)
  {
    hide Run, Uncovers, Drawn, Streak;
    j := TimedUncoverBehind(events);
    forall i | j <= i < |events| - 1 && FoundPage(events, i) ensures EndsCapture(events, i) {
      if MoreToCome(events, i + 1) { AtMostOne(events[..i + 1]); }
    }
  }

  // ---- the promise ----

  /** Every connection in `Done`, the selected page shown, a frame painted under cover. */
  ghost predicate PromiseKept(events: seq<Event>)
    requires events != [] && (events[|events| - 1].Idle? || events[|events| - 1].Frame?)
  {
    AllDone(Run(events).links) && events[|events| - 1].page.Ready() && FramePainted(events)
  }

  /** An uncovering keeps the promise exactly when the last pass left every snapshot shown,
      and the step is a painted frame, or an update over a ready page with a frame counted
      and more to come. */
  lemma PromiseExactly(events: seq<Event>)
    requires Uncovers(events) && OverlayActive(events[|events| - 1])
    requires LastPass(events) > 0 ==> SyncAllowedIn(events[LastPass(events) - 1])
    ensures var e := events[|events| - 1];
            && LastPass(events) > 0 && (e.Idle? || e.Frame?)
            && (PromiseKept(events) <==>
                  && AllShown(events)
                  && (e.Frame? || (e.page.working && e.page.screenLoaded && exists k :: MoreToCome(events, k))))
  {
    assert events != [];
    hide Run, Uncovers, FramePainted, AllDone, AllShown, MoreToCome;
    ReadyAtUncover(events);
    DoneExactly(events);
    PaintedExactly(events);
  }

  /** With at most one frame asked for, as by default: exactly for a painted frame after a
      pass that left every snapshot shown. */
  lemma PromiseByDefault(events: seq<Event>)
    requires Uncovers(events) && OverlayActive(events[|events| - 1])
    requires LastPass(events) > 0 ==> SyncAllowedIn(events[LastPass(events) - 1])
    requires forall i :: 0 <= i < |events| && events[i].Idle? ==> events[i].settings.settleFrames <= 1
    ensures var e := events[|events| - 1];
            && LastPass(events) > 0 && (e.Idle? || e.Frame?)
            && (PromiseKept(events) <==> AllShown(events) && e.Frame?)
  {
    assert events != [];
    hide Run, Uncovers, FramePainted, AllDone, AllShown;
    ReadyAtUncover(events);
    DoneExactly(events);
    PaintedByDefault(events);
  }

  /** In a consistent pass over a working panel with widgets, the snapshot of a connection
      that answers the pass is shown unless it arrived in that very pass. */
  lemma ShownWhenWorking(e: Event, l: Clockwork.Link, i: nat)
    requires Consistent(e) && e.Idle? && e.page.working && e.page.hasPanelWidgets
    requires i < |e.inputs| && e.inputs[i].check == Clockwork.Up(true)
    ensures ShownInPass(l, InputFor(e.inputs, i)) <==> !SnapshotArrives(l, e.inputs[i])
  {
  }

  // ---- runs that break it ----

  const READY_PAGE: Page := Page(true, true, true)

  /** Another screen has just been selected. */
  const OTHER_SCREEN: Page := Page(true, true, false)

  const DEFAULTS: Settings := Settings(true, false, 3, 2, 1)

  const ANSWER: Clockwork.PassInput := ClockworkRuns.QUIET_PASS.(received := Clockwork.Text(Clockwork.JsonArray))

  const SNAPSHOT: Clockwork.Link :=
    Clockwork.Link(
      Clockwork.Reload, Some(Clockwork.Socket(None)), [], Clockwork.WaitingCommand, 0, 0, false, true, 1, true,
      Clockwork.History([ClockworkRuns.REFRESH],
                        [Clockwork.Departure(ClockworkRuns.REFRESH, Clockwork.Answered(Clockwork.JsonArray))],
                        [Clockwork.Sending(0, 1)], 0))

  lemma AnswerIsSnapshot()
    ensures ClockworkRuns.REQUESTED.IdlePass(ANSWER) == SNAPSHOT
  {
    var l := ClockworkRuns.REQUESTED;
    assert l.ChannelEdge(true, 1) == l;
    assert l.Raise(false).ArmRefresh(true).Raise(false).Throttle(1) == l;
    assert l.UpdateData(ANSWER) == l;
    assert l.PrepareRefresh(ANSWER) == l;
  }

  lemma SnapshotIsShown()
    ensures SNAPSHOT.IdlePass(ClockworkRuns.QUIET_PASS) == SNAPSHOT.(startup := Clockwork.Done)
  {
    var input, shown := ClockworkRuns.QUIET_PASS, SNAPSHOT.(startup := Clockwork.Done);
    assert SNAPSHOT.ChannelEdge(true, 1) == SNAPSHOT;
    assert SNAPSHOT.Raise(false).ArmRefresh(true).Raise(false).Throttle(1) == SNAPSHOT;
    assert SNAPSHOT.UpdateData(input) == shown;
    assert SNAPSHOT.PrepareRefresh(input) == shown;
  }

  function Update(input: Clockwork.PassInput, page: Page, now: int): Event { Idle([input], DEFAULTS, page, now) }

  /** One update of a panel with one connection. */
  lemma OneUpdate(events: seq<Event>, input: Clockwork.PassInput, page: Page, now: int, m: Clockwork.Link, o: Overlay)
    requires Run(events) == Panel([m], o)
    ensures m.CommandPathOk()
    ensures Run(events + [Update(input, page, now)]) ==
            Panel([m.IdlePass(input)], o.Update(DEFAULTS, page, LinkReady(m.IdlePass(input)), now))
  {
    hide Clockwork.Link.IdlePass;
    var e := Update(input, page, now);
    assert (events + [e])[..|events|] == events;
    assert Run(events).links[0] == m;
    assert Run(events).PassAll([input]) == [m.IdlePass(input)];
    OnlyOneReady(m.IdlePass(input));
  }

  lemma OnlyOneReady(m: Clockwork.Link)
    ensures ConnectionsReady([m]) == LinkReady(m)
  {
    hide LinkReady;
    assert [m][0] == m;
  }

  lemma OneConnection()
    ensures Run([AddConnection]) == Panel([Clockwork.Initial()], HIDDEN)
  {
    assert [AddConnection][..0] == [];
  }

  /** One frame of a panel with one connection. */
  lemma OneFrame(events: seq<Event>, page: Page, m: Clockwork.Link, o: Overlay)
    requires Run(events) == Panel([m], o)
    ensures Run(events + [Frame(false, page)]) == Panel([m], o.AfterFrame(false, LinkReady(m), page))
  {
    var e := Frame(false, page);
    assert (events + [e])[..|events|] == events;
    hide Run, LinkReady;
    RunStep(events + [e]);
    OnlyOneReady(m);
  }

  /** A frame after every update but a last one. */
  predicate AlwaysPainted(events: seq<Event>) {
    forall k :: 0 <= k < |events| ==> (events[k].Idle? ==> PaintedNext(events, k)) && FollowsUpdate(events, k)
  }

  lemma PaintedIsDrawn(events: seq<Event>)
    requires AlwaysPainted(events)
    ensures Drawn(events)
  {
    hide PaintedNext, FollowsUpdate;
    forall k | 0 <= k < |events| ensures AsksForFrame(events, k) ==> events[k].Idle? { OnlyUpdatesAsk(events, k); }
    hide AsksForFrame;
  }

  lemma OnlyUpdatesAsk(events: seq<Event>, k: nat)
    requires k < |events|
    ensures AsksForFrame(events, k) ==> events[k].Idle?
  {
    hide Run, ConnectionsReady, Overlay.RequestsRedraw;
  }

  /** The snapshot is asked for in the first pass, and the panel is covered. */
  const ASKED: seq<Event> :=
    [AddConnection] + [Update(ClockworkRuns.QUIET_PASS, READY_PAGE, 0)] + [Frame(false, READY_PAGE)]

  lemma AfterAsking()
    ensures Run(ASKED) == Panel([ClockworkRuns.REQUESTED], Overlay(true, true, false, true, -1, 0, false, 0))
  {
    hide Run, Clockwork.Link.IdlePass;
    OneConnection();
    ClockworkRuns.FirstPassRequests();
    OneUpdate([AddConnection], ClockworkRuns.QUIET_PASS, READY_PAGE, 0, Clockwork.Initial(), HIDDEN);
    var covered := [AddConnection] + [Update(ClockworkRuns.QUIET_PASS, READY_PAGE, 0)];
    OneFrame(covered, READY_PAGE, ClockworkRuns.REQUESTED, Run(covered).overlay);
  }

  /** The snapshot arrives in the second pass, and a frame is painted over `page`. */
  function Arrival(page: Page): seq<Event> { ASKED + [Update(ANSWER, page, 0)] + [Frame(false, page)] }

  lemma AfterArrival(page: Page)
    requires page.hasPanelWidgets
    ensures var before := ASKED + [Update(ANSWER, page, 0)];
            && Arrival(page)[..|Arrival(page)| - 1] == before
            && Run(before) ==
               Panel([SNAPSHOT], Overlay(true, false, true, true, if page.Ready() then 1 else -1, 0, true, 0))
            && Run(Arrival(page)) ==
               Panel([SNAPSHOT], if page.Ready() then Overlay(false, false, true, false, 0, 0, true, 0)
                                 else Overlay(true, false, true, true, -1, 0, true, 0))
  {
    hide Run, Clockwork.Link.IdlePass;
    AfterAsking();
    AnswerIsSnapshot();
    OneUpdate(ASKED, ANSWER, page, 0, ClockworkRuns.REQUESTED, Run(ASKED).overlay);
    var before := ASKED + [Update(ANSWER, page, 0)];
    assert Arrival(page)[..|Arrival(page)| - 1] == before;
    OneFrame(before, page, SNAPSHOT, Run(before).overlay);
  }

  /** The frame painted right after the snapshot arrived lifts the overlay while the
      connection is still in `Reload`. */
  lemma LiftedInReload()
    ensures var events := Arrival(READY_PAGE);
            && (forall i :: 0 <= i < |events| ==> Consistent(events[i])) && Drawn(events)
            && Uncovers(events) && Run(events).links[0].startup == Clockwork.Reload
  {
    hide Run;
    AfterArrival(READY_PAGE);
    PaintedIsDrawn(Arrival(READY_PAGE));
  }

  /** The snapshot selects a screen that is not shown yet, so the frame is not counted. The
      next pass shows it, takes two seconds, and in it another screen is selected: the
      overlay is lifted with that screen not shown and no frame counted. */
  lemma LiftedOverOtherScreen()
    ensures var events := Arrival(OTHER_SCREEN)
                          + [Update(ClockworkRuns.QUIET_PASS, OTHER_SCREEN, 2 * TICKS_PER_SECOND)];
            && (forall i :: 0 <= i < |events| ==> Consistent(events[i])) && Drawn(events)
            && Uncovers(events) && AllDone(Run(events).links) && !events[|events| - 1].page.Ready()
            && !FramePainted(events)
  {
    hide Run, Clockwork.Link.IdlePass, FramePainted;
    AfterArrival(OTHER_SCREEN);
    SnapshotIsShown();
    var arrival := Arrival(OTHER_SCREEN);
    OneUpdate(arrival, ClockworkRuns.QUIET_PASS, OTHER_SCREEN, 2 * TICKS_PER_SECOND, SNAPSHOT, Run(arrival).overlay);
    var events := arrival + [Update(ClockworkRuns.QUIET_PASS, OTHER_SCREEN, 2 * TICKS_PER_SECOND)];
    assert events[..|events| - 1] == arrival;
    PaintedIsDrawn(events);
    PaintedByDefault(events);
  }

  /** The same with the screen of the snapshot kept selected: the page is shown by then, but
      no frame was counted. */
  lemma LiftedUnpainted()
    ensures var events := Arrival(OTHER_SCREEN)
                          + [Update(ClockworkRuns.QUIET_PASS, READY_PAGE, 2 * TICKS_PER_SECOND)];
            && (forall i :: 0 <= i < |events| ==> Consistent(events[i])) && Drawn(events)
            && Uncovers(events) && AllDone(Run(events).links) && events[|events| - 1].page.Ready()
            && !FramePainted(events)
  {
    hide Run, Clockwork.Link.IdlePass, FramePainted;
    AfterArrival(OTHER_SCREEN);
    SnapshotIsShown();
    var arrival := Arrival(OTHER_SCREEN);
    OneUpdate(arrival, ClockworkRuns.QUIET_PASS, READY_PAGE, 2 * TICKS_PER_SECOND, SNAPSHOT, Run(arrival).overlay);
    var events := arrival + [Update(ClockworkRuns.QUIET_PASS, READY_PAGE, 2 * TICKS_PER_SECOND)];
    assert events[..|events| - 1] == arrival;
    PaintedIsDrawn(events);
    PaintedByDefault(events);
  }
}
