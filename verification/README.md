# Humid: verified models of its protocols, caches and data structures

Humid is an operator panel for Clockwork control systems. These Dafny modules model the
parts of it that keep state over long runs and prove what those parts are for. Each
component has a specification (datatypes, step functions and lemmas over every run) and,
where the program updates objects in place, a class whose methods are proved to perform
exactly the specified steps. `dafny verify dfyconfig.toml` checks everything.

* **Connections and the disconnected overlay** (`Clockwork`, `ClockworkRuns`, `ClockworkPasses`,
  `ClockworkConnection`, `ControlOverlay`, `PanelRuns`, `OverlaySteps`, `OverlayPromise`,
  `ControlPanel`). A connection has a startup state, a command queue over a request socket, a
  refresh flag that a monitor thread may raise at any moment, and ready and lost edges. A ghost history records every message
  queued, when each was sent, how each left, and when the latest ready edge was. The panel couples any
  number of connections to the "Control is not connected" overlay. The transport, the
  clocks, the monitor thread and the operator are arbitrary inputs.
* **Backlight** (`Backlight`) and **display watch** (`DisplayWatch`): blanking, the wake key,
  and the debounced restore.
* **Fetch scheduler** (`FetchLog`, `FetchScheduler`): the parallel download loop against a curl
  that may do anything, with a log of which message answered which job.
* **Ring buffer, regression, export** (`Samples`, `CircularBuffer`, `Regression`, `Export`):
  cyclic indices that refine a window of samples, the slope as a least-squares fit over
  reals, and the merge of many series into rows.
* **HTTP disk cache** (`Decimal`, `CacheMeta`, `DiskCache`, `CacheInvariant`, `SharedKeys`,
  `AnyAnswer`, `DiskCacheRuns`, `Revalidation`, `HtmlViewContainer`): conditional requests
  (sections 13.1.2, 13.1.3 and 15.4.5 of RFC 9110), one at a time and in a batch.
* **Image-cache sweep** (`ImageSweep`), **reference counts and textures** (`Resources`,
  `Textures`, `TextureViews`, `TextureCleanup`, `GuiTextures`), **class ordering** (`ClassOrder`) and **unique
  names** (`Naming`).

## What the proofs found

Some properties that comments or design suggest are false of the code. The models keep the
code as it is, and state exactly when the property holds:

* `CONTROL_CONNECTION_OVERLAY.md` (lines 33-41) says that the overlay is removed only in
  `sDONE`, with the selected screen loaded, after a covered frame. The code breaks each part, in
  runs of the drawing loop (`OverlayPromise.Drawn`), which paints a frame right after every update
  that asks for one. In `LiftedInReload` the frame right after the snapshot lifts it in `Reload`.
  In `LiftedOverOtherScreen` the snapshot selects a screen that is not shown yet, so the frame is
  painted over a page that is not ready and is not counted; the next pass takes longer than the
  uncover time, and the overlay is lifted with no frame counted, over a screen that is not the one
  selected by then (or over the right one in `LiftedUnpainted`). `PromiseExactly` gives the
  condition under which an uncovering keeps the whole promise, part by part in `DoneExactly` and
  `PaintedExactly`; with the default of one frame it is kept exactly by a painted frame after a
  pass that left every snapshot shown (`PromiseByDefault`). `TimedUncoverByDefault` says what a
  timed uncovering has behind it: no earlier update of the ready series found the page ready.
* After a wake press, a failed wake by a second key ends the hold of the first
  (`Backlight.FailedWakeEndsHold`); `DeliveredExactly` says which key events reach a widget.
* For URLs with keys of their own whose mapped files are still there, the two forms of the disk
  cache differ exactly when a server answers 304 to an unconditional GET of a URL whose metadata
  has a body but no validators (`DiskCache.FormsAgree`). On a disk this program wrote that cannot
  happen (`CacheInvariant.FormsAgreeOnOwnDisk`). A mapped URL whose
  file is gone the single form fetches again, while the batch skips it.
* Jobs of a batch that share a cache key share its files. Two answered 200 lose the body between
  them (`DiskCache.SharedKeyLosesBody`); a 200 without validators and a later 304 leave the
  second URL's metadata beside the first one's body, to be validated and served from then on
  (`SharedKeys.ForeignBody`). `DiskInvExactly` and `MapInvExactly` say when a given batch keeps
  its keys and its URLs, and `AnyAnswer.KeptExactly` and `ServedAlwaysExactly` that it does so
  whatever the server answers exactly when no keys are shared.
* The general export path writes nothing when the first non-empty series starts at time
  zero, where the single-series path writes every row (`Export.SingleIsMerge`,
  `CompleteExactly`, `ZeroStartIsLost`).
* "Structures can arrive in any order" does not hold: `ClassOrder.AddKeepsOrder` gives the
  exact condition for one arrival, `ArrivalsExactly` for a whole series of them, and
  `ThreeLevelChainBreaks` a chain that ends up out of order.
* An object created without a name searches among its own (absent) children, not its
  siblings, so it stays nameless when a sibling has the generated name; and a rename erases
  the entry of the old name even if it belongs to another object
  (`Naming.RenameEvicts`, `Naming.StepKeepsRegistered`), and so does destruction (`GoneErases`). A prefix of twenty-nine characters
  or more makes all generated names equal (`Naming.LongPrefixEnds`).
* The comment beside the texture cleanup says ten minutes; the constant is sixty seconds, and
  the model has the constant.
* The loop that marks leftover jobs "not started" can never find one
  (`FetchScheduler.NothingHeld`).

## Model

| member | source | states |
|---|---|---|
| ClockworkRuns.Run | src/skeleton.cpp:1082-1200 | Every run of passes, operator messages and monitor events keeps: queued = departed ++ pending in order, a message waiting for a response is the queue's front and was sent on the open socket, pending refreshes belong to the current ready epoch, and a channel not ready means Init |
| ClockworkRuns.StepKeeps | src/skeleton.cpp:1082-1200 | Each single step keeps that invariant, the snapshot behind Reload and Done (with data sync), and the pending refresh behind Sent |
| ClockworkRuns.DoneMeansFreshSnapshot | src/editorgui.cpp:1698-1816 | With data sync allowed, Reload or Done implies an array reply that was both requested and answered since the latest ready edge, on every run |
| ClockworkRuns.RefreshNeverLost | src/editorgui.cpp:1712-1816 | Sent always has a refresh still queued, on every run and through the suppressed re-arm; its hypothesis that replies carry a buffer always holds, for safeRecv (clockwork/src/MessagingInterface.cpp:167-217) sets one before every success |
| ClockworkRuns.RefreshLostExactly | src/skeleton.cpp:958-971 | What serving a command would do with a null buffer: it loses the refresh behind Sent if and only if the only pending refresh is in flight |
| ClockworkRuns.DropsOnlyAtEdges | src/skeleton.cpp:1022-1056 | A step that is not a lost or ready edge answers or discards at most the front message and drops none |
| ClockworkRuns.TimeoutRetries | src/skeleton.cpp:943-957 | The seven-second local timeout keeps the queue, rebuilds the socket, and the next service sends the same message |
| ClockworkPasses.SteadyPass | src/skeleton.cpp:1133-1184 | One pass over a channel that stays ready, by its inputs: the front message leaves if and only if it is in flight, a reply is here and its send is no more than seven seconds ago (a send at clock zero never expires), answered with exactly that reply; a snapshot is asked for if and only if one is wanted and the update runs; a message is sent if and only if none is in flight; and the startup state, flag, throttle time and send time that are left |
| ClockworkPasses.ReadyEdgePass | src/skeleton.cpp:1139-1153 | A pass that sees the channel come up is such a pass over a connection that drops everything and starts over, or within a second of the last such edge over the connection as it was |
| ClockworkPasses.UnreadyPass | src/skeleton.cpp:1120-1138 | A pass over a channel that is not ready drops everything pending if it was ready, and serves nothing |
| ClockworkPasses.OtherEvents | src/skeleton.cpp:449-481 | Operators and the monitor thread add a message or raise the flag, the latter at a disconnection only if the channel is or was ready, and change nothing else |
| ClockworkPasses.LeavesExactly | src/skeleton.cpp:935-1056 | Over every run exactly these messages leave the queue at each event, with exactly these fates |
| ClockworkPasses.NeverDiscarded | src/skeleton.cpp:958-970 | Over every run, replies having buffers, every message that leaves is answered or dropped |
| ClockworkPasses.AnsweredWasSent | src/skeleton.cpp:935-943 | Over every run only a message that was sent is answered |
| ClockworkPasses.SentAgainLate | src/skeleton.cpp:943-957 | With a steady clock, messages are sent in the order queued, and one is sent again only more than seven seconds after it was sent before |
| ClockworkRuns.ReadyPassRequests | src/skeleton.cpp:1139-1184 | A pass that sees a channel become ready, or finds the refresh flag up, leaves a snapshot request in the queue, whatever the transport does and through the suppressed re-arm |
| ClockworkRuns.HandleCommandKeeps | src/skeleton.cpp:935-972 | Serving one command keeps the invariant and the snapshot behind the state |
| ClockworkRuns.ChannelEdgeKeeps | src/skeleton.cpp:1022-1056 | Lost and ready edges, with the suppressed rapid re-arm, keep the invariant, the snapshot and the pending refresh |
| ClockworkRuns.PrepareRefreshKeeps | src/skeleton.cpp:1158-1180 | Re-arming, the throttle and the periodic update keep them too, whenever the monitor raises its flag |
| ClockworkRuns.UpdateDataKeeps | src/editorgui.cpp:1698-1854 | So does the connection's part of the periodic update |
| ClockworkConnection.Connection.HandleCommand | src/skeleton.cpp:935-972 | The method performs exactly the specified service of the queue's front, and says whether more is to send |
| ClockworkConnection.Connection.ResetCommandPath | src/skeleton.cpp:1012-1020 | Drops the socket and the wait, nothing else |
| ClockworkConnection.Connection.OnChannelLost | src/skeleton.cpp:1022-1038 | The new state of the lost edge |
| ClockworkConnection.Connection.OnChannelBecameReady | src/skeleton.cpp:1040-1056 | The new state of the ready edge, or no change within a second of the last |
| ClockworkConnection.Connection.UpdateData | src/editorgui.cpp:1698-1854 | The new state of the periodic update with the flag raised at any of its points |
| ClockworkConnection.Connection.PrepareRefresh | src/skeleton.cpp:1158-1180 | The new state before the command is served |
| ClockworkConnection.Connection.ChannelEdge | src/skeleton.cpp:1134-1153 | The new state of the edges with the command socket rebuilt |
| ClockworkConnection.Connection.IdlePass | src/skeleton.cpp:1104-1197 | One pass over the connection is exactly the specified step |
| ClockworkConnection.Connection.Throttle | src/skeleton.cpp:921-929 | The ten-millisecond throttle and its new time |
| ClockworkConnection.Connection.QueueMessage | src/skeleton.cpp:1222-1228 | Appends the message to the queue |
| ClockworkConnection.Connection.Raise | src/skeleton.cpp:449-481 | The monitor thread only ever raises the refresh flag |
| PanelRuns.Run | src/editorgui.cpp:445-532 | Every run of the panel keeps: each connection's invariant, visible implies a covered rebuild is needed, and frames are counted down only while visible |
| PanelRuns.SnapshotsOverRuns | src/editorgui.cpp:386-398 | With data sync, every connection of every reachable panel has a fresh snapshot behind Reload and Done |
| PanelRuns.UncoverSafety | src/editorgui.cpp:445-532 | On every run, an active overlay is uncovered only when the panel has widgets, there is a connection, and each one has processed a full snapshot since its latest ready edge |
| PanelRuns.UncoverIsEarned | src/editorgui.cpp:482-532 | Every uncovering ends an unbroken series of ready updates that is old enough from its first, or in which exactly the configured number of covered frames was painted while every update went on counting |
| PanelRuns.ReadySince | src/editorgui.cpp:482-488 | The recorded ready time is that of the first update of the present ready series |
| PanelRuns.ReadyRecorded | src/editorgui.cpp:445-488 | A ready time is recorded if and only if the last update was active and saw the connections ready |
| PanelRuns.ArmedSince | src/editorgui.cpp:526-531 | Frames still to come plus covered frames painted since the update that armed the count make the configured number, and every update since found the page ready or no widgets past the time |
| PanelRuns.ColdStartIsCovered | src/editorgui.cpp:459-480 | Until connections were ready once, every update leaves the panel covered |
| PanelRuns.DropIsCoveredAfterDelay | src/editorgui.cpp:459-480 | With a monotone clock, connections unready for the configured delay leave the panel covered |
| PanelRuns.PanelStepKeeps | src/editorgui.cpp:1978-1989 | Every panel event, painted frames included, keeps the panel invariant |
| OverlaySteps.UncoversExactly | src/editorgui.cpp:490-504 | A visible overlay is lifted by an update if and only if connections are ready for long enough and there are widgets, by a frame if and only if it is the last one counted over a ready page, and by nothing else |
| OverlaySteps.CoversExactly | src/editorgui.cpp:459-518 | A hidden overlay comes up if and only if connections are unready for long enough or were never ready, or are ready with a covered rebuild still to come |
| OverlaySteps.UnreadySince | src/editorgui.cpp:459-466 | The recorded time of a drop is that of the first update of the present unready series |
| OverlaySteps.CoverIsEarned | src/editorgui.cpp:472-478 | After a ready session, only a drop that lasts the whole delay covers the panel |
| OverlaySteps.InactiveIsDown | src/editorgui.cpp:445-454 | On every run a visible overlay means that the last update had the feature enabled and edit mode off |
| OverlaySteps.DropRecorded | src/editorgui.cpp:459-484 | A drop is recorded if and only if the last update was active and saw the connections unready |
| OverlaySteps.EverReadyExactly | src/editorgui.cpp:482-484 | The overlay remembers a ready session if and only if an active update saw one |
| OverlaySteps.RebuildExactly | src/editorgui.cpp:435-518 | A covered rebuild is still to come if and only if the page was not rebuilt, or an update since found the connections unready or the overlay not in force |
| OverlaySteps.CountRunsOn | src/editorgui.cpp:1978-1989 | A running frame count is left alone by updates that go on counting, and loses one at exactly the covered frames |
| OverlaySteps.RedrawExactly | src/editorgui.cpp:435-531 | An update asks for a frame if and only if it shows or hides the overlay, or leaves it up over ready connections before the time |
| OverlaySteps.ReachesOne | src/skeleton.cpp:1235-1243 | An operator message or a monitor event reaches the named connection and nothing else |
| OverlayPromise.ReloadExactly | src/editorgui.cpp:1818-1853 | A connection that a pass leaves with a snapshot is in Reload if and only if the snapshot arrived in that very pass, or arrived earlier and the pass threw or found no working panel |
| OverlayPromise.StartupStands | src/skeleton.cpp:1082-1200 | Between passes no startup state changes and connections are only added |
| OverlayPromise.DoneExactly | src/editorgui.cpp:386-398 | At an uncovering all connections are in Done if and only if the last pass left every snapshot shown |
| OverlayPromise.PaintedExactly | src/editorgui.cpp:1978-1989 | At an uncovering a covered frame was painted since the connections became ready if and only if the step is such a frame or an earlier one left more to come |
| OverlayPromise.PaintedByDefault | src/editorgui.cpp:526-530 | With at most one frame asked for, if and only if the step is a painted frame: the timed uncovering never has one |
| OverlayPromise.PromiseExactly | src/editorgui.cpp:482-532 | An uncovering keeps the documented promise (all Done, selected page shown, frame painted under cover) if and only if every snapshot was shown and the step is a painted frame, or an update over a ready page with a frame counted and more to come |
| OverlayPromise.PromiseByDefault | src/editorgui.cpp:482-532 | With at most one frame asked for, if and only if every snapshot was shown and the step is a painted frame |
| OverlayPromise.LiftedInReload | src/editorgui.cpp:1978-1989 | A run of the drawing loop in which the frame right after the snapshot lifts the overlay in Reload |
| OverlayPromise.TimedUncoverBehind | src/skeleton.cpp:1355-1372 | In the drawing loop a timed uncovering ends a series of ready updates that is old enough, in which every earlier update over a ready page was followed by a frame that left more to come, or the last frame of a capture |
| OverlayPromise.TimedUncoverByDefault | src/skeleton.cpp:1355-1372 | With at most one frame asked for, no earlier update of the series found the page ready, but for the last frame of a capture |
| OverlayPromise.ReadyUpdate | src/editorgui.cpp:490-531 | An update that finds connections and page ready leaves the overlay gone, or asks for a frame that will be counted |
| OverlayPromise.ShownWhenWorking | src/editorgui.cpp:1818-1853 | In a pass over a working panel with widgets a snapshot is shown unless it arrived in that very pass |
| OverlayPromise.LiftedOverOtherScreen | src/editorgui.cpp:490-504 | A run of the drawing loop in which the time lifts the overlay with another screen selected and no frame counted |
| OverlayPromise.LiftedUnpainted | src/editorgui.cpp:490-504 | The same with the selected screen shown |
| ControlPanel.ControlPanel.ControlConnectionsReady | src/editorgui.cpp:386-398 | True exactly when there is a connection and all are ready with their snapshot |
| ControlPanel.ControlPanel.HideOverlay | src/editorgui.cpp:435-443 | The new overlay state, connections untouched |
| ControlPanel.ControlPanel.UpdateOverlay | src/editorgui.cpp:445-532 | The overlay's whole new state, branch by branch as specified, and whether it asks for a frame |
| ControlPanel.ControlPanel.DrawAll | src/skeleton.cpp:1355-1372 | One turn of the drawing loop: the idle step, and in the same turn the frame step if anything asked for it |
| ControlPanel.ControlPanel.Idle | src/skeleton.cpp:1082-1200 | Passing over every connection and then the overlay is one panel step |
| ControlPanel.ControlPanel.AfterFrameRendered | src/editorgui.cpp:1960-1990 | The frame hook is the specified frame step |
| ControlPanel.ControlPanel.AddConnection | src/skeleton.cpp:847-891 | A new connection joins in its initial state |
| ControlPanel.ControlPanel.QueueMessage | src/skeleton.cpp:1235-1243 | An operator message reaches the named connection only |
| Backlight.BlankingFollowsRequest | src/editorgui.cpp:1353-1383 | On every run the last recognised request among its events is "off" if and only if exactly one of pending and blanked holds, and nothing is blanked before initialisation |
| Backlight.WakeKeyIsSwallowed | src/editorgui.cpp:249-266 | After a waking press no event of that key reaches a widget while the hold lasts |
| Backlight.HoldLastsExactly | src/editorgui.cpp:249-266 | The hold lasts if and only if the key is not released and no other key is pressed on a blanked display |
| Backlight.HeldExactly | src/editorgui.cpp:249-266 | A key is held if and only if a press of it woke the display and nothing since ended or replaced the hold |
| Backlight.DeliveredExactly | src/editorgui.cpp:249-269 | A key event reaches the widgets if and only if the overlay is not up, it is no press on a blanked display, and its key is not so held |
| Backlight.FailedWakeEndsHold | src/editorgui.cpp:256-265 | A concrete run in which a failed wake by another key lets the first key's repeat through |
| Backlight.BlanksOnlyWhenQuiet | src/editorgui.cpp:1563-1590 | With a steady clock the display is blanked only after the delay without operator activity |
| Backlight.BlanksExactly | src/editorgui.cpp:1563-1590 | A timeout check blanks the display if and only if "off" was the last request and the delay has passed since the request, press or wake that started it last |
| Backlight.WakesExactly | src/editorgui.cpp:249-266 | A blanked display comes back if and only if "on" is requested, or a press other than the tail of a wake press comes and the command succeeds |
| Backlight.ClickDeliveredExactly | src/editorgui.cpp:1143-1148 | A button event reaches the widgets if and only if the overlay is not up and it does not wake the display |
| Backlight.BacklightController.UpdateRequest | src/editorgui.cpp:1353-1383 | The new state for a value of the control point |
| Backlight.BacklightController.ProcessTimeout | src/editorgui.cpp:1563-1584 | The new state of a timeout check |
| Backlight.BacklightController.TryWakeBlankedDisplay | src/editorgui.cpp:1592-1600 | Wakes exactly a blanked display whose command succeeds |
| Backlight.BacklightController.KeyboardEvent | src/editorgui.cpp:249-269 | The new state, and consumed exactly when not delivered |
| Backlight.BacklightController.MouseButtonEvent | src/editorgui.cpp:1143-1152 | The new state, and consumed exactly when not delivered |
| DisplayWatch.FiresOnlyWhenStable | src/skeleton.cpp:716-749 | A restore fires only after active was polled unchanged for a second |
| DisplayWatch.InactiveBetweenFirings | src/skeleton.cpp:716-749 | Between two firings there was a stable inactive second |
| DisplayWatch.StableIsAdopted | src/skeleton.cpp:716-749 | Any reading held for a second is adopted |
| DisplayWatch.FiresExactly | src/skeleton.cpp:716-749 | A restore fires at exactly the first poll that completes an active second since the outputs were last found inactive, by the first poll or for a whole second |
| DisplayWatch.OutputExactly | src/skeleton.cpp:733-747 | The outputs count as inactive if and only if they were so found and no active second was completed since |
| DisplayWatch.DisplayMonitor.PollDisplayOutputs | src/skeleton.cpp:716-749 | The new watch state, and restored exactly when the watch fires |
| FetchLog.FinishedAs | src/curl_helper.cpp:213-269 | A transfer is Ok exactly for a 2xx answer that was written, not modified exactly for 304; each header is reported in its own field, after a 304 without it the validator that was sent; the length is the header's or else the body's; and a failure names what failed first |
| FetchLog.ReportsOne | src/curl_helper.cpp:213-269 | That leaves one result for each answer |
| FetchLog.AnsweredOnce | src/curl_helper.cpp:379-384 | No message answers two jobs |
| FetchLog.LogStart | src/curl_helper.cpp:346-362 | A job put in a free slot is logged there, after every job before it in that slot has ended |
| FetchLog.LogEnd | src/curl_helper.cpp:367-388 | A job that ends at the message naming its slot, or is given up, has the result of that message, or the failure, and the other slots' jobs stay unanswered |
| FetchScheduler.StartAccounted | src/curl_helper.cpp:334-365 | Starting a job keeps: each started job is done or in exactly one slot, never both, and others are untouched |
| FetchScheduler.FinishAccounted | src/curl_helper.cpp:319-324 | Finishing a slot's job keeps it, and that job was not done before |
| FetchScheduler.CountFull | src/curl_helper.cpp:396-403 | The done count reaches the number of jobs exactly when all are done |
| FetchScheduler.Scheduler.HandleMessage | src/curl_helper.cpp:370-387 | The slot named is freed and its job takes this message's response; nothing else changes |
| FetchScheduler.Scheduler.StartNext | src/curl_helper.cpp:334-365 | Starts the next job that can be set up in the first free slot, failing those that cannot, each set up once and in order |
| FetchScheduler.Scheduler.DrainMessages | src/curl_helper.cpp:367-388 | Every completion message finishes the job its slot holds with what that message reports, messages without a slot none |
| FetchScheduler.Scheduler.ForceRelease | src/curl_helper.cpp:415-443 | Every job still held fails with exactly the given error and every slot is free |
| FetchScheduler.Scheduler.Recover | src/curl_helper.cpp:411-452 | With nothing running, work is started, stale slots are released as such, or the rest is aborted and all is done: the loop's progress |
| FetchScheduler.NothingHeld | src/curl_helper.cpp:444-451 | Once every job is started and no slot is active, all are done: the leftover loop finds nothing |
| FetchScheduler.Scheduler.Turn | src/curl_helper.cpp:396-453 | One turn gets through a round of curl, starts a job, frees slots that were all active, or finishes: what the loop's termination needs |
| FetchScheduler.Scheduler.Run | src/curl_helper.cpp:390-462 | The loop ends with every job done and settled by the log, keeping the accounts through every path |
| FetchScheduler.FetchUrlsToFiles | src/curl_helper.cpp:290-462 | Whatever curl does, each job's result is what the first completion message for its slot reports from the time it was put there, or a failure because it could not be started or curl was quiet before such a message; a slot holds one job at a time |
| CircularBuffer.StoreRefines | src/circularbuffer.cpp:73-78 | Writing the next cell keeps the cells equal to the last accepted samples, for every capacity |
| CircularBuffer.CircularBuffer.AddSample | src/circularbuffer.cpp:58-99 | Accepts the sample unless frozen, its value whole or, for the 16-bit types, its whole part, keeping the refinement, the extremes and the running total |
| CircularBuffer.CircularBuffer.Clear | src/circularbuffer.cpp:42-45 | The window is empty again, and the clear is recorded |
| CircularBuffer.CircularBuffer.Length | src/circularbuffer.cpp:229-233 | The number of samples in the window |
| CircularBuffer.CircularBuffer.BufferIndexFor | src/circularbuffer.cpp:47-56 | The cell of the i-th newest sample, or of the oldest past the end |
| CircularBuffer.CircularBuffer.GetBufferValue | src/circularbuffer.cpp:189-193 | The value of the n-th newest sample of the window |
| CircularBuffer.CircularBuffer.GetBufferTime | src/circularbuffer.cpp:195-199 | Its time, as a signed number |
| CircularBuffer.CircularBuffer.GetTime | src/circularbuffer.cpp:235-238 | The time of the n-th newest sample |
| CircularBuffer.CircularBuffer.GetBufferValueAt | src/circularbuffer.cpp:201-211 | The oldest, newest or first value at or after a time, by a scan that ends |
| CircularBuffer.CircularBuffer.FindMovement | src/circularbuffer.cpp:150-165 | The least age within the bound whose difference from the newest reaches the amount, or the bound if none does |
| CircularBuffer.CircularBuffer.FindRange | src/circularbuffer.cpp:135-148 | The exact extremes of the window, enclosed by those kept since the last clear |
| CircularBuffer.CircularBuffer.WithinExtremes | src/circularbuffer.cpp:71-72 | The kept extremes always enclose the window's |
| CircularBuffer.CircularBuffer.BufferSum | src/circularbuffer.cpp:213-223 | The sum of the newest n samples |
| CircularBuffer.CircularBuffer.TotalIsSum | src/circularbuffer.cpp:42-76 | On every run of samples and clears the running total is the window's sum plus what the clears took out of the window; without a clear it is the window's sum |
| CircularBuffer.CircularBuffer.Slope | src/circularbuffer.cpp:287-302 | The regression slope of every sample but the newest, relative to the oldest |
| CircularBuffer.SlopeOfLinearSamples | src/circularbuffer.cpp:287-302 | On samples of a line with two distinct times the slope is the line's coefficient |
| Samples.ConvertInRange | src/circularbuffer.cpp:62-63 | Conversion to 16 bits keeps whole values in range and always ends in range |
| Samples.ConvertStores | src/circularbuffer.cpp:62-63 | The value stored is the value itself, for every real, unless the type has 16 bits, and then its whole part towards zero whenever the type holds that |
| Samples.TimeReadsBack | src/circularbuffer.cpp:77-78 | A time reads back as it was added, negative ones included |
| Samples.ValueAtStep | src/circularbuffer.cpp:201-211 | With increasing times the value is that of the one sample at or after the time whose predecessor is before it, or of the newest when all are before it |
| Samples.ValueAtBetween | src/circularbuffer.cpp:208-210 | Inside, it is that of the first sample at or after the time |
| Regression.DenominatorSign | src/circularbuffer.cpp:298-300 | The denominator is never negative, and zero exactly when all times coincide |
| Regression.SlopeOfLine | src/circularbuffer.cpp:298-300 | On points of a line with distinct times the slope is exact |
| Regression.LeastSquares | src/circularbuffer.cpp:287-302 | No line has a smaller sum of squared residuals than the one with this slope |
| Export.MergeTimes | src/lineplot.cpp:671-710 | Every row carries the time of a sample |
| Export.MergeWrites | src/lineplot.cpp:671-710 | Every sample is written in its own column on a row with its own time |
| Export.RowsAscend | src/lineplot.cpp:671-710 | Row times never decrease when no series does, and increase when every series does |
| Export.CellsAreLookups | src/lineplot.cpp:691-708 | For strict series each cell is its series' value at the row's time |
| Export.SingleIsMerge | src/lineplot.cpp:629-639 | The single-series path writes the rows of the merge; it differs from the general path exactly for a series whose oldest time is zero |
| Export.ExportComplete | src/lineplot.cpp:613-711 | The row on which a sample is written |
| Export.CompleteExactly | src/lineplot.cpp:629-652 | Every sample is written if and only if there is one series or the first with samples does not start at time zero; otherwise nothing is |
| Export.ZeroStartIsLost | src/lineplot.cpp:643-652 | Two series of which nothing is written |
| Export.ExportMeaning | src/lineplot.cpp:613-711 | For strict series the rows are ordered, carry sample times, and each cell is determined by its series |
| Export.FindEarliest | src/lineplot.cpp:673-689 | Finds the earliest pending time while a series is outstanding: the assertion never fails |
| Export.WriteCells | src/lineplot.cpp:693-708 | Writes the row's cells, advances exactly the series at that time, and keeps the count of unfinished series |
| Export.WriteRow | src/lineplot.cpp:672-710 | One turn of the loop writes the row of the earliest pending time and advances positions and count |
| Export.SaveMerged | src/lineplot.cpp:654-711 | The loop ends and its rows are those of the merge |
| Export.SaveSingle | src/lineplot.cpp:629-639 | The rows of one series, oldest first |
| Export.SaveData | src/lineplot.cpp:613-711 | The rows of the export for any ring buffers |
| Decimal.ReadPrint | src/htmlview_container.cpp:300-319 | Printing a long and reading it with strtol is the identity |
| Decimal.ReadExactly | src/htmlview_container.cpp:300-301 | Reading a number ignores spaces before it and anything after its digits, and clamps what a long cannot hold |
| Decimal.DecimalDigits | src/htmlview_container.cpp:319 | The digits printed are decimal |
| CacheMeta.ReadMeta | src/htmlview_container.cpp:280-307 | The line loop reads what the specification parses |
| CacheMeta.RoundTrip | src/htmlview_container.cpp:280-338 | Written metadata reads back if and only if it is not blank and its strings are single lines without a trailing carriage return |
| CacheMeta.LineSets | src/htmlview_container.cpp:284-301 | A line of one of the four names sets exactly that field, without a trailing carriage return |
| CacheMeta.OtherLineSkipped | src/htmlview_container.cpp:284-301 | Any other line is skipped |
| DiskCache.FormsAgreeOnOne | src/htmlview_container.cpp:413-433 | The two forms treat one URL alike if and only if it is not misanswered with an unconditional 304 |
| DiskCache.FormsAgree | src/htmlview_container.cpp:496-619 | For URLs with keys of their own whose mapped files are still there, the batch leaves the files and map of the one-at-a-time form if and only if no URL is misanswered |
| DiskCache.SharedKeyLosesBody | src/htmlview_container.cpp:585-596 | Two URLs of one key, both answered 200 in a batch, leave no body, with the first still mapped |
| DiskCache.PrefetchOutcome | src/htmlview_container.cpp:496-619 | The batch's outcome per URL depends on that URL's own files and answer only |
| DiskCache.EnsureEachOutcome | src/htmlview_container.cpp:356-494 | So does the outcome of fetching one after another |
| DiskCache.JobsExactly | src/htmlview_container.cpp:509-513 | A batch fetches exactly the http URLs that are not mapped, each as often as asked for |
| CacheInvariant.FetchOneServesStored | src/htmlview_container.cpp:380-494 | A URL is served with the body last stored for it, whether the answer is 200, 304 or a failure |
| CacheInvariant.EnsureKeeps | src/htmlview_container.cpp:356-494 | Ensuring a URL keeps every metadata beside exactly the body last stored for the URL it names, for any cache key |
| SharedKeys.ServedExactly | src/htmlview_container.cpp:544-618 | With any cache key, a job of a batch is served if and only if it is answered 200 and no earlier job has its key, or is not and its own body was trusted |
| SharedKeys.CommitKeyIs | src/htmlview_container.cpp:544-618 | The body a batch leaves under any key: gone if a later job of the key was answered 200, what was downloaded if only the first was, else as it was |
| SharedKeys.MappedExactly | src/htmlview_container.cpp:544-618 | The URLs mapped after a batch are those mapped before and the jobs served |
| SharedKeys.OwnBodyExactly | src/htmlview_container.cpp:544-618 | A URL fetched in the batch, or that had its own body, has it afterwards if and only if no later job of its key was answered 200 and, if the first was, its payload is what was downloaded |
| SharedKeys.DiskInvExactly | src/htmlview_container.cpp:496-619 | A batch with any cache key leaves metadata only beside the body last stored for the URL named if and only if whoever a key's metadata names at the end has its own body |
| SharedKeys.MapInvExactly | src/htmlview_container.cpp:496-619 | It leaves every mapped URL its own last body if and only if each of them has its own body in that sense |
| SharedKeys.ForeignBody | src/htmlview_container.cpp:552-568 | A 200 without validators and a 304 under one key leave the second URL's metadata beside the first one's body, and serve it |
| AnyAnswer.KeptExactly | src/htmlview_container.cpp:496-619 | A batch keeps the disk invariant whatever it is answered if and only if no two jobs share a key |
| AnyAnswer.ServedAlwaysExactly | src/htmlview_container.cpp:496-619 | It serves every mapped URL its own body whatever it is answered if and only if no job shares its key with another or with a mapped URL |
| DiskCacheRuns.ServeExactly | src/htmlview_container.cpp:356-619 | One request, single or batched, keeps the disk invariant if and only if it keeps every key |
| DiskCacheRuns.ValidatedBodyIsStored | src/htmlview_container.cpp:356-619 | Over every run that mixes single requests, batches and forgetting the URL map, with changing servers and any cache key, validators are sent only for the body last stored for the URL, at every point, if and only if every batch keeps the keys of its jobs |
| DiskCacheRuns.ServedBodyExactly | src/htmlview_container.cpp:356-619 | Over every such run every URL is validated and served with its own last body if and only if every request leaves every key and every mapped URL its own body |
| CacheInvariant.EnsureKeepsMap | src/htmlview_container.cpp:356-494 | Without key collisions one request keeps every mapped URL on its own last body |
| DiskCacheRuns.ServedBodyIsStored | src/htmlview_container.cpp:356-619 | If the keys of the URLs asked for differ and no batch has a URL twice, that is so at the end of every run |
| Revalidation.SentExactly | src/htmlview_container.cpp:387-401 | The validators sent are those known of the URL if its files have its metadata and its last answer can be validated, and none otherwise |
| Revalidation.FetchKeepsRecord | src/htmlview_container.cpp:413-494 | After any answer the metadata repeats the validators and length of the last 200, with the validators that a 304 repeated taken over |
| Revalidation.BatchKeepsRecords | src/htmlview_container.cpp:544-618 | So does a batch that keeps the disk invariant, with any cache key |
| Revalidation.RecordsOverRuns | src/htmlview_container.cpp:356-619 | So does every run whose batches keep the keys of their jobs |
| Revalidation.AskedExactly | src/htmlview_container.cpp:387-401 | Over every such run, with any cache key, a URL whose metadata is there is asked for with exactly the two validators of its last answer, each in its own place, if that answer can be validated, and any other URL with none |
| Revalidation.AskedByAnswer | src/htmlview_container.cpp:387-401 | If the keys of the URLs asked for differ, a URL is asked for conditionally if and only if its last 200 had a validator, a body and a matching length, and then with exactly its validators |
| CacheInvariant.FormsAgreeOnOwnDisk | src/htmlview_container.cpp:496-619 | On a disk this program wrote the two forms always agree |
| HtmlViewContainer.HtmlViewContainer.EnsureLocalFile | src/htmlview_container.cpp:356-494 | The new files and map are those specified, and a location is returned exactly if the URL is mapped to a file that is there, namely that one |
| HtmlViewContainer.EnsureExactly | src/htmlview_container.cpp:363-389 | A local URL is mapped to the file of its name, without the scheme, exactly if that exists; an http one changes only the files of its key, and nothing without a cache directory |
| HtmlViewContainer.HtmlViewContainer.CommitFetch | src/htmlview_container.cpp:413-494 | The files and map after a fetch, for each kind of answer |
| HtmlViewContainer.HtmlViewContainer.PrefetchUrls | src/htmlview_container.cpp:496-619 | The batch's new files and map |
| ImageSweep.SaturatingAdd | src/image_cache.cpp:69-73 | Addition capped at the largest 64-bit number |
| ImageSweep.TightAntitone | src/image_cache.cpp:75-82 | More available space is never tighter |
| ImageSweep.TightExactly | src/image_cache.cpp:75-82 | There is no pressure if and only if both floors that are set are met |
| ImageSweep.ManagedExactly | src/image_cache.cpp:23-52 | The managed names are exactly those of a stem that does not begin with a dot and one of nine extensions, in either case |
| ImageSweep.ReclaimedIsTotal | src/image_cache.cpp:198-210 | The running saturated sum is the capped total of the removed bytes |
| ImageSweep.SortIs | src/image_cache.cpp:192-196 | The order is by time then name and keeps the same files |
| ImageSweep.SortExactly | src/image_cache.cpp:192-196 | The oldest files come first, those of one time by name |
| ImageSweep.LexExactly | src/image_cache.cpp:195 | Names are compared character by character |
| ImageSweep.OrderUnique | src/image_cache.cpp:192-196 | Any ordering of files with distinct names is that one |
| ImageSweep.ShortestIsExact | src/image_cache.cpp:198-211 | The prefixes under pressure are exactly those shorter than what is attempted |
| ImageSweep.PressurePass | src/image_cache.cpp:198-211 | Attempts the shortest prefix that clears the floor, keeps the rest, and ends with the pressure of the final space |
| ImageSweep.AgePass | src/image_cache.cpp:144-187 | Removes the aged files, counts the live ones and collects the young |
| ImageSweep.SweepHttpImageCache | src/image_cache.cpp:132-212 | The whole sweep: files removed, all four counters and the pressure flag |
| ImageSweep.LiveNeverRemoved | src/image_cache.cpp:153-159 | Nothing with a live name, and nothing unmanaged, is removed |
| ImageSweep.AgedAllRemoved | src/image_cache.cpp:172-181 | Every aged file that can be removed is |
| ImageSweep.AgeExactly | src/image_cache.cpp:156-187 | A file goes in the age pass if and only if it is managed, not live, removable and at least as old as the limit, and is left to the pressure pass if and only if it is managed, not live and younger |
| ImageSweep.LiveExactly | src/image_cache.cpp:156-159 | The live counter is the number of managed files with a live name |
| ImageSweep.CountersSum | src/image_cache.cpp:132-212 | The counters add up to the managed files, short of unreadable ones and aged ones that could not be removed |
| Resources.UsesAreCounted | src/resourcemanager.cpp:41-94 | On every run a resource is registered exactly while more uses were granted than returned, its count is the difference, and it was closed once for each registration but the present one |
| Resources.LastUseCloses | src/resourcemanager.cpp:45-88 | A release closes exactly when it returns the last use, and a handover keeps the count |
| Resources.ManagersOverRuns | src/resourcemanager.cpp:41-88 | Over every run the present manager of a resource has the time of its last release, none if it is new or took over, and is a texture's if it was registered or handed over as one |
| Resources.ResourceManagers.Manage | src/resourcemanager.cpp:66-74 | The new registry |
| Resources.ResourceManagers.Release | src/resourcemanager.cpp:45-94 | The new registry, the uses left, and the texture closed |
| Resources.ResourceManagers.Handover | src/resourcemanager.cpp:76-88 | The new registry: same count, new manager |
| Textures.ViewReleaseKeeps | src/editorimageview.cpp:35-38 | A view's release keeps the books, and at the last use the cache has nothing left to free |
| Textures.GetImageKeeps | src/editorgui.cpp:597-676 | Load, reload, cache hit and failed load keep the maps inverse and the counts exact; what is found is cached under that name |
| Textures.DropOldKeeps | src/editorgui.cpp:635-653 | Taking the old texture out before a reload keeps the books, through release and handover |
| Textures.DirectFreeLeaks | src/editorgui.cpp:583-595 | Freeing an image directly breaks the books if and only if it is cached |
| Textures.VictimsAreIdle | src/editorgui.cpp:680-696 | The cleanup's victims are idle textures in order of release, one for each time |
| Textures.OldestGo | src/editorgui.cpp:697-712 | Those that go are a prefix in that order |
| Textures.CleanupIsExact | src/editorgui.cpp:678-714 | The cleanup removes exactly the victims beyond nine textures or stale, and never one that a view holds |
| TextureViews.StepKeeps | src/editorimageview.cpp:118-139 | Every event of views, lookups and cleanups keeps maps, counts, registry and driver in agreement |
| TextureViews.TexturesOverRuns | src/editorgui.cpp:583-714 | On every run no view holds a deleted texture, no texture outlives its last use, counts are numbers of uses, and the maps are inverse |
| TextureViews.LastHolderDeletes | src/editorimageview.cpp:35-38 | A view's destruction deletes its texture exactly when it left the cache and no other view holds it |
| TextureCleanup.FoundExactly | src/editorgui.cpp:618-676 | What a lookup finds and caches, and what becomes of the texture it replaces: left to its views with their count, or deleted |
| TextureCleanup.ShowsExactly | src/editorimageview.cpp:118-139 | A view shows what its lookup finds; one given another name never shows what was cached |
| TextureCleanup.ViewsExactly | src/editorimageview.cpp:29-38 | A view that changes page keeps its name, and a destroyed view is the only one to go |
| TextureCleanup.ReleasesOverRuns | src/resourcemanager.cpp:45-54 | Over every run a cached texture has the time at which a view last gave it up since it was loaded |
| TextureCleanup.CleanedExactly | src/editorgui.cpp:678-714 | A cleanup takes a texture out if and only if there are two or more, no view holds it, that time is over ten seconds ago, no other of that time comes first, and more than eight would be left or it is over sixty seconds ago |
| GuiTextures.EditorGui.FreeImage | src/editorgui.cpp:583-595 | The new maps and driver textures |
| GuiTextures.EditorGui.GetImageId | src/editorgui.cpp:597-676 | The new state and the id found |
| GuiTextures.EditorGui.CleanupTextureCache | src/editorgui.cpp:678-714 | The new state of a cleanup |
| GuiTextures.EditorImageView.SetImageName | src/editorimageview.cpp:118-139 | The new image, and the textures after lookup, release and take-up |
| ClassOrder.AddStructureClass | src/structure.cpp:453-475 | Adds exactly the class, at the specified place |
| ClassOrder.PositionIs | src/structure.cpp:458-473 | Where the scan stops: after the base, at a sibling or extension, or at the end |
| ClassOrder.AddKeepsOrder | src/structure.cpp:453-475 | Bases still precede extensions if and only if no extension of the new class stands before its base |
| ClassOrder.NoPositionWouldDo | src/structure.cpp:453-475 | Otherwise no place in the list would do |
| ClassOrder.ArrivalsKeepOrder | src/structure.cpp:451-475 | Any arrivals in which no class comes after both an extension and its base give an ordered list of exactly those classes |
| ClassOrder.DisorderStays | src/structure.cpp:453-475 | A list out of order stays so whatever is added |
| ClassOrder.ArrivalsExactly | src/structure.cpp:451-475 | Any series of new arrivals ends ordered if and only if none came between an extension of it and its base |
| ClassOrder.ThreeLevelChainBreaks | src/structure.cpp:451-475 | A chain, root included, that ends out of order |
| ClassOrder.IsExtension | src/structure.cpp:437-447 | Whenever the walk ends it decides whether the name sought is the class's own or met along its chain |
| ClassOrder.EndsExactly | src/structure.cpp:437-447 | The walk ends if and only if the name sought, an empty base or a missing class is met before a name repeats, and then within one step more than there are classes |
| ClassOrder.ChainIsAncestors | src/structure.cpp:437-447 | On a list without a cycle every walk ends, and the chain is that of the ancestors |
| ClassOrder.AncestorsAreChain | src/structure.cpp:437-447 | Those names are the found classes' names and a base that is not found, if any |
| ClassOrder.ScanIsWalk | src/structure.cpp:493-506 | On an ordered list of distinct names the reverse scan collects what repeated lookups find |
| ClassOrder.ScanTakes | src/structure.cpp:493-506 | On any list the scan takes the last class of the name and goes on in front of it with its base |
| ClassOrder.OrderedHasRank | src/structure.cpp:437-447 | Such a list has no cycle |
| ClassOrder.CollectChain | src/structure.cpp:493-506 | The loop collects what the scan specifies |
| Naming.NamesDiffer | src/namedobject.cpp:107-114 | Generated names that fit the buffer are equal exactly for equal ids |
| Naming.ShortNamesFit | src/namedobject.cpp:107-114 | With a prefix of up to eighteen characters every 32-bit id fits |
| Naming.PaddedIdMeans | src/namedobject.cpp:107-114 | The number in a generated name reads as the id, has at least three characters and no needless zeros |
| Naming.IdOfCounter | src/namedobject.cpp:118 | The id is the 32-bit counter as a signed number |
| Naming.FirstNames | src/namedobject.cpp:107-119 | What generated names look like, the first one included |
| Naming.LongNamesCollide | src/namedobject.cpp:107-114 | From twenty-nine characters on all generated names are one |
| Naming.SearchEnds | src/namedobject.cpp:116-126 | The search ends if and only if a trial of one turn of the counter is acceptable |
| Naming.FreshNameExists | src/namedobject.cpp:116-126 | With a short prefix it ends by pigeonhole within one trial past the dictionary's size |
| Naming.LongPrefixEnds | src/namedobject.cpp:116-126 | With a long one it ends exactly when the single name tried is acceptable |
| Naming.Globals.NextName | src/namedobject.cpp:116-126 | Returns the first trial that is unused or the object's own, all before it being entered for others, and advances the counter by the trials |
| Naming.RenameNeverCaptures | src/namedobject.cpp:155-164 | No entry but the old name's changes |
| Naming.RenameEvicts | src/namedobject.cpp:155-164 | Another object loses its entry if and only if the rename goes ahead and the old name stands for that object |
| Naming.GoneErases | src/namedobject.cpp:21-66 | Destruction erases the entry under the object's name, whoever it stands for, and no other |
| Naming.StepKeepsFaithful | src/namedobject.cpp:87-90 | Creation, renaming and destruction keep every entry an object by its own name |
| Naming.StepKeepsRegistered | src/namedobject.cpp:17-44 | Every object stays entered if and only if no object is created under a name in use, or nameless beside one whose name is empty |
| Naming.NamesOverRuns | src/namedobject.cpp:17-164 | The same over every run; without such creations no two objects share a name |
| Naming.NamedObject.constructor | src/namedobject.cpp:17-19 | A nameless creation takes the next generated name if no sibling has it |
| Naming.NamedObject.ChangeName | src/namedobject.cpp:155-164 | Accepted exactly for the same or an unused name, with the new dictionary |
| Naming.NamedObject.Forget | src/namedobject.cpp:21-33 | Destruction takes the entry of the object's name away |
| Naming.NamedObject.SetName | src/namedobject.cpp:87-90 | The new name and dictionary; entries go on matching their objects |

## Left out

- Drawing, layout, property forms, themes and mouse geometry.
- ZeroMQ, the subscription manager, message decoding, cJSON and curl's internals: their answers are inputs. `checkConnections` reports failure, readiness or an exception for each pass; a throwing send is an input too, while an exception in the middle of the other steps of a pass is not modelled.
- `handleSubscriber`, `first_message_time` and the effect of a snapshot on widgets (`processModbusInitialisation`, `applyControlRemoteTargets`, `refreshImages`): a snapshot is only the array reply and the state it leads to.
- The order in which connections are visited, and `noteConnected` and `noteDisconnected`, which nothing calls.
- Whether the connection's update finds a working panel is one input of the pass. The runs of `PanelRuns` do not tie it to what the overlay finds, so their results hold for more runs than the code has; `OverlayPromise.Consistent` is the tie, and the runs given as examples meet it.
- `applyBacklight`: whether the command succeeded is an input. `cancelActiveDrag` and redraw requests are left out.
- The capture logic of `afterFrameRendered` apart from its early return.
- What a display restore does (rebinding the monitor or restarting): only when it fires.
- Memory and file handles of the fetch slots: a slot is the job it holds.
- FetchScheduler.Scheduler.DrainMessages: a message whose private pointer is not a slot is one without a slot, because curl returns the pointer that was set.
- Sample triggers, callbacks, `addSampleDebug`, `rate`, `bufferAverage`, and the mutexes of the ring buffer.
- CircularBuffer.CircularBuffer.FindRange: not on an empty buffer, where the code reads before the array.
- CircularBuffer.CircularBuffer.AddSample: reals stand for doubles; a value outside the 16-bit range, for which the C++ conversion is undefined, is truncated and wrapped.
- CircularBuffer.CircularBuffer.GetTime: times are integers; the code passes them through a double.
- The formatting of export rows as text, and the header line.
- Files that cannot be written, renamed or removed in the disk cache: file operations succeed. The cache key is any function; its 64-bit hash is not modelled.
- HtmlViewContainer.HtmlViewContainer.PrefetchUrls: the parallel downloads are one answer for each URL and validators, as the fetch scheduler's own proof justifies. Jobs that share a cache key share one temporary file, as in the code; it is taken to be written in the order of the jobs, though parallel downloads may finish in another.
- ImageSweep.AgePass: files are entries of one directory listing; the path components that `isManagedCacheFile` compares are not modelled. The ratio is over reals.
- Manager objects: a registry entry is a value, so their identity and deletion are not modelled; counts are unbounded.
- The NanoVG image ids that buttons register in the same registry, a different id space.
- GuiTextures.EditorGui.GetImageId: the texture name is given; how `shortName` derives it, the fetch, and the image file dropped with a texture are inputs or left out.
- GuiTextures.EditorGui.CleanupTextureCache: the order in which the map is walked is a parameter; it matters only for textures released in the same microsecond.
- SymbolTable merging in `default_properties`: only the collected chain.
- ClassOrder.IsExtension: a walk that does not end is excluded; EndsExactly says which those are.
- Naming.NamedObject.SetName: `setParent`, `forgetGlobal` and `fullName` are left out, and names hold no NUL characters.
- Naming.Globals.NextName: requires that the search ends, which the lemmas beside it decide for every dictionary.
