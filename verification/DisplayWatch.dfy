/** The debounced watch on display outputs that restores the display when one returns. */
module DisplayWatch {
  import opened Common

  const DEBOUNCE_US: Word := 1_000_000

  datatype Poll = Poll(now: Word, rawActive: bool)

  datatype State = State(watchReady: bool, outputActive: bool, lastRawActive: bool, rawChangedAt: Word)
  {
    predicate Settled(p: Poll) {
      watchReady && p.rawActive == lastRawActive && Elapsed(p.now, rawChangedAt) >= DEBOUNCE_US
    }

    predicate Fires(p: Poll) { Settled(p) && p.rawActive && !outputActive }

    function Step(p: Poll): State {
      if !watchReady then State(true, p.rawActive, p.rawActive, p.now)
      else if p.rawActive != lastRawActive then this.(lastRawActive := p.rawActive, rawChangedAt := p.now)
      else if Elapsed(p.now, rawChangedAt) < DEBOUNCE_US then this
      else this.(outputActive := p.rawActive)
    }
  }

  function Run(polls: seq<Poll>): State {
    if polls == [] then State(false, false, false, 0)
    else Run(polls[..|polls| - 1]).Step(polls[|polls| - 1])
  }

  predicate FiresAt(polls: seq<Poll>, k: nat)
    requires k < |polls|
  {
    Run(polls[..k]).Fires(polls[k])
  }

  /** Polls `j` to `k` all read `raw`, over at least a second. */
  predicate Stable(polls: seq<Poll>, j: nat, k: nat, raw: bool) {
    && j <= k < |polls|
    && (forall i :: j <= i <= k ==> polls[i].rawActive == raw)
    && polls[k].now - polls[j].now >= 1_000_000
  }

  predicate SteadyClock(polls: seq<Poll>) {
    forall i, j :: 0 <= i <= j < |polls| ==> polls[i].now <= polls[j].now
  }

  /** The poll since which the raw reading has not changed. */
  lemma {:induction false} UnchangedSince(polls: seq<Poll>) returns (j: nat)
    requires polls != []
    ensures j < |polls| && polls[j].now == Run(polls).rawChangedAt && Run(polls).watchReady
    ensures forall i :: j <= i < |polls| ==> polls[i].rawActive == Run(polls).lastRawActive
    decreases |polls|
  {
    var last := |polls| - 1;
    var before := Run(polls[..last]);
    if last > 0 && polls[last].rawActive == before.lastRawActive {
      j := UnchangedSince(polls[..last]);
      assert forall i :: j <= i < last ==> polls[..last][i] == polls[i];
    } else {
      j := last;
      if last > 0 { var _ := UnchangedSince(polls[..last]); }
    }
  }

  lemma SettledIsStable(polls: seq<Poll>, k: nat) returns (j: nat)
    requires SteadyClock(polls) && k < |polls| && Run(polls[..k]).Settled(polls[k])
    ensures Stable(polls, j, k, polls[k].rawActive)
  {
    j := UnchangedSince(polls[..k]);
    assert forall i :: j <= i < k ==> polls[..k][i] == polls[i];
  }

  /** A restore fires only after the outputs were polled active for the debounce time. */
  lemma FiresOnlyWhenStable(polls: seq<Poll>, k: nat) returns (j: nat)
    requires SteadyClock(polls) && k < |polls| && FiresAt(polls, k)
    ensures Stable(polls, j, k, true)
  {
    j := SettledIsStable(polls, k);
  }

  lemma BecomesInactive(polls: seq<Poll>, b: nat) returns (a: nat)
    requires SteadyClock(polls) && 0 < b < |polls|
    requires Run(polls[..b]).outputActive && !Run(polls[..b + 1]).outputActive
    ensures Stable(polls, a, b, false)
  {
    hide Stable, SteadyClock;
    assert polls[..b + 1][..b] == polls[..b];
    var _ := UnchangedSince(polls[..b]);
    a := SettledIsStable(polls, b);
  }

  /** Once settled active, the watch becomes inactive only through a stable inactive time. */
  lemma {:induction false} InactiveThroughStable(polls: seq<Poll>, i: nat, k: nat) returns (a: nat, b: nat)
    requires SteadyClock(polls) && i < k <= |polls|
    requires Run(polls[..i + 1]).outputActive && !Run(polls[..k]).outputActive
    ensures i < b < k && Stable(polls, a, b, false)
    decreases k
  {
    hide Run, SteadyClock, Stable;
    if !Run(polls[..k - 1]).outputActive {
      a, b := InactiveThroughStable(polls, i, k - 1);
    } else {
      b := k - 1;
      a := BecomesInactive(polls, b);
    }
  }

  /** Between two firings the outputs were polled inactive for the debounce time. */
  lemma InactiveBetweenFirings(polls: seq<Poll>, i: nat, k: nat) returns (a: nat, b: nat)
    requires SteadyClock(polls) && i < k < |polls| && FiresAt(polls, i) && FiresAt(polls, k)
    ensures i < a <= b < k && Stable(polls, a, b, false)
  {
    assert polls[..i + 1][..i] == polls[..i];
    a, b := InactiveThroughStable(polls, i, k);
    assert polls[i].rawActive;
  }

  /** Any reading held for the debounce time is adopted by the last of its polls. */
  lemma StableIsAdopted(polls: seq<Poll>, j: nat, raw: bool)
    requires SteadyClock(polls) && polls != [] && Stable(polls, j, |polls| - 1, raw)
    ensures Run(polls).outputActive == raw
  {
    var last := |polls| - 1;
    HeldSince(polls, j, raw, last);
    var before := Run(polls[..last]);
    assert polls[last].now - before.rawChangedAt >= DEBOUNCE_US;
  }

  lemma {:induction false} HeldSince(polls: seq<Poll>, j: nat, raw: bool, k: nat)
    requires SteadyClock(polls) && j < k <= |polls|
    requires forall i :: j <= i < k ==> polls[i].rawActive == raw
    ensures var s := Run(polls[..k]);
            s.watchReady && s.lastRawActive == raw && s.rawChangedAt <= polls[j].now
    decreases k
  {
    assert polls[..k][..k - 1] == polls[..k - 1];
    if j < k - 1 {
      HeldSince(polls, j, raw, k - 1);
    } else if k > 1 {
      var s := UnchangedSince(polls[..k - 1]);
    }
  }

  /** At poll `k` the reading has been `raw` for the debounce time. */
  predicate StableAt(polls: seq<Poll>, k: nat, raw: bool) {
    exists j: nat :: j <= k && Stable(polls, j, k, raw)
  }

  lemma SettledExactly(polls: seq<Poll>, k: nat)
    requires SteadyClock(polls) && k < |polls|
    ensures Run(polls[..k]).Settled(polls[k]) <==> StableAt(polls, k, polls[k].rawActive)
  {
    if Run(polls[..k]).Settled(polls[k]) { var j := SettledIsStable(polls, k); }
    if j: nat :| Stable(polls, j, k, polls[k].rawActive) { HeldSince(polls, j, polls[k].rawActive, k); }
  }

  /** The output was last found inactive, by the first poll or by a stable reading, at poll
      `b`, and no active reading was stable since. */
  predicate InactiveSince(polls: seq<Poll>, b: nat) {
    && b < |polls| && (StableAt(polls, b, false) || (b == 0 && !polls[0].rawActive))
    && forall i :: b < i < |polls| ==> !StableAt(polls, i, true)
  }

  lemma StableInPrefix(polls: seq<Poll>, n: nat, k: nat, raw: bool)
    requires k < n <= |polls|
    ensures StableAt(polls[..n], k, raw) == StableAt(polls, k, raw)
  {
    if j: nat :| Stable(polls, j, k, raw) { assert Stable(polls[..n], j, k, raw); }
    if j: nat :| Stable(polls[..n], j, k, raw) {
      forall i | j <= i <= k ensures polls[i].rawActive == raw { assert polls[..n][i] == polls[i]; }
      assert Stable(polls, j, k, raw);
    }
  }

  lemma InactiveInPrefix(polls: seq<Poll>, b: nat)
    requires polls != []
    ensures InactiveSince(polls, b) <==>
              var last := |polls| - 1;
              if b == last then StableAt(polls, b, false) || (b == 0 && !polls[0].rawActive)
              else InactiveSince(polls[..last], b) && !StableAt(polls, last, true)
  {
    hide StableAt;
    var last := |polls| - 1;
    forall k | 0 <= k < last
      ensures StableAt(polls[..last], k, true) == StableAt(polls, k, true)
      ensures StableAt(polls[..last], k, false) == StableAt(polls, k, false)
    {
      StableInPrefix(polls, last, k, true);
      StableInPrefix(polls, last, k, false);
    }
  }

  lemma {:induction false} OutputExactly(polls: seq<Poll>)
    requires SteadyClock(polls) && polls != []
    ensures !Run(polls).outputActive <==> exists b: nat :: InactiveSince(polls, b)
    ensures Run(polls).watchReady
  {
    hide StableAt, InactiveSince;
    var last := |polls| - 1;
    var prefix := polls[..last];
    forall b: nat
      ensures InactiveSince(polls, b) <==>
                if b == last then StableAt(polls, b, false) || (b == 0 && !polls[0].rawActive)
                else InactiveSince(prefix, b) && !StableAt(polls, last, true)
    {
      InactiveInPrefix(polls, b);
    }
    OneReading(polls);
    if last > 0 {
      OutputExactly(prefix);
      SettledExactly(polls, last);
      InactiveInside(prefix);
      assert InactiveSince(polls, last) <==> StableAt(polls, last, false);
      if b: nat :| InactiveSince(prefix, b) { assert InactiveSince(polls, b) <==> !StableAt(polls, last, true); }
    } else {
      InactiveInside(prefix);
      assert InactiveSince(polls, 0) <==> !polls[0].rawActive;
    }
  }

  lemma InactiveInside(polls: seq<Poll>)
    ensures forall b: nat :: InactiveSince(polls, b) ==> b < |polls|
  {
  }

  /** The last reading is stable as one value only, and the first poll as none. */
  lemma OneReading(polls: seq<Poll>)
    requires SteadyClock(polls) && polls != []
    ensures !StableAt(polls, |polls| - 1, !polls[|polls| - 1].rawActive)
    ensures |polls| == 1 ==> !StableAt(polls, 0, true) && !StableAt(polls, 0, false)
  {
  }

  /** A restore fires exactly at the first poll that completes an active second since the
      outputs were last found inactive, by the first poll or for a whole second. */
  lemma FiresExactly(polls: seq<Poll>, k: nat)
    requires SteadyClock(polls) && k < |polls|
    ensures FiresAt(polls, k) <==> StableAt(polls, k, true) && exists b: nat :: InactiveSince(polls[..k], b)
  {
    SettledExactly(polls, k);
    if k > 0 {
      hide StableAt, InactiveSince;
      OutputExactly(polls[..k]);
      OneReading(polls[..k + 1]);
      StableInPrefix(polls, k + 1, k, true);
    } else {
      assert polls[..0] == [];
    }
  }

  /** The client's watch fields, updated in place on every idle pass. */
  class DisplayMonitor {
    var watchReady: bool
    var outputActive: bool
    var lastRawActive: bool
    var rawChangedAt: Word

    ghost function View(): State
      reads this
    {
      State(watchReady, outputActive, lastRawActive, rawChangedAt)
    }

    constructor ()
      ensures View() == Run([])
    {
      watchReady, outputActive, lastRawActive, rawChangedAt := false, false, false, 0;
    }

    method PollDisplayOutputs(p: Poll) returns (restored: bool)
      modifies this
      ensures View() == old(View()).Step(p)
      ensures restored == old(View()).Fires(p)
    {
      restored := false;
      if !watchReady {
        lastRawActive := p.rawActive;
        outputActive := p.rawActive;
        rawChangedAt := p.now;
        watchReady := true;
        return;
      }
      if p.rawActive != lastRawActive {
        lastRawActive := p.rawActive;
        rawChangedAt := p.now;
        return;
      }
      if Elapsed(p.now, rawChangedAt) < DEBOUNCE_US {
        return;
      }
      if p.rawActive && !outputActive {
        restored := true;
      }
      outputActive := p.rawActive;
    }
  }
}
