/** The parallel fetch loop: jobs are started in order on a fixed set of slots, a curl
    that may do anything reports completions, and every job ends with exactly one result. */
module FetchScheduler {
  import opened Common
  import opened FetchLog

  function CountDone(done: seq<bool>): (n: nat)
    ensures n <= |done|
  {
    if done == [] then 0 else (if done[0] then 1 else 0) + CountDone(done[1..])
  }

  lemma {:induction false} CountMark(done: seq<bool>, i: nat)
    requires i < |done| && !done[i]
    ensures CountDone(done[i := true]) == CountDone(done) + 1
  {
    if i == 0 {
      assert done[0 := true][1..] == done[1..];
    } else {
      CountMark(done[1..], i - 1);
      assert done[i := true][1..] == done[1..][i - 1 := true];
    }
  }

  lemma {:induction false} CountFull(done: seq<bool>)
    ensures CountDone(done) == |done| <==> forall i :: 0 <= i < |done| ==> done[i]
  {
    if done != [] {
      CountFull(done[1..]);
      assert forall i :: 0 < i < |done| ==> done[i] == done[1..][i - 1];
    }
  }

  /** Every started job is done or held by exactly one slot, never both; a job that has
      not been started is neither. */
  predicate Accounted(slots: seq<Option<nat>>, done: seq<bool>, nextJob: nat) {
    && nextJob <= |done|
    && (forall s, t :: 0 <= s < t < |slots| && slots[s].Some? ==> slots[s] != slots[t])
    && (forall s :: 0 <= s < |slots| && slots[s].Some? ==> slots[s].value < nextJob)
    && (forall i :: 0 <= i < nextJob ==> (done[i] <==> Some(i) !in slots))
    && (forall i :: nextJob <= i < |done| ==> !done[i])
  }

  lemma StartAccounted(slots: seq<Option<nat>>, done: seq<bool>, nextJob: nat, s: nat)
    requires Accounted(slots, done, nextJob) && nextJob < |done| && s < |slots| && slots[s] == None
    ensures Accounted(slots[s := Some(nextJob)], done, nextJob + 1)
  {
    var after := slots[s := Some(nextJob)];
    forall i: nat | i <= nextJob ensures done[i] <==> Some(i) !in after {
      if i == nextJob {
        assert after[s] == Some(i);
      } else if Some(i) in slots {
        var t :| 0 <= t < |slots| && slots[t] == Some(i);
        assert after[t] == Some(i);
      }
    }
  }

  lemma SkipAccounted(slots: seq<Option<nat>>, done: seq<bool>, nextJob: nat)
    requires Accounted(slots, done, nextJob) && nextJob < |done|
    ensures Accounted(slots, done[nextJob := true], nextJob + 1)
  {
  }

  lemma FinishAccounted(slots: seq<Option<nat>>, done: seq<bool>, nextJob: nat, s: nat)
    requires Accounted(slots, done, nextJob) && s < |slots| && slots[s].Some?
    ensures Accounted(slots[s := None], done[slots[s].value := true], nextJob)
    ensures !done[slots[s].value]
  {
    var job := slots[s].value;
    var after := slots[s := None];
    assert Some(job) in slots;
    forall i: nat | i < nextJob ensures done[job := true][i] <==> Some(i) !in after {
      if i != job && Some(i) in slots {
        var t :| 0 <= t < |slots| && slots[t] == Some(i);
        assert after[t] == Some(i);
      }
    }
  }

  /** A completion message of the round names slot `s`. */
  predicate Names(messages: seq<Message>, s: nat) {
    exists m :: 0 <= m < |messages| && messages[m].done && messages[m].slot == Some(s)
  }

  lemma NamesNext(messages: seq<Message>, m: nat)
    requires m < |messages|
    ensures forall s: nat :: Names(messages[..m + 1], s) <==>
              Names(messages[..m], s) || (messages[m].done && messages[m].slot == Some(s))
  {
  }

  /** The jobs done are those whose result was written, each exactly once. */
  predicate WrittenOnce(done: seq<bool>, writes: seq<nat>) {
    && (forall a, b :: 0 <= a < b < |writes| ==> writes[a] != writes[b])
    && (forall i :: 0 <= i < |done| ==> (done[i] <==> i in writes))
  }

  predicate Untouched(done: seq<bool>, results: seq<Result>) {
    |results| == |done| && forall i :: 0 <= i < |done| && !done[i] ==> results[i] == UNTOUCHED
  }

  lemma WriteNext(done: seq<bool>, writes: seq<nat>, results: seq<Result>, i: nat, result: Result)
    requires i < |done| && !done[i] && WrittenOnce(done, writes) && Untouched(done, results)
    ensures WrittenOnce(done[i := true], writes + [i]) && Untouched(done[i := true], results[i := result])
    ensures results[i] == UNTOUCHED
  {
  }

  /** The scheduler's whole state but its rounds. */
  ghost predicate Books(curl: Curl, jobs: seq<Job>, slots: seq<Option<nat>>, done: seq<bool>, results: seq<Result>,
                        nextJob: nat, completed: nat, writes: seq<nat>, log: Log, handled: nat)
  {
    && |done| == |results| == |jobs| && completed == CountDone(done)
    && Accounted(slots, done, nextJob) && WrittenOnce(done, writes) && Untouched(done, results)
    && Logged(curl, jobs, slots, results, nextJob, log, handled)
  }

  lemma SkipBooks(curl: Curl, jobs: seq<Job>, slots: seq<Option<nat>>, done: seq<bool>, results: seq<Result>,
                  nextJob: nat, completed: nat, writes: seq<nat>, log: Log, handled: nat, result: Result)
    requires Books(curl, jobs, slots, done, results, nextJob, completed, writes, log, handled) && nextJob < |jobs|
    requires !Startable(curl, nextJob) && NotStarted(curl, nextJob, result)
    ensures |results| == |done| == |jobs| && results[nextJob] == UNTOUCHED
    ensures Books(curl, jobs, slots, done[nextJob := true], results[nextJob := result], nextJob + 1, completed + 1,
                  writes + [nextJob], log, handled)
  {
    SkipAccounted(slots, done, nextJob);
    hide Accounted, CountDone, WrittenOnce, Untouched, Logged;
    CountMark(done, nextJob);
    WriteNext(done, writes, results, nextJob, result);
    LogSkip(curl, jobs, slots, results, nextJob, log, handled, result);
  }

  lemma StartBooks(curl: Curl, jobs: seq<Job>, slots: seq<Option<nat>>, done: seq<bool>, results: seq<Result>,
                   nextJob: nat, completed: nat, writes: seq<nat>, log: Log, handled: nat, s: nat)
    requires Books(curl, jobs, slots, done, results, nextJob, completed, writes, log, handled) && nextJob < |jobs|
    requires Startable(curl, nextJob) && s < |slots| && slots[s] == None
    ensures Books(curl, jobs, slots[s := Some(nextJob)], done, results, nextJob + 1, completed, writes,
                  log.(placed := log.placed[nextJob := Placement(s, handled)]), handled)
  {
    hide Accounted, CountDone, WrittenOnce, Untouched, Logged;
    StartAccounted(slots, done, nextJob, s);
    LogStart(curl, jobs, slots, results, nextJob, log, handled, s);
  }

  lemma CloseBooks(curl: Curl, jobs: seq<Job>, slots: seq<Option<nat>>, done: seq<bool>, results: seq<Result>,
                   nextJob: nat, completed: nat, writes: seq<nat>, log: Log, handled: nat, s: nat, job: nat, e: End,
                   result: Result)
    requires Books(curl, jobs, slots, done, results, nextJob, completed, writes, log, handled)
    requires s < |slots| && slots[s] == Some(job) && e.at == handled && job < |jobs| && job in log.placed
    requires EndsIn(curl, jobs[job], log.placed[job], e, result)
    ensures |results| == |done| == |jobs|
    ensures Books(curl, jobs, slots[s := None], done[job := true], results[job := result], nextJob, completed + 1,
                  writes + [job], log.(ended := log.ended[job := e]), e.After())
  {
    hide Accounted, CountDone, WrittenOnce, Untouched, Logged, EndsIn;
    FinishAccounted(slots, done, nextJob, s);
    CountMark(done, job);
    WriteNext(done, writes, results, job, result);
    LogEnd(curl, jobs, slots, results, nextJob, log, handled, s, job, e, result);
  }

  lemma PassBooks(curl: Curl, jobs: seq<Job>, slots: seq<Option<nat>>, done: seq<bool>, results: seq<Result>,
                  nextJob: nat, completed: nat, writes: seq<nat>, log: Log, handled: nat)
    requires Books(curl, jobs, slots, done, results, nextJob, completed, writes, log, handled)
    requires handled < |Flat(curl.rounds)|
    requires forall s :: 0 <= s < |slots| && slots[s].Some? ==> !NamesSlot(Flat(curl.rounds), handled, s)
    ensures Books(curl, jobs, slots, done, results, nextJob, completed, writes, log, handled + 1)
  {
    hide Accounted, CountDone, WrittenOnce, Untouched, Logged, NamesSlot;
    LogPass(curl, jobs, slots, results, nextJob, log, handled);
  }

  /** An active slot holds a started job that is not done, and no message since named it. */
  lemma HeldJob(curl: Curl, jobs: seq<Job>, slots: seq<Option<nat>>, done: seq<bool>, results: seq<Result>,
                nextJob: nat, completed: nat, writes: seq<nat>, log: Log, handled: nat, s: nat)
    requires Books(curl, jobs, slots, done, results, nextJob, completed, writes, log, handled)
    requires s < |slots| && slots[s].Some?
    ensures slots[s].value < |jobs| == |results| && HeldBy(Flat(curl.rounds), log, s, slots[s].value, handled)
    ensures results[slots[s].value] == UNTOUCHED
  {
    hide CountDone, WrittenOnce, HeldBy, NoOverlap, Flat;
    assert Some(slots[s].value) in slots;
  }

  /** Active slots hold different jobs. */
  predicate Apart(slots: seq<Option<nat>>) {
    forall s, t :: 0 <= s < t < |slots| && slots[s].Some? ==> slots[s] != slots[t]
  }

  lemma HeldApart(curl: Curl, jobs: seq<Job>, slots: seq<Option<nat>>, done: seq<bool>, results: seq<Result>,
                  nextJob: nat, completed: nat, writes: seq<nat>, log: Log, handled: nat)
    requires Books(curl, jobs, slots, done, results, nextJob, completed, writes, log, handled)
    ensures Apart(slots)
  {
    hide CountDone, WrittenOnce, Untouched, Logged;
  }

  function Nones(n: nat): (slots: seq<Option<nat>>)
    ensures |slots| == n && forall s :: 0 <= s < n ==> slots[s] == None
  {
    seq(n, _ => None)
  }

  /** A job held by a slot that curl is done with ends there. */
  lemma GivesUp(curl: Curl, job: Job, log: Log, s: nat, i: nat, handled: nat, error: string)
    requires HeldBy(Flat(curl.rounds), log, s, i, handled) && QuietAt(curl, handled)
    requires error in {"stale slot", "aborted"}
    ensures i in log.placed && EndsIn(curl, job, log.placed[i], GivenUp(handled), Failure(UNTOUCHED, error))
  {
  }

  /** The slot is the first that is not active. */
  predicate FirstFree(slots: seq<Option<nat>>, s: nat) {
    s < |slots| && slots[s] == None && forall t :: 0 <= t < s ==> slots[t].Some?
  }

  lemma FinishedAnyAs(r: Response)
    ensures forall job: Job :: Reports(job, r, FinishResult(job, r))
  {
    forall job: Job ensures Reports(job, r, FinishResult(job, r)) { FinishedAs(job, r); }
  }

  class Scheduler {
    const jobs: seq<Job>
    const curl: Curl
    const slots: array<Option<nat>>
    const jobDone: array<bool>
    const results: array<Result>
    var nextJob: nat
    var completed: nat
    var round: nat
    var stillRunning: bool
    /** The jobs in the order they were set up, and in the order their results were written. */
    ghost var setups: seq<nat>
    ghost var writes: seq<nat>
    /** Which message answered which job, and how many messages were handled so far. */
    ghost var log: Log
    ghost var handled: nat

    ghost predicate Valid()
      reads this, slots, jobDone, results
    {
      && slots.Length > 0 && jobDone.Length == |jobs| && results.Length == |jobs|
      && round <= |curl.rounds|
      && setups == seq(nextJob, i => i) && nextJob <= |jobs|
      && Books(curl, jobs, slots[..], jobDone[..], results[..], nextJob, completed, writes, log, handled)
    }

    /** The messages of the rounds gone by are handled. */
    ghost predicate BetweenRounds()
      reads this
    {
      round <= |curl.rounds| && handled == |Flat(curl.rounds[..round])|
    }

    constructor (jobs: seq<Job>, maxParallel: int, curl: Curl)
      requires jobs != []
      ensures Valid() && BetweenRounds() && fresh(slots) && fresh(jobDone) && fresh(results)
      ensures this.jobs == jobs && this.curl == curl && nextJob == 0 && round == 0
      ensures slots.Length == if maxParallel < 1 then 1 else if maxParallel < |jobs| then maxParallel else |jobs|
    {
      this.jobs := jobs;
      this.curl := curl;
      var wanted := if maxParallel < 1 then 1 else maxParallel;
      slots := new Option<nat>[if wanted < |jobs| then wanted else |jobs|](_ => None);
      jobDone := new bool[|jobs|](_ => false);
      results := new Result[|jobs|](_ => UNTOUCHED);
      nextJob, completed, round, stillRunning := 0, 0, 0, false;
      setups, writes := [], [];
      log, handled := Log(map[], map[]), 0;
      new;
      NoneDone(jobDone[..]);
      assert curl.rounds[..0] == [];
    }

    /** Writes the result of the next job without starting it: it could not be set up. */
    method SkipNext(error: string)
      requires Valid() && nextJob < |jobs|
      requires !Startable(curl, nextJob) && NotStarted(curl, nextJob, Failure(UNTOUCHED, error))
      modifies this`nextJob, this`completed, this`setups, this`writes, jobDone, results
      ensures Valid() && nextJob == old(nextJob) + 1
    {
      hide Books, NotStarted, Startable;
      SkipBooks(curl, jobs, slots[..], jobDone[..], results[..], nextJob, completed, writes, log, handled,
                Failure(UNTOUCHED, error));
      ghost var before, were := jobDone[..], results[..];
      results[nextJob] := Failure(results[nextJob], error);
      jobDone[nextJob] := true;
      assert jobDone[..] == before[nextJob := true];
      assert results[..] == were[nextJob := Failure(UNTOUCHED, error)];
      completed := completed + 1;
      setups, writes := setups + [nextJob], writes + [nextJob];
      nextJob := nextJob + 1;
    }

    /** The first slot that is not active, or the number of slots. */
    method FindOpen() returns (s: nat)
      requires Valid()
      ensures s <= slots.Length && (s < slots.Length ==> slots[s] == None)
      ensures forall t :: 0 <= t < s ==> slots[t].Some?
      ensures s == slots.Length ==> AllActive()
    {
      hide Books;
      s := 0;
      while s < slots.Length && slots[s].Some?
        invariant s <= slots.Length
        invariant forall t :: 0 <= t < s ==> slots[t].Some?
      {
        s := s + 1;
      }
    }

    method Occupy(s: nat)
      requires Valid() && nextJob < |jobs| && s < slots.Length && slots[s] == None && Startable(curl, nextJob)
      modifies this`nextJob, this`setups, this`log, slots
      ensures Valid() && nextJob == old(nextJob) + 1
      ensures old(nextJob) in log.placed && log.placed[old(nextJob)] == Placement(s, handled)
    {
      hide Books, Startable;
      StartBooks(curl, jobs, slots[..], jobDone[..], results[..], nextJob, completed, writes, log, handled, s);
      ghost var before := slots[..];
      slots[s] := Some(nextJob);
      assert slots[..] == before[s := Some(nextJob)];
      log := log.(placed := log.placed[nextJob := Placement(s, handled)]);
      setups := setups + [nextJob];
      nextJob := nextJob + 1;
    }

    /** Starts the next job that can be set up on a free slot. */
    method StartNext() returns (started: bool)
      requires Valid()
      modifies this`nextJob, this`completed, this`setups, this`writes, this`log, slots, jobDone, results
      ensures Valid() && nextJob >= old(nextJob)
      ensures started ==> nextJob > old(nextJob)
      ensures !started ==> nextJob == |jobs| || AllActive()
      ensures nextJob == old(nextJob) ==> slots[..] == old(slots[..])
      ensures started ==> nextJob - 1 in log.placed && log.placed[nextJob - 1].start == handled
                          && FirstFree(old(slots[..]), log.placed[nextJob - 1].slot)
    {
      hide Books;
      while nextJob < |jobs|
        invariant Valid() && nextJob >= old(nextJob) && slots[..] == old(slots[..])
        decreases |jobs| - nextJob
      {
        var open := FindOpen();
        if open == slots.Length {
          return false;
        }
        if nextJob in curl.initFails {
          SkipNext("curl_easy_init failed");
        } else if nextJob in curl.addFails {
          SkipNext("curl_multi_add_handle failed");
        } else {
          Occupy(open);
          return true;
        }
      }
      return false;
    }

    ghost predicate AllActive()
      reads this, slots
    {
      forall t :: 0 <= t < slots.Length ==> slots[t].Some?
    }

    /** Writes the result of the job an active slot holds, marks it done and frees the slot.
        The job ends at the next message or is given up before it. */
    method CloseSlot(s: nat, job: nat, result: Result, ghost e: End)
      requires Valid() && s < slots.Length && slots[s] == Some(job) && job < |jobs|
      requires job in log.placed && e.at == handled && EndsIn(curl, jobs[job], log.placed[job], e, result)
      modifies this`completed, this`writes, this`log, this`handled, slots, jobDone, results
      ensures Valid() && slots[..] == old(slots[..])[s := None] && results[..] == old(results[..])[job := result]
      ensures handled == e.After() && log == old(log).(ended := old(log).ended[job := e])
    {
      hide Books, EndsIn;
      CloseBooks(curl, jobs, slots[..], jobDone[..], results[..], nextJob, completed, writes, log, handled,
                 s, job, e, result);
      WriteResult(job, result);
      FreeSlot(s);
      completed := completed + 1;
      writes := writes + [job];
      log, handled := log.(ended := log.ended[job := e]), e.After();
    }

    method FreeSlot(s: nat)
      requires s < slots.Length
      modifies slots
      ensures slots[..] == old(slots[..])[s := None]
    {
      slots[s] := None;
    }

    method WriteResult(job: nat, result: Result)
      requires job < results.Length == jobDone.Length
      modifies jobDone, results
      ensures results[..] == old(results[..])[job := result] && jobDone[..] == old(jobDone[..])[job := true]
    {
      results[job] := result;
      jobDone[job] := true;
    }

    /** Handles the next message: a completion frees the slot it names and its job takes what
        this message reports; any other message changes nothing. */
    method HandleMessage(msg: Message)
      requires Valid() && handled < |Flat(curl.rounds)| && msg == Flat(curl.rounds)[handled]
      modifies this`completed, this`writes, this`log, this`handled, slots, jobDone, results
      ensures Valid() && handled == old(handled) + 1
      ensures forall s :: 0 <= s < slots.Length ==>
                slots[s] == if msg.done && msg.slot == Some(s) then None else old(slots[s])
      ensures forall s :: 0 <= s < slots.Length && old(slots[s]).Some? && msg.done && msg.slot == Some(s) ==>
                Takes(old(slots[s]).value, old(handled))
      ensures forall i, c :: old(Takes(i, c)) ==> Takes(i, c)
    {
      FinishedAnyAs(msg.response);
      hide Books, FinishResult, Reports, Flat;
      if msg.done && msg.slot.Some? && msg.slot.value < slots.Length && slots[msg.slot.value].Some? {
        var job := slots[msg.slot.value].value;
        HeldJob(curl, jobs, slots[..], jobDone[..], results[..], nextJob, completed, writes, log, handled,
                msg.slot.value);
        assert EndsIn(curl, jobs[job], log.placed[job], Answered(handled), FinishResult(jobs[job], msg.response));
        CloseSlot(msg.slot.value, job, FinishResult(jobs[job], msg.response), Answered(handled));
      } else {
        PassBooks(curl, jobs, slots[..], jobDone[..], results[..], nextJob, completed, writes, log, handled);
        handled := handled + 1;
      }
    }

    /** Job `i` is done with what message `c` reports. */
    ghost predicate Takes(i: nat, c: nat)
      reads this, results
    {
      && i < |jobs| && i < results.Length && c < |Flat(curl.rounds)|
      && i in log.ended && log.ended[i] == Answered(c)
      && Reports(jobs[i], Flat(curl.rounds)[c].response, results[i])
    }

    /** Handles the completion messages of the next round: the slots they name are freed,
        each job takes what the first message for its slot reports, and no other slot is
        touched. */
    method DrainMessages(r: nat)
      requires Valid() && r < |curl.rounds| && handled == |Flat(curl.rounds[..r])|
      modifies this`completed, this`writes, this`log, this`handled, slots, jobDone, results
      ensures Valid() && handled == |Flat(curl.rounds[..r + 1])|
      ensures forall s :: 0 <= s < slots.Length ==>
                slots[s] == if Names(curl.rounds[r].messages, s) then None else old(slots[s])
      ensures forall s :: 0 <= s < slots.Length && old(slots[s]).Some? && Names(curl.rounds[r].messages, s) ==>
                exists c :: old(handled) <= c < handled && Takes(old(slots[s]).value, c)
    {
      FlatAt(curl.rounds, r);
      hide Valid, Reports, Flat, Takes;
      var messages := curl.rounds[r].messages;
      for m := 0 to |messages|
        invariant Valid() && handled == old(handled) + m
        invariant forall s :: 0 <= s < slots.Length ==>
                    slots[s] == if Names(messages[..m], s) then None else old(slots[s])
        invariant forall s :: 0 <= s < slots.Length && old(slots[s]).Some? && Names(messages[..m], s) ==>
                    exists c :: old(handled) <= c < handled && Takes(old(slots[s]).value, c)
      {
        HandleMessage(messages[m]);
        NamesNext(messages, m);
      }
      assert messages[..|messages|] == messages;
    }

    /** Nothing is running, and the rounds gone by end there. */
    ghost predicate AtRest()
      reads this
    {
      round <= |curl.rounds| && Quiet(curl, round) && BetweenRounds()
    }

    /** One call of `perform` and the messages it left. It is made with every slot active or no
        job left to start. */
    method Perform()
      requires Valid() && BetweenRounds() && (nextJob == |jobs| || AllActive())
      modifies this`completed, this`writes, this`round, this`stillRunning, this`log, this`handled,
               slots, jobDone, results
      ensures Valid() && BetweenRounds() && round >= old(round)
      ensures !stillRunning ==> AtRest()
      ensures round == old(round) ==> !stillRunning && slots[..] == old(slots[..])
    {
      hide Books, Flat;
      if round < |curl.rounds| {
        stillRunning := curl.rounds[round].stillRunning;
        DrainMessages(round);
        round := round + 1;
      } else {
        stillRunning := false;
      }
    }

    /** Job `i` was never answered, for that reason. */
    ghost predicate FailedWith(i: nat, error: string)
      reads results
    {
      i < results.Length && results[i] == Unanswered(error)
    }

    /** Gives up on every active slot, failing its job, when curl has nothing running. */
    method ForceRelease(error: string)
      requires Valid() && AtRest() && error in {"stale slot", "aborted"}
      modifies this`completed, this`writes, this`log, this`handled, slots, jobDone, results
      ensures Valid() && BetweenRounds() && forall t :: 0 <= t < slots.Length ==> slots[t] == None
      ensures forall t :: 0 <= t < slots.Length && old(slots[t]).Some? ==> FailedWith(old(slots[t]).value, error)
    {
      HeldApart(curl, jobs, slots[..], jobDone[..], results[..], nextJob, completed, writes, log, handled);
      assert QuietAt(curl, handled);
      hide Valid, QuietAt, Apart;
      ReleaseAll(error, slots[..]);
    }

    method ReleaseAll(error: string, ghost held: seq<Option<nat>>)
      requires Valid() && QuietAt(curl, handled) && error in {"stale slot", "aborted"}
      requires held == slots[..] && Apart(held)
      modifies this`completed, this`writes, this`log, this`handled, slots, jobDone, results
      ensures Valid() && handled == old(handled) && slots[..] == Nones(slots.Length)
      ensures AllFailed(held, error)
    {
      hide Valid, QuietAt, Apart, AllFailed;
      NoneFailed(error);
      for s := 0 to slots.Length
        invariant Valid() && handled == old(handled)
        invariant slots[..s] == Nones(s) && slots[s..] == held[s..]
        invariant AllFailed(held[..s], error)
      {
        ReleaseSlot(s, error, held);
      }
      assert held[..slots.Length] == held;
    }

    lemma NoneFailed(error: string)
      ensures AllFailed([], error)
    {
    }

    /** Every job that the slots held was never answered, for that reason. */
    ghost predicate AllFailed(held: seq<Option<nat>>, error: string)
      reads results
    {
      forall t :: 0 <= t < |held| && held[t].Some? ==> FailedWith(held[t].value, error)
    }

    /** Gives up on one slot if it is active. */
    method ReleaseSlot(s: nat, error: string, ghost held: seq<Option<nat>>)
      requires Valid() && QuietAt(curl, handled) && error in {"stale slot", "aborted"}
      requires s < slots.Length == |held| && slots[..s] == Nones(s) && slots[s..] == held[s..]
      requires Apart(held) && AllFailed(held[..s], error)
      modifies this`completed, this`writes, this`log, this`handled, slots, jobDone, results
      ensures Valid() && handled == old(handled)
      ensures slots[..s + 1] == Nones(s + 1) && slots[s + 1..] == held[s + 1..]
      ensures AllFailed(held[..s + 1], error)
    {
      hide Books, Flat, FinishResult, EndsIn;
      assert slots[s] == slots[s..][0] == held[s];
      assert held[..s + 1] == held[..s] + [held[s]];
      if slots[s].Some? {
        var job := slots[s].value;
        HeldJob(curl, jobs, slots[..], jobDone[..], results[..], nextJob, completed, writes, log, handled, s);
        GivesUp(curl, jobs[job], log, s, job, handled, error);
        CloseSlot(s, job, Failure(results[job], error), GivenUp(handled));
      }
    }

    method StartAll()
      requires Valid()
      modifies this`nextJob, this`completed, this`setups, this`writes, this`log, slots, jobDone, results
      ensures Valid() && nextJob >= old(nextJob)
      ensures nextJob == |jobs| || AllActive()
      ensures nextJob == old(nextJob) ==> slots[..] == old(slots[..])
    {
      hide Books;
      var more := true;
      while more
        invariant Valid() && nextJob >= old(nextJob)
        invariant nextJob == old(nextJob) ==> slots[..] == old(slots[..])
        invariant !more ==> nextJob == |jobs| || AllActive()
        decreases |jobs| - nextJob, more
      {
        more := StartNext();
      }
    }

    /** Runs until every job has its result, whatever curl does. */
    method Run()
      requires Valid() && BetweenRounds()
      modifies this, slots, jobDone, results
      ensures Valid() && nextJob == |jobs|
      ensures forall i :: 0 <= i < |jobs| ==> jobDone[i]
      ensures forall i :: 0 <= i < |jobs| ==> Settled(curl, jobs, i, results[i], log)
      ensures NoOverlap(log) && forall i :: i in log.placed ==> log.placed[i].slot < slots.Length
    {
      StartAll();
      Perform();
      while completed < |jobs|
        invariant Valid() && BetweenRounds()
        decreases |curl.rounds| - round, |jobs| - nextJob, AllActive()
      {
        hide Books;
        var stuck := Turn();
        if stuck || completed >= |jobs| {
          break;
        }
      }
      AllCompleted(curl, jobs, slots[..], jobDone[..], results[..], nextJob, completed, writes, log, handled);
    }

    /** One turn of the loop. It gets through a round of curl, starts a job, or frees the
        slots that were all active. */
    method Turn() returns (stuck: bool)
      requires Valid() && BetweenRounds()
      modifies this, slots, jobDone, results
      ensures Valid() && BetweenRounds() && round >= old(round) && nextJob >= old(nextJob)
      ensures stuck ==> completed == |jobs|
      ensures !stuck && completed < |jobs| && round == old(round) && nextJob == old(nextJob) ==>
                old(AllActive()) && !AllActive()
    {
      hide Books;
      StartAll();
      Perform();
      if completed >= |jobs| || stillRunning {
        return false;
      }
      stuck := Recover();
    }

    /** Nothing is running: start another job, or give up on the slots curl forgot. */
    method Recover() returns (stuck: bool)
      requires Valid() && AtRest()
      modifies this`nextJob, this`completed, this`setups, this`writes, this`log, this`handled, slots, jobDone, results
      ensures Valid() && BetweenRounds() && nextJob >= old(nextJob)
      ensures stuck ==> completed == |jobs|
      ensures !stuck && nextJob == old(nextJob) ==> old(AllActive()) && !AllActive()
      ensures stuck || nextJob == old(nextJob) ==>
                forall t :: 0 <= t < slots.Length && old(slots[t]).Some? ==>
                  FailedWith(old(slots[t]).value, if stuck then "aborted" else "stale slot")
    {
      hide Books;
      if nextJob < |jobs| {
        var started := StartNext();
        if !started {
          ForceRelease("stale slot");
          assert slots[0] == None;
        }
        return false;
      }
      ForceRelease("aborted");
      NothingHeld(curl, jobs, slots[..], jobDone[..], results[..], nextJob, completed, writes, log, handled);
      return true;
    }
  }

  /** With every job started and no slot active, nothing is left to be marked. */
  lemma NothingHeld(curl: Curl, jobs: seq<Job>, slots: seq<Option<nat>>, done: seq<bool>, results: seq<Result>,
                    nextJob: nat, completed: nat, writes: seq<nat>, log: Log, handled: nat)
    requires Books(curl, jobs, slots, done, results, nextJob, completed, writes, log, handled)
    requires nextJob == |jobs| && forall t :: 0 <= t < |slots| ==> slots[t] == None
    ensures completed == |jobs|
  {
    hide Logged, CountDone, WrittenOnce;
    CountFull(done);
  }

  /** Once the count of jobs is reached, every job was started, is done and has its result. */
  lemma AllCompleted(curl: Curl, jobs: seq<Job>, slots: seq<Option<nat>>, done: seq<bool>, results: seq<Result>,
                     nextJob: nat, completed: nat, writes: seq<nat>, log: Log, handled: nat)
    requires Books(curl, jobs, slots, done, results, nextJob, completed, writes, log, handled)
    requires completed >= |jobs|
    ensures nextJob == |jobs| && forall i :: 0 <= i < |jobs| ==> done[i]
    ensures forall i :: 0 <= i < |jobs| ==> Settled(curl, jobs, i, results[i], log)
    ensures NoOverlap(log) && forall i :: i in log.placed ==> log.placed[i].slot < |slots|
  {
    hide CountDone, WrittenOnce, EndsIn, Flat, HeldBy, NoOverlap;
    assert nextJob < |jobs| ==> !done[nextJob];
    CountFull(done);
  }

  lemma {:induction false} NoneDone(done: seq<bool>)
    requires forall i :: 0 <= i < |done| ==> !done[i]
    ensures CountDone(done) == 0
  {
    if done != [] { NoneDone(done[1..]); }
  }

  /** Fetches every job. Whatever curl does, the call ends and every job has a result of
      its own: what the first completion message for its slot reports from the time it was
      put there, or a failure because it could not be started, or because curl was quiet
      before such a message came. A slot holds one job at a time, so no message answers two. */
  method FetchUrlsToFiles(jobs: seq<Job>, maxParallel: int, globalInit: bool, multiInit: bool, curl: Curl)
    returns (results: seq<Result>, ghost log: Log)
    ensures |results| == |jobs|
    ensures globalInit && multiInit ==>
              && NoOverlap(log)
              && (forall i :: i in log.placed ==>
                    log.placed[i].slot < |jobs| && (log.placed[i].slot == 0 || log.placed[i].slot < maxParallel))
              && forall i :: 0 <= i < |jobs| ==> Settled(curl, jobs, i, results[i], log)
    ensures !globalInit || !multiInit ==>
              forall i :: 0 <= i < |jobs| ==>
                results[i] == Unanswered(if globalInit then "curl_multi_init failed" else "curl_global_init failed")
  {
    log := Log(map[], map[]);
    if jobs == [] {
      return [], log;
    }
    if !globalInit || !multiInit {
      var error := if globalInit then "curl_multi_init failed" else "curl_global_init failed";
      return seq(|jobs|, _ => Failure(UNTOUCHED, error)), log;
    }
    var scheduler := new Scheduler(jobs, maxParallel, curl);
    hide Logged, Settled, NoOverlap;
    scheduler.Run();
    return scheduler.results[..], scheduler.log;
  }
}
