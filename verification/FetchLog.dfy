/** What a fetch of several jobs comes to: the results curl's answers lead to, and the log
    that ties each job to the message that answered it. */
module FetchLog {
  import opened Common
  import Decimal

  datatype Status = Ok | NotModified | Failed

  datatype Job = Job(url: string, filename: string, validators: Validators)

  datatype Result = Result(
    status: Status, httpCode: int, etag: string, lastModified: string, contentLength: int, error: string)

  /** What curl knows about a finished transfer; `written` says whether the body file
      could be written. */
  datatype Response = Response(
    curlError: string, httpCode: int, etag: string, lastModified: string, contentLength: int,
    bodyLength: nat, written: bool)

  /** A message of the multi handle: `slot` is its private pointer. */
  datatype Message = Message(done: bool, slot: Option<nat>, response: Response)

  datatype Round = Round(stillRunning: bool, messages: seq<Message>)

  /** Everything curl may do: which jobs fail to be set up or added, and what each call of
      `perform` reports. When the script runs out, nothing is running any more. */
  datatype Curl = Curl(initFails: set<nat>, addFails: set<nat>, rounds: seq<Round>)

  const UNTOUCHED: Result := Result(Failed, 0, "", "", -1, "")

  function Failure(was: Result, error: string): Result {
    was.(status := Failed, error := error)
  }

  function FinishResult(job: Job, r: Response): Result {
    var base := Result(Failed, 0, r.etag, r.lastModified, r.contentLength, "");
    if r.curlError != "" then base.(error := r.curlError)
    else
      var coded := base.(httpCode := r.httpCode);
      if r.httpCode == 304 then
        coded.(status := NotModified,
               etag := if r.etag == "" then job.validators.etag else r.etag,
               lastModified := if r.lastModified == "" then job.validators.lastModified else r.lastModified)
      else if r.httpCode < 200 || r.httpCode >= 300 then coded.(error := "HTTP " + Decimal.Print(r.httpCode))
      else if !r.written then coded.(error := "write failed")
      else coded.(status := Ok, contentLength := if r.contentLength < 0 then r.bodyLength else r.contentLength)
  }

  /** What a finished transfer is reported as: Ok exactly for a 2xx answer whose body was
      written, not modified exactly for 304. Each header is reported in its own field, after a
      304 without it the validator that the job sent; the length is the header's, or the
      body's if it is Ok without one; and a failure names what failed first. */
  predicate Reports(job: Job, r: Response, result: Result) {
    var answered := r.curlError == "";
    && (result.status == Ok <==> answered && 200 <= r.httpCode < 300 && r.written)
    && (result.status == NotModified <==> answered && r.httpCode == 304)
    && result.httpCode == (if answered then r.httpCode else 0)
    && result.etag == (if result.status == NotModified && r.etag == "" then job.validators.etag else r.etag)
    && result.lastModified ==
       (if result.status == NotModified && r.lastModified == "" then job.validators.lastModified else r.lastModified)
    && result.contentLength == (if result.status == Ok && r.contentLength < 0 then r.bodyLength else r.contentLength)
    && (result.status == Failed <==> result.error != "")
    && result.error in {"", r.curlError, "HTTP " + Decimal.Print(r.httpCode), "write failed"}
    && (!answered ==> result.error == r.curlError)
    && (result.status == Failed && answered ==> (result.error == "write failed" <==> 200 <= r.httpCode < 300))
  }

  lemma FinishedAs(job: Job, r: Response)
    ensures Reports(job, r, FinishResult(job, r))
  {
    assert ("HTTP " + Decimal.Print(r.httpCode))[0] == 'H';
  }

  /** That leaves one result only. */
  lemma ReportsOne(job: Job, r: Response, a: Result, b: Result)
    requires Reports(job, r, a) && Reports(job, r, b)
    ensures a == b
  {
    assert ("HTTP " + Decimal.Print(r.httpCode))[0] == 'H';
  }

  /** The result of a job that was never answered. */
  function Unanswered(error: string): Result { Result(Failed, 0, "", "", -1, error) }

  // ---- which message answers which job ----

  /** Every message of the script in the order it is handled. */
  function Flat(rounds: seq<Round>): seq<Message> {
    if rounds == [] then [] else Flat(rounds[..|rounds| - 1]) + rounds[|rounds| - 1].messages
  }

  lemma {:induction false} FlatAt(rounds: seq<Round>, r: nat)
    requires r < |rounds|
    ensures var before, upto := Flat(rounds[..r]), Flat(rounds[..r + 1]);
            && upto == before + rounds[r].messages && upto <= Flat(rounds)
    decreases |rounds|
  {
    assert rounds[..r + 1][..r] == rounds[..r];
    if r == |rounds| - 1 {
      assert rounds[..r + 1] == rounds;
    } else {
      var rest := rounds[..|rounds| - 1];
      FlatAt(rest, r);
      assert rest[..r + 1] == rounds[..r + 1] && rest[..r] == rounds[..r];
    }
  }

  /** The slot a job was put in, and the messages that had been handled by then. */
  datatype Placement = Placement(slot: nat, start: nat)

  /** How a job that was started ended: at a message, or given up before one. */
  datatype End = Answered(at: nat) | GivenUp(at: nat)
  {
    function After(): nat { if Answered? then at + 1 else at }
  }

  datatype Log = Log(placed: map<nat, Placement>, ended: map<nat, End>)

  predicate NamesSlot(messages: seq<Message>, k: nat, s: nat)
    requires k < |messages|
  {
    messages[k].done && messages[k].slot == Some(s)
  }

  /** No message from where the job started up to `c` names its slot. */
  predicate Silent(messages: seq<Message>, p: Placement, c: nat) {
    p.start <= c <= |messages| && forall k :: p.start <= k < c ==> !NamesSlot(messages, k, p.slot)
  }

  /** At `c` a round is over, and curl reported nothing running or has no more to say. */
  ghost predicate QuietAt(curl: Curl, c: nat) {
    exists r :: 0 <= r <= |curl.rounds| && Quiet(curl, r) && c == |Flat(curl.rounds[..r])|
  }

  predicate Quiet(curl: Curl, r: nat)
    requires r <= |curl.rounds|
  {
    r == |curl.rounds| || (r > 0 && !curl.rounds[r - 1].stillRunning)
  }

  /** The result of a job that was started: the response of the first completion message
      for its slot, or a failure if curl was quiet before one came. */
  ghost predicate EndsIn(curl: Curl, job: Job, p: Placement, e: End, result: Result) {
    var messages := Flat(curl.rounds);
    match e
    case Answered(c) =>
      && c < |messages| && Silent(messages, p, c) && NamesSlot(messages, c, p.slot)
      && Reports(job, messages[c].response, result)
    case GivenUp(c) =>
      && Silent(messages, p, c) && QuietAt(curl, c)
      && (result == Unanswered("stale slot") || result == Unanswered("aborted"))
  }

  predicate Startable(curl: Curl, i: nat) { i !in curl.initFails && i !in curl.addFails }

  /** The failure of a job that could not be started. */
  predicate NotStarted(curl: Curl, i: nat, result: Result) {
    if i in curl.initFails then result == Unanswered("curl_easy_init failed")
    else i in curl.addFails && result == Unanswered("curl_multi_add_handle failed")
  }

  /** Job `i` has its result: its own answer, or the reason there is none. */
  ghost predicate Settled(curl: Curl, jobs: seq<Job>, i: nat, result: Result, log: Log)
    requires i < |jobs|
  {
    if Startable(curl, i) then
      i in log.placed && i in log.ended && EndsIn(curl, jobs[i], log.placed[i], log.ended[i], result)
    else NotStarted(curl, i, result)
  }

  /** A slot is given to a job only after the job before it in that slot has ended. */
  predicate NoOverlap(log: Log) {
    forall i, j :: i in log.placed && j in log.placed && i < j && log.placed[i].slot == log.placed[j].slot ==>
      i in log.ended && log.ended[i].After() <= log.placed[j].start
  }

  /** No message answers two jobs. */
  lemma AnsweredOnce(curl: Curl, jobs: seq<Job>, results: seq<Result>, log: Log, i: nat, j: nat)
    requires |results| == |jobs| && i < j < |jobs| && NoOverlap(log)
    requires Startable(curl, i) && Settled(curl, jobs, i, results[i], log)
    requires Startable(curl, j) && Settled(curl, jobs, j, results[j], log)
    requires log.ended[i].Answered? && log.ended[j].Answered?
    ensures log.ended[i].at != log.ended[j].at
  {
  }

  /** Job `i` is held by slot `s`, and nothing handled so far named that slot. */
  predicate HeldBy(messages: seq<Message>, log: Log, s: nat, i: nat, handled: nat) {
    i in log.placed && i !in log.ended && log.placed[i].slot == s && Silent(messages, log.placed[i], handled)
  }

  /** The log of a job that was placed: it is in its slot, or it ended. */
  ghost predicate Traced(curl: Curl, job: Job, slots: seq<Option<nat>>, result: Result, log: Log, i: nat, handled: nat)
    requires i in log.placed
  {
    && log.placed[i].slot < |slots| && log.placed[i].start <= handled
    && if i in log.ended then
         log.ended[i].After() <= handled && EndsIn(curl, job, log.placed[i], log.ended[i], result)
       else slots[log.placed[i].slot] == Some(i)
  }

  /** The log accounts for every job below `nextJob`, once `handled` messages were handled. */
  ghost predicate Logged(curl: Curl, jobs: seq<Job>, slots: seq<Option<nat>>, results: seq<Result>, nextJob: nat,
                         log: Log, handled: nat)
  {
    && nextJob <= |jobs| == |results|
    && handled <= |Flat(curl.rounds)| && NoOverlap(log) && log.ended.Keys <= log.placed.Keys
    && (forall s :: 0 <= s < |slots| && slots[s].Some? ==> HeldBy(Flat(curl.rounds), log, s, slots[s].value, handled))
    && (forall i :: 0 <= i < nextJob ==>
          if Startable(curl, i) then i in log.placed else NotStarted(curl, i, results[i]))
    && (forall i :: i in log.placed ==>
          i < nextJob && Startable(curl, i) && Traced(curl, jobs[i], slots, results[i], log, i, handled))
  }

  lemma LogSkip(curl: Curl, jobs: seq<Job>, slots: seq<Option<nat>>, results: seq<Result>, nextJob: nat, log: Log,
                handled: nat, result: Result)
    requires Logged(curl, jobs, slots, results, nextJob, log, handled) && nextJob < |jobs|
    requires !Startable(curl, nextJob) && NotStarted(curl, nextJob, result)
    ensures Logged(curl, jobs, slots, results[nextJob := result], nextJob + 1, log, handled)
  {
    hide NoOverlap, HeldBy, Traced, Flat, Startable, NotStarted;
  }

  lemma LogStart(curl: Curl, jobs: seq<Job>, slots: seq<Option<nat>>, results: seq<Result>, nextJob: nat, log: Log,
                 handled: nat, s: nat)
    requires Logged(curl, jobs, slots, results, nextJob, log, handled) && nextJob < |jobs| && Startable(curl, nextJob)
    requires s < |slots| && slots[s] == None
    ensures Logged(curl, jobs, slots[s := Some(nextJob)], results, nextJob + 1,
                   log.(placed := log.placed[nextJob := Placement(s, handled)]), handled)
  {
    hide Flat, Startable, NotStarted, EndsIn;
  }

  /** The job in slot `s` ends: at the next message, which names the slot, or given up. */
  lemma LogEnd(curl: Curl, jobs: seq<Job>, slots: seq<Option<nat>>, results: seq<Result>, nextJob: nat, log: Log,
               handled: nat, s: nat, job: nat, e: End, result: Result)
    requires Logged(curl, jobs, slots, results, nextJob, log, handled)
    requires s < |slots| && slots[s] == Some(job) && e.at == handled && job < |jobs| && job in log.placed
    requires EndsIn(curl, jobs[job], log.placed[job], e, result)
    ensures Logged(curl, jobs, slots[s := None], results[job := result], nextJob,
                   log.(ended := log.ended[job := e]), e.After())
  {
    hide Flat, Startable, NotStarted, EndsIn, NoOverlap, HeldBy, Traced;
    EndNames(curl, jobs[job], log.placed[job], e, result);
    HeldElsewhere(curl, slots, log, handled, s, job, e);
    var after := log.(ended := log.ended[job := e]);
    forall i | i in log.placed
      ensures Traced(curl, jobs[i], slots[s := None], results[job := result][i], after, i, e.After())
    {
      if i == job {
        EndIsTraced(curl, jobs[job], slots, results[job], result, log, handled, s, job, e);
      } else {
        TraceStays(curl, jobs[i], slots, results[i], log, i, handled, s, job, e);
      }
    }
  }

  /** The other slots go on holding their jobs, which no message has named. */
  lemma HeldElsewhere(curl: Curl, slots: seq<Option<nat>>, log: Log, handled: nat, s: nat, job: nat, e: End)
    requires forall t :: 0 <= t < |slots| && slots[t].Some? ==>
               HeldBy(Flat(curl.rounds), log, t, slots[t].value, handled)
    requires s < |slots| && slots[s] == Some(job) && e.at == handled && NoOverlap(log)
    requires e.After() <= |Flat(curl.rounds)|
    requires e.Answered? && job in log.placed ==> NamesSlot(Flat(curl.rounds), handled, log.placed[job].slot)
    ensures job in log.placed && job !in log.ended && log.placed[job].slot == s
    ensures var after := log.(ended := log.ended[job := e]);
            && NoOverlap(after)
            && forall t :: 0 <= t < |slots| && t != s && slots[t].Some? ==>
                 HeldBy(Flat(curl.rounds), after, t, slots[t].value, e.After())
  {
    hide Flat;
    assert HeldBy(Flat(curl.rounds), log, s, job, handled);
    EndKeepsOrder(log, job, e);
    hide NoOverlap;
  }

  lemma TraceStays(curl: Curl, job: Job, slots: seq<Option<nat>>, result: Result, log: Log, i: nat, handled: nat,
                   s: nat, other: nat, e: End)
    requires i in log.placed && Traced(curl, job, slots, result, log, i, handled)
    requires i != other && s < |slots| && slots[s] == Some(other) && e.at == handled
    ensures Traced(curl, job, slots[s := None], result, log.(ended := log.ended[other := e]), i, e.After())
  {
    hide EndsIn;
  }

  lemma EndIsTraced(curl: Curl, job: Job, slots: seq<Option<nat>>, was: Result, result: Result, log: Log, handled: nat,
                    s: nat, i: nat, e: End)
    requires i in log.placed && Traced(curl, job, slots, was, log, i, handled) && s < |slots| && e.at == handled
    requires EndsIn(curl, job, log.placed[i], e, result)
    ensures Traced(curl, job, slots[s := None], result, log.(ended := log.ended[i := e]), i, e.After())
  {
    hide EndsIn;
  }

  /** The end of a job that had not ended keeps the order of the jobs in its slot. */
  lemma EndKeepsOrder(log: Log, job: nat, e: End)
    requires NoOverlap(log) && (job in log.placed ==> job !in log.ended)
    ensures NoOverlap(log.(ended := log.ended[job := e]))
  {
  }

  lemma EndNames(curl: Curl, job: Job, p: Placement, e: End, result: Result)
    requires EndsIn(curl, job, p, e, result)
    ensures e.After() <= |Flat(curl.rounds)|
    ensures e.Answered? ==> NamesSlot(Flat(curl.rounds), e.at, p.slot)
  {
  }

  /** A message that names no active slot. */
  lemma LogPass(curl: Curl, jobs: seq<Job>, slots: seq<Option<nat>>, results: seq<Result>, nextJob: nat, log: Log,
                handled: nat)
    requires Logged(curl, jobs, slots, results, nextJob, log, handled) && handled < |Flat(curl.rounds)|
    requires forall s :: 0 <= s < |slots| && slots[s].Some? ==> !NamesSlot(Flat(curl.rounds), handled, s)
    ensures Logged(curl, jobs, slots, results, nextJob, log, handled + 1)
  {
    hide Flat, Startable, NotStarted, EndsIn;
  }
}
