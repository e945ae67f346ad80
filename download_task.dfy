/** `download_video_task(url, max_retries=3)`: run the download engine up to
    `max_retries` times, return the rewritten file name of the first attempt
    that succeeds, sleep 5 seconds after every failed attempt but the last,
    and re-raise the error of the last attempt when all of them fail.

    The engine (yt_dlp: `extract_info` followed by `prepare_filename`) is not
    part of this model; it is an oracle `engine` whose `i`-th element is what
    attempt `i + 1` produces. The sleep is a counted event, not wall-clock time.
 */
module DownloadTask {
  import PathExt

  /** The default of `max_retries`. */
  const DefaultMaxRetries: int := 3

  /** The pause between attempts, in seconds. */
  const RetryDelaySeconds: nat := 5

  /** What one attempt of the engine does: report the prepared file name, or raise. */
  datatype EngineOutcome = Ok(filename: string) | Err(message: string)

  /** How the task ends: it returns a name, falls off the end of the loop
      (returning None), or raises the error of its last attempt. */
  datatype TaskResult = Returned(filename: string) | ReturnedNone | Raised(message: string)

  /** The observable steps of the loop: attempt number `number` starts
      (the "Starting download attempt" log line), or the task sleeps. */
  datatype Event = Attempt(number: nat) | Sleep(seconds: nat)

  /** The number of iterations of `range(max_retries)`. */
  function Iterations(maxRetries: int): nat {
    if maxRetries < 0 then 0 else maxRetries
  }

  /** The index of the first successful outcome among the first `n`, or `n`. */
  function FirstOk(engine: seq<EngineOutcome>, n: nat): (k: nat)
    requires n <= |engine|
    ensures k <= n
    ensures forall i :: 0 <= i < k ==> engine[i].Err?
    ensures k < n ==> engine[k].Ok?
  {
    if n == 0 then 0
    else
      var k := FirstOk(engine, n - 1);
      if k < n - 1 then k
      else if engine[n - 1].Ok? then n - 1
      else n
  }

  /** How many attempts run when the loop has `n` iterations. */
  function AttemptCount(engine: seq<EngineOutcome>, n: nat): nat
    requires n <= |engine|
  {
    var k := FirstOk(engine, n);
    if k < n then k + 1 else n
  }

  /** How the task ends when the loop has `n` iterations. */
  function Outcome(engine: seq<EngineOutcome>, n: nat): TaskResult
    requires n <= |engine|
  {
    var k := FirstOk(engine, n);
    if k < n then Returned(PathExt.Mp3Name(engine[k].filename))
    else if n == 0 then ReturnedNone
    else Raised(engine[n - 1].message)
  }

  /** The events of `j` failed attempts, each followed by its sleep. */
  function Retried(j: nat): seq<Event> {
    if j == 0 then [] else Retried(j - 1) + [Attempt(j), Sleep(RetryDelaySeconds)]
  }

  /** The events of a run of `m` attempts: a sleep between any two of them. */
  function Trace(m: nat): seq<Event> {
    if m == 0 then [] else Retried(m - 1) + [Attempt(m)]
  }

  /** The loop of `download_video_task`, with counters for attempts and
      sleeps and the log of its events. */
  method DownloadVideoTask(engine: seq<EngineOutcome>, maxRetries: int)
    returns (result: TaskResult, attempts: nat, sleeps: nat, log: seq<Event>)
    requires Iterations(maxRetries) <= |engine|
    ensures result == Outcome(engine, Iterations(maxRetries))
    ensures attempts == AttemptCount(engine, Iterations(maxRetries))
    ensures attempts <= Iterations(maxRetries)
    ensures sleeps == if attempts == 0 then 0 else attempts - 1
    ensures log == Trace(attempts)
  {
    var n := Iterations(maxRetries);
    attempts, sleeps, log := 0, 0, [];
    for attempt := 0 to n
      invariant attempt == 0 || attempt < n
      invariant forall i :: 0 <= i < attempt ==> engine[i].Err?
      invariant attempts == attempt && sleeps == attempt
      invariant log == Retried(attempt)
    {
      attempts := attempts + 1;
      log := log + [Attempt(attempt + 1)];
      match engine[attempt]
      case Ok(filename) =>
        result := Returned(PathExt.Mp3Name(filename));
        return;
      case Err(message) =>
        if attempt == n - 1 {
          result := Raised(message);
          return;
        }
        sleeps := sleeps + 1;
        log := log + [Sleep(RetryDelaySeconds)];
    }
    result := ReturnedNone;
  }

  // ---------------------------------------------------------------------
  // Properties of a run
  // ---------------------------------------------------------------------

  /** The first `k` attempts fail and attempt `k + 1` succeeds: exactly
      `k + 1` attempts run (so `k` sleeps), and the renamed file name of
      attempt `k + 1` is returned. */
  lemma SucceedsAfterFailures(engine: seq<EngineOutcome>, maxRetries: int, k: nat)
    requires Iterations(maxRetries) <= |engine|
    requires k < Iterations(maxRetries)
    requires forall i :: 0 <= i < k ==> engine[i].Err?
    requires engine[k].Ok?
    ensures AttemptCount(engine, Iterations(maxRetries)) == k + 1
    ensures Outcome(engine, Iterations(maxRetries)) == Returned(PathExt.Mp3Name(engine[k].filename))
  {
  }

  /** All `max_retries >= 1` attempts fail: all of them run (so one sleep
      fewer), and the error of the last one is raised. */
  lemma FailsAfterAllAttempts(engine: seq<EngineOutcome>, maxRetries: int)
    requires 1 <= maxRetries <= |engine|
    requires forall i :: 0 <= i < maxRetries ==> engine[i].Err?
    ensures AttemptCount(engine, Iterations(maxRetries)) == maxRetries
    ensures Outcome(engine, Iterations(maxRetries)) == Raised(engine[maxRetries - 1].message)
  {
  }

  /** With `max_retries <= 0` the loop body never runs and None is returned. */
  lemma NoIterations(engine: seq<EngineOutcome>, maxRetries: int)
    requires maxRetries <= 0
    ensures AttemptCount(engine, Iterations(maxRetries)) == 0
    ensures Outcome(engine, Iterations(maxRetries)) == ReturnedNone
  {
  }

  /** Never more attempts than `max_retries`; at least one when it is positive;
      and the task returns a name exactly when some attempt in range succeeds. */
  lemma AttemptsBounded(engine: seq<EngineOutcome>, n: nat)
    requires n <= |engine|
    ensures 0 < n ==> 1 <= AttemptCount(engine, n)
    ensures AttemptCount(engine, n) <= n
    ensures Outcome(engine, n).Returned? <==> exists i :: 0 <= i < n && engine[i].Ok?
  {
  }

  /** A returned name always ends in ".mp3". */
  lemma ReturnedNameIsMp3(engine: seq<EngineOutcome>, n: nat)
    requires n <= |engine|
    requires Outcome(engine, n).Returned?
    ensures var f := Outcome(engine, n).filename; 4 <= |f| && f[|f| - 4..] == ".mp3"
  {
  }

  // ---------------------------------------------------------------------
  // Properties of the event log
  // ---------------------------------------------------------------------

  lemma {:induction false} RetriedAt(j: nat, i: nat)
    requires i < 2 * j
    ensures |Retried(j)| == 2 * j
    ensures Retried(j)[i] == if i % 2 == 0 then Attempt(i / 2 + 1) else Sleep(RetryDelaySeconds)
  {
    if i < 2 * (j - 1) {
      RetriedAt(j - 1, i);
    } else if j > 1 {
      RetriedAt(j - 1, 0);
    }
  }

  /** The log of `m` attempts alternates: attempt 1, sleep, attempt 2, ...,
      sleep, attempt `m`. */
  lemma TraceAt(m: nat, i: nat)
    requires i < |Trace(m)|
    ensures |Trace(m)| == 2 * m - 1
    ensures Trace(m)[i] == if i % 2 == 0 then Attempt(i / 2 + 1) else Sleep(RetryDelaySeconds)
  {
    if i < 2 * (m - 1) {
      RetriedAt(m - 1, i);
    } else if m > 1 {
      RetriedAt(m - 1, 0);
    }
  }

  /** The number of attempt events and of sleep events in a log. */
  function CountAttempts(log: seq<Event>): nat {
    if log == [] then 0 else CountAttempts(log[..|log| - 1]) + (if log[|log| - 1].Attempt? then 1 else 0)
  }

  function CountSleeps(log: seq<Event>): nat {
    if log == [] then 0 else CountSleeps(log[..|log| - 1]) + (if log[|log| - 1].Sleep? then 1 else 0)
  }

  lemma {:induction false} CountsAppend(log: seq<Event>, e: Event)
    ensures CountAttempts(log + [e]) == CountAttempts(log) + (if e.Attempt? then 1 else 0)
    ensures CountSleeps(log + [e]) == CountSleeps(log) + (if e.Sleep? then 1 else 0)
  {
    assert (log + [e])[..|log|] == log;
  }

  lemma {:induction false} RetriedCounts(j: nat)
    ensures CountAttempts(Retried(j)) == j && CountSleeps(Retried(j)) == j
  {
    if j > 0 {
      RetriedCounts(j - 1);
      CountsAppend(Retried(j - 1), Attempt(j));
      CountsAppend(Retried(j - 1) + [Attempt(j)], Sleep(RetryDelaySeconds));
      assert Retried(j) == Retried(j - 1) + [Attempt(j)] + [Sleep(RetryDelaySeconds)];
    }
  }

  /** A log of `m` attempts holds `m` attempt events and `m - 1` sleeps. */
  lemma TraceCounts(m: nat)
    ensures CountAttempts(Trace(m)) == m
    ensures CountSleeps(Trace(m)) == if m == 0 then 0 else m - 1
  {
    if m > 0 {
      RetriedCounts(m - 1);
      CountsAppend(Retried(m - 1), Attempt(m));
    }
  }

  /** A sleep only ever follows a failed attempt that is not the last one,
      and another attempt comes right after it. */
  lemma SleepFollowsFailedAttempt(engine: seq<EngineOutcome>, n: nat, i: nat)
    requires n <= |engine|
    requires i < |Trace(AttemptCount(engine, n))|
    requires Trace(AttemptCount(engine, n))[i].Sleep?
    ensures var log := Trace(AttemptCount(engine, n));
      0 < i < |log| - 1
      && log[i - 1].Attempt? && log[i + 1].Attempt?
      && var number := log[i - 1].number;
         1 <= number < n && engine[number - 1].Err?
  {
    var m := AttemptCount(engine, n);
    TraceAt(m, i);
    TraceAt(m, i - 1);
    TraceAt(m, i + 1);
  }
}
