/** The text-message handler `download_video`: reject a text that is no URL;
    otherwise acknowledge, hand the URL to the download task, send the file
    it names, remove that file and report completion. Any exception between
    the hand-over and the completion reply (a task that raised, no file
    name, a failed send, a failed removal) ends in the failure reply.

    The chat transport and the file system are not part of this model: the
    handler's effects are abstract actions, and whether sending and removal
    succeed are inputs.
 */
module MessageHandler {
  import UrlCheck
  import DownloadTask
  import PathExt

  const StartingText: string := "Starting download. Please wait..."
  const CompletedText: string := "Download completed and file sent!"
  const FailedText: string := "Failed to download after 3 attempts. Please try again later."
  const NotUrlText: string := "This is not a valid URL. Please send a video URL."

  /** An effect of the handler: a text reply, handing the URL to the worker
      pool, sending a file as a document, or deleting a file. `Send` and
      `Remove` record the attempt: a send that fails (in `open` or in
      `reply_document`) is still logged as `Send`, and so is a removal that fails. */
  datatype Action = Reply(text: string) | Submit(url: string) | Send(filename: string) | Remove(filename: string)

  /** The download, the send and the removal all went through. */
  predicate Completes(download: DownloadTask.TaskResult, sendOk: bool, removeOk: bool) {
    download.Returned? && sendOk && removeOk
  }

  /** The actions of `download_video` on message `text`, given how the task
      ended and whether sending and removal succeed. */
  function DownloadVideo(text: string, download: DownloadTask.TaskResult, sendOk: bool, removeOk: bool)
    : (actions: seq<Action>)
    ensures !UrlCheck.IsUrl(text) <==> actions == [Reply(NotUrlText)]
    ensures Submit(text) in actions <==> UrlCheck.IsUrl(text)
    ensures forall i :: 0 <= i < |actions| && actions[i].Submit? ==> i == 1 && actions[i] == Submit(text)
    ensures UrlCheck.IsUrl(text) ==>
      3 <= |actions| && actions[0] == Reply(StartingText) && actions[1] == Submit(text)
      && actions[|actions| - 1] == Reply(if Completes(download, sendOk, removeOk) then CompletedText else FailedText)
    ensures forall i :: 0 <= i < |actions| && actions[i].Send? ==>
      download == DownloadTask.Returned(actions[i].filename)
    ensures forall i :: 0 <= i < |actions| && actions[i].Remove? ==>
      0 < i && actions[i - 1] == Send(actions[i].filename) && sendOk
    ensures UrlCheck.IsUrl(text) ==> forall i :: 2 <= i < |actions| - 1 ==> !actions[i].Reply?
    ensures UrlCheck.IsUrl(text) && download.Returned? ==> Send(download.filename) in actions
    ensures UrlCheck.IsUrl(text) && download.Returned? && sendOk ==> Remove(download.filename) in actions
    ensures UrlCheck.IsUrl(text) ==>
      |actions| == if !download.Returned? then 3 else if !sendOk then 4 else 5
    ensures Reply(CompletedText) in actions ==>
      Completes(download, sendOk, removeOk)
      && actions[2..] == [Send(download.filename), Remove(download.filename), Reply(CompletedText)]
  {
    if !UrlCheck.IsUrl(text) then
      [Reply(NotUrlText)]
    else
      [Reply(StartingText), Submit(text)]
      + match download
        case Returned(filename) =>
          if !sendOk then [Send(filename), Reply(FailedText)]
          else if !removeOk then [Send(filename), Remove(filename), Reply(FailedText)]
          else [Send(filename), Remove(filename), Reply(CompletedText)]
        // `open(None)` raises before anything is sent
        case ReturnedNone => [Reply(FailedText)]
        // the task's exception comes back through the executor future
        case Raised(_) => [Reply(FailedText)]
  }

  // ---------------------------------------------------------------------
  // The handler together with the task it submits
  // ---------------------------------------------------------------------

  /** The handler run on `text`, the task called with its default
      `max_retries` and reading its attempts from `engine`. */
  function HandleMessage(text: string, engine: seq<DownloadTask.EngineOutcome>, sendOk: bool, removeOk: bool)
    : (actions: seq<Action>)
    requires DownloadTask.Iterations(DownloadTask.DefaultMaxRetries) <= |engine|
    ensures UrlCheck.IsUrl(text) ==>
      3 <= |actions| && actions[|actions| - 1]
        == Reply(if (exists i :: 0 <= i < 3 && engine[i].Ok?) && sendOk && removeOk then CompletedText else FailedText)
  {
    var n := DownloadTask.Iterations(DownloadTask.DefaultMaxRetries);
    DownloadTask.AttemptsBounded(engine, n);
    DownloadVideo(text, DownloadTask.Outcome(engine, n), sendOk, removeOk)
  }

  /** How many times the handler's message makes the engine run. */
  function EngineCalls(text: string, engine: seq<DownloadTask.EngineOutcome>): (calls: nat)
    requires DownloadTask.Iterations(DownloadTask.DefaultMaxRetries) <= |engine|
    ensures calls <= DownloadTask.DefaultMaxRetries
    ensures calls == 0 <==> !UrlCheck.IsUrl(text)
  {
    DownloadTask.AttemptsBounded(engine, DownloadTask.Iterations(DownloadTask.DefaultMaxRetries));
    if UrlCheck.IsUrl(text)
    then DownloadTask.AttemptCount(engine, DownloadTask.Iterations(DownloadTask.DefaultMaxRetries))
    else 0
  }

  /** Text that is no URL gets the rejection reply, and the engine never runs. */
  lemma NotUrlNeverDownloads(text: string, engine: seq<DownloadTask.EngineOutcome>, sendOk: bool, removeOk: bool)
    requires 3 <= |engine|
    requires !UrlCheck.IsUrl(text)
    ensures HandleMessage(text, engine, sendOk, removeOk) == [Reply(NotUrlText)]
    ensures EngineCalls(text, engine) == 0
  {
  }

  /** A URL whose download fails on every one of the three attempts: three
      engine runs, two sleeps between them, and the failure reply. */
  lemma AllAttemptsFailScenario(engine: seq<DownloadTask.EngineOutcome>, sendOk: bool, removeOk: bool)
    requires 3 <= |engine|
    requires forall i :: 0 <= i < 3 ==> engine[i].Err?
    ensures var url := "https://example.com/video";
      HandleMessage(url, engine, sendOk, removeOk) == [Reply(StartingText), Submit(url), Reply(FailedText)]
      && EngineCalls(url, engine) == 3
      && DownloadTask.CountSleeps(DownloadTask.Trace(EngineCalls(url, engine))) == 2
  {
    var url := "https://example.com/video";
    UrlCheck.AcceptsExampleUrl();
    DownloadTask.FailsAfterAllAttempts(engine, 3);
    var outcome := DownloadTask.Outcome(engine, 3);
    assert outcome.Raised?;
    assert HandleMessage(url, engine, sendOk, removeOk) == DownloadVideo(url, outcome, sendOk, removeOk);
    assert EngineCalls(url, engine) == 3;
    DownloadTask.TraceCounts(3);
  }

  /** A URL downloaded on the first attempt, sent and removed: one engine
      run, and the file is sent, then removed, then completion is reported. */
  lemma FirstAttemptSucceedsScenario(engine: seq<DownloadTask.EngineOutcome>)
    requires 3 <= |engine|
    requires engine[0].Ok?
    ensures var url := "https://example.com/video";
      var f := PathExt.Mp3Name(engine[0].filename);
      HandleMessage(url, engine, true, true)
        == [Reply(StartingText), Submit(url), Send(f), Remove(f), Reply(CompletedText)]
      && EngineCalls(url, engine) == 1
  {
    UrlCheck.AcceptsExampleUrl();
    DownloadTask.SucceedsAfterFailures(engine, 3, 0);
  }

  /** When the send fails the file stays: nothing is removed, and the
      failure reply closes the conversation. */
  lemma FailedSendKeepsFile(text: string, download: DownloadTask.TaskResult, removeOk: bool)
    requires UrlCheck.IsUrl(text)
    ensures var actions := DownloadVideo(text, download, false, removeOk);
      (forall i :: 0 <= i < |actions| ==> !actions[i].Remove?)
      && actions[|actions| - 1] == Reply(FailedText)
  {
  }
}
