# Telegram media-download bot: the sequential core in Dafny

The bot takes a text message. If the text looks like a URL, it downloads the
media as an MP3 with a bounded number of retries, sends the file back, and
deletes it. This project models the deterministic logic around the external
download engine and chat transport. All of it is in
`telegram-bot-downloader-log.py`:

- `url_check.dfy`, module `UrlCheck`: the URL test `is_url`. The regular
  expression is modelled twice: as the language of prefixes it matches (the
  ghost predicate `PatternMatchesPrefix`), and as the greedy run of the
  matching engine (`GreedyBodyLength`, `IsUrl`). The two are proved equal.
  They are then reduced to a plain statement: the text starts with `http://`
  or `https://`, and the next character is a lower-case letter, a
  character from `$` (0x24) to `_` (0x5F), or `!`. In the raw-string pattern,
  `[$-_@.&+]` is a range and `[!*\\(\\),]` includes a backslash. The `%hh`
  alternative never adds anything, because `%` is already inside the range.
  The match is anchored only at the start, so anything after the first
  body character is ignored.
- `path_ext.dfy`, module `PathExt`: the rename
  `os.path.splitext(filename)[0] + '.mp3'`. It includes POSIX `splitext`
  and `str.rfind`. A correct split is defined on its own (`ValidSplit`).
  `splitext` is proved to return one, and the only one.
- `download_task.dfy`, module `DownloadTask`: the retry loop of
  `download_video_task`. It is a method with a `for` loop, an attempt
  counter, a sleep counter and an event log. Each attempt reads its outcome
  from an oracle sequence `engine`, which stands in for the download engine.
  The method is proved against closed-form specification functions
  (`FirstOk`, `AttemptCount`, `Outcome`, `Trace`). Lemmas then prove the
  promised behaviour from those functions.
- `message_handler.dfy`, module `MessageHandler`: the handler
  `download_video`. It is a pure function that returns the ordered list of
  actions (replies, submit, send, remove). Its inputs are the text, the
  task's outcome, and whether sending and removal succeed. It is also
  composed with the task (`HandleMessage`, `EngineCalls`) for end-to-end
  scenarios.

Behaviour kept exactly as the code has it:

- The URL test is a prefix match. `"http://x y"` is accepted.
- When sending the file raises, the file is **not** removed. `os.remove`
  follows `reply_document` inside the same `try`. After that, only the
  failure reply is sent.
- The failure reply always says "3 attempts". That text is fixed and does
  not depend on `max_retries`.
- With `max_retries <= 0`, `range` is empty and the task returns `None`.
  The handler's `open(None)` then raises, and the user gets the failure
  reply.

## Model

| member | source | states |
|---|---|---|
| `UrlCheck.GreedyBodyLength` | telegram-bot-downloader-log.py:54-57 | the engine's greedy run over the body is a valid match of the repeated group, every character in it is in the body set, and it stops at the first character outside the set |
| `UrlCheck.IsUrl` | telegram-bot-downloader-log.py:52-57 | `is_url` itself; its own ensures says an accepted text starts with `http://` or `https://`; its full meaning is proved in `IsUrlMatchesPattern` and `IsUrlIffSchemeAndBodyChar` |
| `UrlCheck.GroupPlusStartsWithBodyChar` | telegram-bot-downloader-log.py:55 | anything the repeated group matches starts with a lower-case letter, a character in `$`..`_`, or `!` (this covers the `%hh` alternative) |
| `UrlCheck.IsUrlMatchesPattern` | telegram-bot-downloader-log.py:54-57 | `is_url` is true iff some prefix of the text is in the pattern's language (`re.match` semantics) |
| `UrlCheck.IsUrlIffSchemeAndBodyChar` | telegram-bot-downloader-log.py:55-57 | `is_url` iff the text starts with `http://` or `https://` and the next character is in the body set (both directions) |
| `UrlCheck.IsUrlIgnoresRest` | telegram-bot-downloader-log.py:57 | after the scheme and the first body character, the rest of the text does not change the verdict |
| `UrlCheck.IsUrlExtends` | telegram-bot-downloader-log.py:57 | appending text to a URL keeps it a URL (prefix match) |
| `UrlCheck.SchemesExclusive` | telegram-bot-downloader-log.py:55 | no text starts with both `http://` and `https://` |
| `UrlCheck.AcceptsBodyChar` | telegram-bot-downloader-log.py:55-57 | a scheme followed by a body-set character is a URL, whatever follows |
| `UrlCheck.RejectsOutsideBodySet` | telegram-bot-downloader-log.py:55-57 | a scheme followed by a character outside the set (space, `#`, `"`, backquote, braces, vertical bar, `~`, ...) is never a URL |
| `UrlCheck.RejectedExamples` | telegram-bot-downloader-log.py:52-57 | `hello world`, `ftp://...`, `HTTP://...`, bare `http://` and `https://`, and `http:// ...` are rejected |
| `UrlCheck.AcceptsExampleUrl` | telegram-bot-downloader-log.py:52-57 | `https://example.com/video` is accepted |
| `UrlCheck.AcceptsTrailingText` | telegram-bot-downloader-log.py:52-57 | `http://x y` is accepted although its trailing text is no URL (prefix match) |
| `PathExt.RFind` | telegram-bot-downloader-log.py:78 | the result is the index of the last occurrence of the character, or -1 when there is none |
| `PathExt.SplitExt` | telegram-bot-downloader-log.py:78 | `os.path.splitext`; its own ensures says root + extension is the name and a non-empty extension starts with a dot; `SplitExtValid` and `SplitExtUnique` prove it is the one correct split |
| `PathExt.Mp3Name` | telegram-bot-downloader-log.py:78 | the new name ends in `.mp3`, and what comes before `.mp3` is a prefix of the engine's name |
| `PathExt.SplitExtValid` | telegram-bot-downloader-log.py:78 | `splitext` returns a correct split: root + ext is the name; ext is empty, or starts with the last dot of the final component and that component has a non-dot character before it |
| `PathExt.SplitExtUnique` | telegram-bot-downloader-log.py:78 | every correct split is the one `splitext` returns |
| `PathExt.Mp3NameOfSplit` | telegram-bot-downloader-log.py:78 | the new name is the root of any correct split followed by `.mp3` |
| `PathExt.Mp3NameAppends` | telegram-bot-downloader-log.py:78 | a name without an extension (leading dots do not start one) just gets `.mp3` appended |
| `PathExt.Mp3NameReplaces` | telegram-bot-downloader-log.py:78 | a name with an extension has exactly that extension replaced by `.mp3` |
| `PathExt.Mp3NameKeepsDirectory` | telegram-bot-downloader-log.py:78 | the last `/` stays at the same index, and the directory part up to it is unchanged |
| `PathExt.Mp3NameIdempotent` | telegram-bot-downloader-log.py:78 | renaming twice equals renaming once iff the root's final component has a non-dot character |
| `PathExt.Mp3NameOfTitle` | telegram-bot-downloader-log.py:78 | `downloads/Song.webm` becomes `downloads/Song.mp3` |
| `PathExt.Mp3NameOfDotFile` | telegram-bot-downloader-log.py:78 | `downloads/.bashrc` becomes `downloads/.bashrc.mp3`: a leading dot starts no extension |
| `PathExt.Mp3NameInDottedDirectory` | telegram-bot-downloader-log.py:78 | `v1.2/clip` becomes `v1.2/clip.mp3`: a dot in the directory is no extension |
| `DownloadTask.FirstOk` | telegram-bot-downloader-log.py:61-80 | the index of the first successful attempt within range, or the range size when none succeeds; every earlier attempt failed |
| `DownloadTask.DownloadVideoTask` | telegram-bot-downloader-log.py:59-86 | the loop returns the specified outcome; its attempt count equals `AttemptCount` and never exceeds `max_retries`; it sleeps once fewer than it attempts; its log alternates attempts and sleeps |
| `DownloadTask.SucceedsAfterFailures` | telegram-bot-downloader-log.py:61-80 | if the first `k` attempts fail and attempt `k+1` succeeds (`k < max_retries`), then exactly `k+1` attempts run and the renamed name from attempt `k+1` is returned |
| `DownloadTask.FailsAfterAllAttempts` | telegram-bot-downloader-log.py:61-84 | if all `max_retries >= 1` attempts fail, all of them run and the last attempt's error is raised |
| `DownloadTask.NoIterations` | telegram-bot-downloader-log.py:59-61 | with `max_retries <= 0`, no attempt runs and the task returns `None` |
| `DownloadTask.AttemptsBounded` | telegram-bot-downloader-log.py:61-86 | the attempt count is at most `max_retries` and at least 1 when `max_retries` is positive; a name is returned iff some attempt in range succeeds |
| `DownloadTask.ReturnedNameIsMp3` | telegram-bot-downloader-log.py:77-80 | every returned file name ends in `.mp3` |
| `DownloadTask.TraceAt` | telegram-bot-downloader-log.py:63-86 | the log of `m` attempts has `2m-1` events: attempt 1, sleep 5 s, attempt 2, ..., attempt `m` |
| `DownloadTask.TraceCounts` | telegram-bot-downloader-log.py:61-86 | the log of `m` attempts holds `m` attempt events and `m-1` sleeps |
| `DownloadTask.SleepFollowsFailedAttempt` | telegram-bot-downloader-log.py:81-86 | every sleep comes right after a failed attempt that was not the last, and another attempt follows it |
| `MessageHandler.DownloadVideo` | telegram-bot-downloader-log.py:88-115 | see below the table |
| `MessageHandler.HandleMessage` | telegram-bot-downloader-log.py:93-112 | the handler with the task it submits (default `max_retries=3`); for a URL the last action is "completed" iff one of the three attempts succeeds and the send and removal succeed, and the failure reply otherwise |
| `MessageHandler.EngineCalls` | telegram-bot-downloader-log.py:93-98 | the number of engine runs a message causes: at most 3, and zero iff the text is not a URL |
| `MessageHandler.NotUrlNeverDownloads` | telegram-bot-downloader-log.py:93-115 | text that is not a URL gets only the "not a valid URL" reply, and the engine never runs |
| `MessageHandler.AllAttemptsFailScenario` | telegram-bot-downloader-log.py:94-112 | a URL whose three attempts all fail gives three engine runs, two sleeps, and the replies "Starting", then "Failed" |
| `MessageHandler.FirstAttemptSucceedsScenario` | telegram-bot-downloader-log.py:94-109 | a URL downloaded on attempt 1 gives one engine run, then send, remove and "completed", in that order |
| `MessageHandler.FailedSendKeepsFile` | telegram-bot-downloader-log.py:102-112 | when sending fails, nothing is removed, and the last action is the failure reply |

`MessageHandler.DownloadVideo` states the following:

- Text that is not a URL gets exactly the "not a valid URL" reply.
- A submit happens iff the text is a URL, and then only as the second action.
- A URL gets "Starting" first.
- The last action is "completed" iff download, send and remove all succeed. Otherwise it is the failure reply.
- Between "Starting" and the last reply there is no other reply.
- When the task returned a file name, its send is attempted; when the send succeeded, its removal is attempted.
- For a URL the list has exactly 3 actions when no file name came back, 4 when the send failed, and 5 otherwise: the send and the removal are each attempted once.
- A send only happens for the file the task returned.
- A removal only happens right after a successful send of the same file.
- When "completed" is sent, the actions are send, remove, "completed", in that order.

## Left out

- The chat transport: `reply_text`, `reply_html`, `reply_document`, building
  the `Application`, polling and handler registration
  (telegram-bot-downloader-log.py:38-50, 117-125). This is external I/O.
  Replies are abstract `Reply` actions, and sending a document is `Send`.
- A failed send is still recorded as a `Send` action: `Send` stands for the
  attempt, and `sendOk` covers both `open(filename, 'rb')` and
  `reply_document`. The model does not separate an `open` that raises before
  anything is sent from a `reply_document` that raises. `Remove` likewise
  records the attempted removal.
- The `/start` and `/help` handlers. Each is a fixed reply with no logic.
- The replies "Starting download" and "Download completed" are assumed not
  to raise. A raising completion reply would lead to the failure reply. A
  raising first reply would end the handler.
- yt_dlp: its options, `extract_info` and `prepare_filename`. These are an
  external library. Each attempt's result is an oracle value, either
  `Ok(filename)` or `Err(message)`, with the file name as `prepare_filename`
  reports it. An exception is modelled by its message only.
- DownloadTask.DownloadVideoTask: requires the oracle to hold an outcome for
  every iteration, because the engine's answers are an input here.
- The `ThreadPoolExecutor` and `run_in_executor`. They exist only for
  concurrency, and the five-worker bound is not a sequential property.
  Handing the URL to the pool is the `Submit` action. Concurrent jobs whose
  titles give the same file name are not modelled either.
- `time.sleep(5)` is a `Sleep(5)` event, not wall-clock time.
- Logging setup, loading the token from `.env`, and creating the download
  directory (telegram-bot-downloader-log.py:12-33). These are configuration
  and file-system side effects. Only the per-attempt log line is kept, as
  the `Attempt` event.
- `splitext` is modelled for POSIX paths only: `/` is the separator, with
  no alternative separator and no drive letters.
- Characters are Unicode scalar values compared by code point, as Python
  compares `str` characters. No byte-level decoding of the message is modelled.
