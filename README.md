# termscp core, modelled in Dafny

This project models three parts of termscp, a terminal file transfer client
for SFTP, SCP and FTP(S).

1. **The transfer engine** of the file transfer activity (`session.rs`):
   - how a transfer is sized;
   - the recursive upload and download walks: renaming at the top level,
     directory creation, the abort check between entries, and cleanup after
     a failed file;
   - the chunked copy loops that drive the two progress counters.
2. **The bookmark list component** (`bookmark_list.rs`): a cursor over the
   bookmark names, moved by key events and reset by new properties.
3. **The authentication form helpers** (`auth/misc.rs`): the protocol radio
   group, default ports, the standard-port test, and turning the form's
   fields into connection parameters.

Files:

- `results.dfy`: `Option` and `Result`.
- `fs_tree.dfy` (module `FsTree`): entries as an immutable snapshot tree, with
  transfer sizes and name paths below an entry.
- `session.dfy` (module `Session`): the class `Engine`, holding the transfer
  state (`aborted`, the `partial` and `full` progress counters) and an event
  log. Its methods are the copy loops, the walks and the payload operations.
- `bookmark_list.dfy` (module `BookmarkListComponent`): the classes
  `OwnStates` and `BookmarkList`.
- `auth_misc.dfy` (module `AuthMisc`): total functions and their round trips.

How the environment is modelled:

- Host and remote providers, file streams and the user's input are not code
  the model can see. They are an `Env` of total functions indexed by a tick
  counter.
- Each provider call, stream call and input poll reads the answer at the
  current tick, then advances the tick. An answer may be a failure, a byte
  count, a mkdir outcome or a cancel request.
- `WellBehaved` is the one assumption made about the environment. A read
  returns between 1 byte and the bytes still left, at most 65536. A write
  accepts between 1 byte and the bytes offered. This assumption is what makes
  the copy loop terminate.
- `Benign(env, lo, hi)` says that nothing fails and nobody cancels in a range
  of ticks. The full-transfer guarantees are stated under it.

What is proved:

- **Accounting.** A transfer never counts more than the size it was sized
  at. A benign run counts that size exactly. The size of a tree is the sum
  of the sizes of its files.
- **The copy loop.** The copy is specified by `CopyRun`, a recursive
  function of the environment alone: poll, read a chunk, write all of it,
  and stop at every byte moved, an abort seen, or the first failed call.
  The loop's result, the bytes it counts, its polls and the abort flag are
  exactly those of `CopyRun`, so every byte counted was read and written in
  full. A single file's result, in a walk or as a file payload, is
  `UploadResult` or `DownloadResult`, and a walk logs exactly `FileLog` of
  it.
- **Errors.** Each error of a file copy is tied to the call that failed.
  - A failed read is reported as an I/O error on the source side.
  - A failed write is reported as an I/O error on the destination side.
  - A failed rewind gives `CouldNotRewind`, and failed opens give
    `HostError` and `FileTransferError`.
  - An abort gives `Abrupted`.
- **Cleanup.** A failed file in a walk is logged with the error of the call
  that failed. Its destination is probed if and only if that error is an
  abort or an I/O error on the destination side. The destination is removed exactly when
  the probe finds it.
- **Naming.** Every event of a walk is about the destination path or a path
  below it, and every step below the top uses an entry's own name. So only
  the top-level entry is renamed.
- **Aborts.**
  - Once aborted, a walk copies nothing.
  - The loop over a directory's entries stops after the entry whose walk saw
    the abort. Once a walk has logged an abort alert, only abort alerts (those
    of the enclosing directories) follow it.
  - If no abort happened, no abort alert is logged.
  - A cancel request found by a poll in the middle of a copy sets the abort
    flag. The copy then ends after at most one more chunk and gives
    `Abrupted`, unless that chunk's read or write fails. No earlier poll of
    that copy found a request.
- **Coverage.** Without an abort, a directory walk logs at least one event
  for each entry of a listed directory. This holds also when the mkdir found
  the directory already there.
- **Cursor.** The bookmark cursor moves by clamped steps. Eight steps equal
  the closed forms `Forward` and `Backward` used in `On`'s contract.

Where the source's behaviour is surprising, the model follows the code:

- A `Many` payload has no abort check between its top-level entries. Each
  entry after an abort is still walked. For a file, that walk still opens
  the destination, copies nothing and then cleans up.
- The single-file payloads (`filetransfer_send_file`,
  `filetransfer_recv_file`) return the error and never clean up.
- On upload, a failed remote mkdir other than "already exists" returns at
  once, with no abort alert. On download, a failed local mkdir falls through
  to the abort alert.
- `filetransfer_recv_file` writes to the given local path itself and takes
  no destination name.
- On upload, a failed seek to the end of the local file counts its size as
  0. The copy then moves nothing and succeeds.

## Model

| member | source | states |
|---|---|---|
| FsTree.TotalSize | src/ui/activities/filetransfer/session.rs:1009-1033 | The size a transfer of an entry is sized at equals the sum of the sizes of all files reachable through directories that can be listed, whatever the nesting depth. A directory that cannot be listed adds nothing. |
| FsTree.SumOfTotals | src/ui/activities/filetransfer/session.rs:1015-1018 | The summed sizes of a sequence of entries equal the sum of all file sizes under them. |
| FsTree.SumOfTotalsPrefix | src/ui/activities/filetransfer/session.rs:399-406 | The entries walked before a break account for no more than the whole listing. |
| Session.Cleans | src/ui/activities/filetransfer/session.rs:335-338 | The errors that call for cleanup are exactly an abort and an I/O error on the side being written to: `RemoteIoError` on upload, and `LocalIoError` on download (lines 664-667). |
| Session.CleanupPolicy | src/ui/activities/filetransfer/session.rs:335-338 | A read-side I/O error, a failed rewind, a host error or a file transfer error never call for cleanup. |
| Session.CleanupAfter | src/ui/activities/filetransfer/session.rs:335-362 | A probe happens exactly when the error calls for cleanup. The file is removed exactly when the probe finds it. |
| Session.DestPath | src/ui/activities/filetransfer/session.rs:317-323 | The destination is one component below the current path. That component is the new name when one is given, and the entry's own name otherwise. |
| Session.MkdirEvent | src/ui/activities/filetransfer/session.rs:367-394 | A remote directory creation is reported as created, as already existing, or as failed, exactly per the mkdir outcome. "Already exists" is not a failure. |
| Session.LocalMkdirEvent | src/ui/activities/filetransfer/session.rs:702 | A local directory creation fails only on a real failure. "Already exists" is reported as created. |
| Session.PayloadSize | src/ui/activities/filetransfer/session.rs:282-294 | A file payload is sized at the file's size. An entry or a batch is sized at the sum of the sizes of its files. |
| Session.Engine.Reset | src/ui/activities/filetransfer/session.rs:234 | Clears the abort flag and both counters. Nothing else changes. |
| Session.Engine.ReadInputEvent | src/ui/activities/filetransfer/session.rs:464-474 | A poll sets the abort flag when a cancel request is pending and never clears it. |
| Session.Engine.WriteChunk | src/ui/activities/filetransfer/session.rs:484-497 | Succeeds exactly when every write call succeeds until the whole chunk is written (`WritesAll`), after exactly as many calls as that takes (`WriteCalls`). A failure means the last write call failed. No counter moves inside this loop. |
| Session.Engine.MoveChunk | src/ui/activities/filetransfer/session.rs:476-504 | One read of the copy loop. The read fails exactly when the read call fails. A moved chunk has the size the read returned, between 1 and the bytes left, and was written out in full. A write failure means the last write call failed. |
| Session.ChunkAt | src/ui/activities/filetransfer/session.rs:476-504 | One read of the copy loop as the environment answers it. The read fails exactly when the read call fails. Otherwise it returns between 1 byte and the bytes left, at most one buffer, and ends after the write calls that chunk takes. |
| Session.ChunkAtBenign | src/ui/activities/filetransfer/session.rs:476-497 | A chunk that meets no failure moves exactly what its read returned. |
| Session.CopyResult | src/ui/activities/filetransfer/session.rs:462-526 | A copy succeeds exactly when its run finished and saw no abort. A stop at a failed read or write gives that side's I/O error (lines 498-503), and an abort gives `Abrupted` (lines 520-526). |
| Session.CopyRunTurn | src/ui/activities/filetransfer/session.rs:462-508 | The first turn of a run (one poll, then one chunk), followed by the rest of the run from the chunk's end, is the whole run. A turn whose chunk failed is the run's last: it stops at that failure, with the poll's answer as the abort flag. |
| Session.CopyRunBounds | src/ui/activities/filetransfer/session.rs:462-526 | A run never moves more than the size, and moves nothing once aborted. It finishes without an abort only with every byte moved. It stops early only at a failed read or a failed write, and that call is its last. With bytes left and no abort, it polls at least once. |
| Session.CopyRunPolls | src/ui/activities/filetransfer/session.rs:462-474 | A run polls once per turn, inside its own ticks, and each poll comes after at least one more byte. Only the last poll may find a cancel request, and at most one buffer moves after it. The abort flag ends set exactly when it was set before or the last poll found a request. |
| Session.CopyRunBenign | src/ui/activities/filetransfer/session.rs:462-526 | A run from an unaborted state that meets no failure and no cancel request moves every byte and ends unaborted. |
| Session.CancelEndsCopy | src/ui/activities/filetransfer/session.rs:462-474 | In any poll log, a poll that finds a cancel request is the copy's last, and at most one buffer of bytes moves after it. |
| Session.CopyRunFacts | src/ui/activities/filetransfer/session.rs:462-526 | What a whole run from 0 bytes promises about its result: the bounds, success only with every byte moved, each I/O error tied to the last call, a poll log, the abort flag, and success in a benign run. |
| Session.Engine.CopyStream | src/ui/activities/filetransfer/session.rs:462-526 | The result, the bytes moved, the polls made, the final tick and the abort flag are exactly those of `CopyRun`, the loop as the environment drives it. So every byte counted was read and then written in full, and, by `CopyRunPolls`, a cancel found by a poll ends the copy after at most one more chunk. `partial` is exactly (size, moved), and `full` grows by the same amount. |
| Session.Engine.CopyTurn | src/ui/activities/filetransfer/session.rs:462-508 | One turn of the copy loop: one input poll, then one chunk. The abort flag is set exactly when that poll found a cancel request. The chunk is `ChunkAt`'s. A moved chunk adds exactly the read length to `partial` and `full`, and every byte of it was written (`WritesAll`). A failed read or write moves nothing. The rest of the run after the turn, behind the turn's poll, is the run before it. |
| Session.Engine.ReportFailure | src/ui/activities/filetransfer/session.rs:329-362 | For a failed result, logs the failure with its error and the cleanup `CleanupAfter` gives for the probe's answer. The probe is a call only when the error calls for cleanup. An Ok result logs nothing. Nothing else changes. |
| Session.Engine.SendOne | src/ui/activities/filetransfer/session.rs:436-543 | `HostError` if and only if the local file does not open. `FileTransferError` if and only if the remote stream does not open. `CouldNotRewind` if and only if both open and the rewind fails. Once rewound, the result, the counted bytes, the polls, the final tick and the abort flag are those of `CopyRun` over the probed size (0 when the seek fails). On Ok, `partial` equals the probed size and `full` grows by it. The exact events are "opened" on open and "saved" on Ok. A benign run moves the file's whole size. |
| Session.Engine.SendOneReported | src/ui/activities/filetransfer/session.rs:326-364 | The result is `UploadResult`, the upload as the environment answers it, and the events are exactly `FileLog` of that result: "opened" and "saved", or the failure with `CleanupAfter`'s cleanup for the stat's answer, after "opened" unless an open failed. Each error is tied to the failing call. |
| Session.Engine.UploadStream | src/ui/activities/filetransfer/session.rs:446-537 | The upload through open streams. It logs "opened", probes the size (0 when the seek fails) and fails only with `CouldNotRewind` (exactly when the rewind fails), a read or write I/O error tied to the failing call, or `Abrupted` after an abort. After a rewind, everything the copy does is `CopyRun`'s. |
| Session.Engine.RewindAndCopy | src/ui/activities/filetransfer/session.rs:452-537 | Rewinds, then copies. `CouldNotRewind` exactly when the rewind fails. After a rewind, the result, counted bytes, polls, final tick and abort flag are `CopyRun`'s, and "saved" is logged exactly on Ok. |
| Session.Engine.CopyAndSave | src/ui/activities/filetransfer/session.rs:462-534 | The copy loop, then "saved" on Ok. Its outcome is `CopyRun`'s, and it carries `CopyRunFacts` over to the counters: a poll log of the bytes counted, the abort flag, each I/O error tied to the last call, the full size on Ok, and success in a benign run. |
| Session.Engine.RecvOne | src/ui/activities/filetransfer/session.rs:791-914 | `HostError` if and only if the local file does not open. In that case nothing is logged as opened. `FileTransferError` if and only if the remote stream does not open. Never `CouldNotRewind`. Once both are open, the result, the counted bytes, the polls, the final tick and the abort flag are those of `CopyRun` over the remote size. On Ok, the remote size is counted fully in both counters. A benign run succeeds. |
| Session.Engine.DownloadStream | src/ui/activities/filetransfer/session.rs:801-898 | Opens the remote stream: `FileTransferError` exactly when that fails. Otherwise the copy is `CopyRun`'s over the remote size, `RemoteIoError` means the last read failed and `LocalIoError` that the last write failed, and "saved" is logged exactly on Ok. |
| Session.Engine.RecvOneReported | src/ui/activities/filetransfer/session.rs:647-693 | The result is `DownloadResult`, the download as the environment answers it, and the events are exactly `FileLog` of that result, with `CleanupAfter`'s cleanup for the stat's answer. Each error is tied to the failing call. |
| Session.Engine.SendRecurse | src/ui/activities/filetransfer/session.rs:306-431 | `full` grows by at most the entry's size, and by exactly that in a benign run. Nothing moves once aborted. For a file entry, the result is `UploadResult` and the events are exactly `FileLog` of it, then the abort alert if aborted. So a failed file is logged with the error of the call that failed, and cleaned up exactly when the policy says. Every event is below the (possibly renamed) destination path, through the entries' own names. The first event is about the destination path itself. A directory starts with its mkdir event. A failed mkdir logs that failure and nothing else, with no abort alert. A listed directory whose mkdir succeeded or found it already there logs, without an abort, at least one event more than it has entries. An unlistable directory gives exactly mkdir, scan failure and, if aborted, the abort alert. An abort started before the call gives exactly mkdir, possibly scan failure, then the abort alert. The abort alert closes the log when aborted, and is absent otherwise. After the first abort alert, only abort alerts follow. |
| Session.Engine.SendFileEntry | src/ui/activities/filetransfer/session.rs:326-431 | Returns `UploadResult`, `filetransfer_send_one`'s result as the environment answers it, with its error tied to the failing call as in `SendOne`. The events are exactly `FileLog` of that result, then the abort alert if aborted. So the remote file is probed and removed exactly for `Abrupted` and `RemoteIoError`. All events are about the remote file. The progress bounds hold. |
| Session.FileLogAfter | src/ui/activities/filetransfer/session.rs:326-364 | A file's log adds at least one event to the log before it, all about that file, with no abort alert and every cleanup as the error calls for. |
| Session.Engine.SendDirectory | src/ui/activities/filetransfer/session.rs:365-419 | The remote mkdir comes first. "Already exists" still descends: it returns true, and without an abort the log grows by the mkdir event and at least one event per entry. Any other failure visits no entry and returns false. An unlistable directory logs exactly the mkdir event and a scan failure. The progress, cleanup and naming guarantees hold over the whole subtree. After the first abort alert, only abort alerts follow. |
| Session.Engine.SendListing | src/ui/activities/filetransfer/session.rs:396-418 | Once the remote directory exists: an unlistable source directory logs exactly a scan failure, and a listed one has its entries walked, at least one event each without an abort. Once aborted on entry, nothing but that scan failure is logged. The guarantees hold over the directory's log from its mkdir event on. |
| Session.Engine.SendChildren | src/ui/activities/filetransfer/session.rs:399-406 | Before each entry the abort flag is checked. Once aborted, nothing more is visited: the log ends with the abort alert of the entry that saw it, and no other event follows the first abort alert. In a benign run every entry's full size is counted. Without an abort every entry is walked: the log grows by at least one event per entry. |
| Session.Engine.SendChild | src/ui/activities/filetransfer/session.rs:405 | One entry's walk under its own name, seen from its directory. The log of the directory so far, extended by it, stays below the directory and stops after an abort. Its size bounds its progress. It adds at least one event. |
| Session.Engine.RecvRecurse | src/ui/activities/filetransfer/session.rs:634-786 | The same progress, cleanup, naming and stop-after-abort guarantees as the upload walk, with the download's cleanup errors. For a file entry, the events are exactly `FileLog` of `DownloadResult`, then the abort alert if aborted. The first event is about the destination path itself. A failed local mkdir logs that failure and falls through to the abort alert. A listed directory whose mkdir did not fail logs, without an abort, at least one event more than it has entries. An unlistable directory gives exactly "created", scan failure and, if aborted, the abort alert. |
| Session.Engine.RecvFileEntry | src/ui/activities/filetransfer/session.rs:647-786 | Returns `DownloadResult`, `filetransfer_recv_one`'s result as the environment answers it, with its error tied to the failing call as in `RecvOne`. The events are exactly `FileLog` of that result, then the abort alert if aborted. So the local file is probed and removed exactly for `Abrupted` and `LocalIoError`. All events are about this local file. |
| Session.Engine.RecvDirectory | src/ui/activities/filetransfer/session.rs:694-771 | The local directory is created with "already exists" as success. Unless the mkdir failed, a listed directory with no abort logs the mkdir event and at least one event per entry. A failure visits no entry. An unlistable remote directory logs exactly "created" and a scan failure. After the first abort alert, only abort alerts follow. |
| Session.Engine.RecvListing | src/ui/activities/filetransfer/session.rs:731-757 | Once the local directory exists: an unlistable remote directory logs exactly a scan failure, and a listed one has its entries walked, at least one event each without an abort. Once aborted on entry, nothing but that scan failure is logged. |
| Session.Engine.RecvChildren | src/ui/activities/filetransfer/session.rs:734-746 | The same loop guarantees as the upload's loop over entries. No event but abort alerts follows the first abort alert, and without an abort every entry adds at least one event. |
| Session.Engine.RecvChild | src/ui/activities/filetransfer/session.rs:741-745 | One entry's walk under its own name, seen from its directory. It adds at least one event, stays below the directory and stops after an abort. |
| Session.Engine.SendFile | src/ui/activities/filetransfer/session.rs:227-254 | `full.total` is the file's size. The file goes to the current path under the new name or its own. The result is exactly `UploadResult` from a cleared abort flag, so every error is tied to the call that failed, and it is returned with no cleanup. Once the streams are open and rewound, `full` counts exactly the bytes `CopyRun` moved. A benign run succeeds and counts the whole size. |
| Session.Engine.SendAny | src/ui/activities/filetransfer/session.rs:259-277 | `full.total` is the entry's total size and is never exceeded. A benign run reaches it. The walk's cleanup and naming guarantees hold. The result is always Ok. |
| Session.Engine.SendMany | src/ui/activities/filetransfer/session.rs:282-304 | `full.total` is the sum of the entries' sizes and is never exceeded. A benign run reaches it. Every event lies under one entry's own name in the current path. Each entry adds at least one event, because there is no abort check between entries. The result is always Ok. |
| Session.Engine.SendManyEntry | src/ui/activities/filetransfer/session.rs:298-300 | One entry of the batch: the counters and the log grow as the batch loop's invariants say, with the entry's events under its own name in the current path and the benign count reaching the sizes so far. |
| Session.Engine.Send | src/ui/activities/filetransfer/session.rs:204-222 | `full.total` is the payload's size and is never exceeded. Only a file payload can return an error, and its result is exactly `UploadResult`. A benign run succeeds at the full size. A file payload goes to the current path under the destination name or its own. An entry's events lie under its possibly renamed path. A batch's events lie under the entries' own names. |
| Session.Engine.RecvFile | src/ui/activities/filetransfer/session.rs:591-605 | `full.total` is the file's size. The file is written to the given path itself. The result is exactly `DownloadResult` from a cleared abort flag, so every error is tied to the call that failed, and it is returned with no cleanup. Once both ends are open, `full` counts exactly the bytes `CopyRun` moved. A benign run succeeds. |
| Session.Engine.RecvAny | src/ui/activities/filetransfer/session.rs:568-586 | `full.total` is the entry's total size and is never exceeded. A benign run reaches it. The walk's guarantees hold. The result is always Ok. |
| Session.Engine.RecvMany | src/ui/activities/filetransfer/session.rs:610-632 | The same guarantees as the upload batch, for downloads into the local path. |
| Session.Engine.RecvManyEntry | src/ui/activities/filetransfer/session.rs:626-628 | One entry of the download batch, with the same loop invariants as `SendManyEntry`. |
| Session.Engine.Recv | src/ui/activities/filetransfer/session.rs:550-560 | Dispatch on the payload. A file payload ignores the destination name: its events are about the local path itself. Only a file payload can fail, and its result is exactly `DownloadResult`. A benign run succeeds at the full size. An entry's events lie under its possibly renamed path, and a batch's under the entries' own names. |
| BookmarkListComponent.Incr | src/ui/components/bookmark_list.rs:179-184 | An increment keeps an index below the length. It leaves the index alone on an empty list, and moves by at most one. |
| BookmarkListComponent.Decr | src/ui/components/bookmark_list.rs:189-194 | A decrement never goes below 0 and moves a positive index down by exactly one. |
| BookmarkListComponent.IncrTimesIsForward | src/ui/components/bookmark_list.rs:302-307 | Repeated clamped increments land at min(index + steps, last), and never move back. |
| BookmarkListComponent.DecrTimesIsBackward | src/ui/components/bookmark_list.rs:309-314 | Repeated clamped decrements land at max(index - steps, 0). |
| BookmarkListComponent.CursorBounds | src/ui/components/bookmark_list.rs:179-194 | From a valid index, moves keep the cursor on the list. Enough steps reach the last entry or the first, and reaching 0 happens exactly when the steps cover the index. |
| BookmarkListComponent.CursorMovesCompose | src/ui/components/bookmark_list.rs:302-314 | Two moves in one direction equal one move of their combined length. |
| BookmarkListComponent.BookmarksLen | src/ui/components/bookmark_list.rs:227-232 | The length is 0 without bookmarks, and the list's length otherwise. |
| BookmarkListComponent.OwnStates.constructor | src/ui/components/bookmark_list.rs:151-159 | Index 0, length 0, no focus. |
| BookmarkListComponent.OwnStates.SetListLen | src/ui/components/bookmark_list.rs:165-167 | Sets the length only. |
| BookmarkListComponent.OwnStates.GetListIndex | src/ui/components/bookmark_list.rs:172-174 | Returns the index. |
| BookmarkListComponent.OwnStates.IncrListIndex | src/ui/components/bookmark_list.rs:179-184 | The index becomes one clamped increment of itself, and the cursor stays valid. |
| BookmarkListComponent.OwnStates.DecrListIndex | src/ui/components/bookmark_list.rs:189-194 | The index becomes one clamped decrement of itself, and the cursor stays valid. |
| BookmarkListComponent.OwnStates.ResetListIndex | src/ui/components/bookmark_list.rs:199-201 | The index becomes 0. Nothing else changes. |
| BookmarkListComponent.BookmarkList.constructor | src/ui/components/bookmark_list.rs:219-225 | Index 0, no focus, and the length equal to the bookmark count. |
| BookmarkListComponent.BookmarkList.Update | src/ui/components/bookmark_list.rs:275-282 | Replaces the properties, re-reads the length, resets the index to 0 and keeps the focus. Returns no message. |
| BookmarkListComponent.BookmarkList.GetProps | src/ui/components/bookmark_list.rs:284-286 | Returns the properties. |
| BookmarkListComponent.BookmarkList.GetState | src/ui/components/bookmark_list.rs:331-333 | Returns the selected index. |
| BookmarkListComponent.BookmarkList.On | src/ui/components/bookmark_list.rs:288-329 | Down and Up move one clamped step. PageDown and PageUp move eight. Enter submits the current index and changes nothing. Other keys come back as `OnKey`. Non-key events do nothing. The cursor stays valid. |
| BookmarkListComponent.BookmarkList.Blur | src/ui/components/bookmark_list.rs:335-337 | Clears focus. Index and length are kept. |
| BookmarkListComponent.BookmarkList.Active | src/ui/components/bookmark_list.rs:339-341 | Sets focus. Index and length are kept. |
| BookmarkListComponent.ComponentTrace | src/ui/components/bookmark_list.rs:353-455 | The component test's trace. In particular, with 3 bookmarks, PageDown from 0 gives 2 and PageUp gives 0 again. |
| AuthMisc.ProtocolEnumToOpt | src/ui/activities/auth/misc.rs:46-53 | The radio index is at most 3 and selects the same protocol again. |
| AuthMisc.OptRoundTrip | src/ui/activities/auth/misc.rs:34-53 | Index to protocol to index keeps 0..3 and maps every other index to 0. |
| AuthMisc.ProtocolOptToEnum | src/ui/activities/auth/misc.rs:34-41 | 1, 2 and 3 select SCP, FTP and FTPS, each exactly. Every other index, 0 included, selects SFTP. |
| AuthMisc.GetDefaultPortForProtocol | src/ui/activities/auth/misc.rs:58-63 | 21 exactly for the two FTP variants, and 22 exactly for SFTP and SCP. |
| AuthMisc.IsPortStandard | src/ui/activities/auth/misc.rs:68-70 | Holds exactly for ports below 1024 (its properties are stated by `DefaultPortIsStandard`). |
| AuthMisc.DefaultPortIsStandard | src/ui/activities/auth/misc.rs:58-70 | Every default port is standard, and the standard range ends at 1023. |
| AuthMisc.NonEmpty | src/ui/activities/auth/misc.rs:105-112 | An empty field becomes None and any other becomes Some of itself. |
| AuthMisc.CollectHostParams | src/ui/activities/auth/misc.rs:87-115 | An empty address gives "Invalid host" whatever the port. Otherwise port 0 gives "Invalid port". Ok happens exactly when both are valid. On Ok, address, port and protocol are copied, the credentials pass through `NonEmpty`, and there is no entry directory. |
| AuthMisc.CollectThenShow | src/ui/activities/auth/misc.rs:95-114 | Collected parameters show the exact form they came from. |
| AuthMisc.ShowThenCollect | src/ui/activities/auth/misc.rs:95-114 | Every parameter set a form can produce is collected from the form that shows it. |

## Left out

- The 0-byte read branch (src/ui/activities/filetransfer/session.rs:481-482, 830-831) is not modelled. `WellBehaved` rules out a 0-byte read while bytes are left, so that `continue` never runs. In the source, a source stream that returns 0 bytes early makes the loop go round without progress, still polling the input, until the user cancels.
- A write that accepts 0 bytes (src/ui/activities/filetransfer/session.rs:485-497, 834-844) is not modelled. `WellBehaved` requires every write to take at least 1 byte. In the source, such a write makes the inner write loop spin forever, because that loop polls no input.
- Session.DestPath: the destination name is one plain path component. `PathBuf::push` with an absolute name, which replaces the whole path, or with a name holding separators, which adds several components, is not modelled.
- The snapshot tree assumes that the size scan and the walk see the same listing, and that a file's real size equals its listed size. A file that changes during the transfer is not modelled.
- Session.Engine.CopyStream: the 500 ms input polling is not modelled. The model polls on every chunk. A cancel that comes between polls is the oracle answering "no cancel" at the skipped polls, so the model allows every behaviour the clock allows.
- The float `calc_progress` redraw threshold, the progress bar, `view()` redraws, logging text and alerts are left out. Only what they report is kept, as events.
- `chmod` under `cfg(unix)` after a download or a local mkdir is left out. Its failure is only logged.
- `on_sent` and `on_recv` stream finalisation is left out. Its failure is only logged, and the result does not depend on it.
- The failure of the remove after a successful stat is not modelled. It is only logged, and the probe outcome recorded is `Removed`.
- `reload_remote_dir` and `reload_local_dir` after each walk are left out. They refresh the explorer view only.
- `connect`, `disconnect`, `disconnect_and_quit`, `local_changedir`, `remote_changedir`, `local_scan`, `remote_scan` and `download_file_as_temp` are left out. They are provider and view plumbing outside the transfer core.
- The errors wrapped in `TransferErrorReason` and their `to_string` are left out. The payload operations return the reason itself instead of its message.
- `ProgressStates` and `TransferStates` are not part of this model. They are two counters and an abort flag here, with no start time or rate.
- `read_input_event` is not part of this model. It is an oracle that may request a cancel at each poll.
- Session.Engine.ReportFailure: remote and local `stat`/`remove` are one oracle answer. Whether they act on the remote or the local host is not distinguished.
- BookmarkListComponent.BookmarkList.On: key modifiers are not modelled. Any key other than the five handled ones is `Other`.
- `BookmarkList::render`, the props builders, colours, borders and titles are left out, because they are rendering only. Properties keep only the bookmark list.
- `unwrap_vec` in `bookmarks_len` panics on a non-vector property. The model's properties hold a list or nothing, so that case does not arise.
- `check_minimum_window_size` in src/ui/activities/auth/misc.rs is left out. It only mounts and unmounts a popup.
- Integer widths: sizes and counters are unbounded `nat`, and `usize` overflow is not modelled. Ports are 16-bit through the `Port` subset type.
