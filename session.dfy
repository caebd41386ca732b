/**
 * The transfer engine: sending and receiving files and directory trees
 * between the local host and the remote, with two progress counters, a
 * cancellation flag polled while copying, and removal of a partially written
 * destination file after a failure.
 *
 * Providers and streams are abstract. Every call the engine makes on them,
 * and every poll of the user's input, consumes one tick of an environment
 * `Env` whose answers are total functions of the tick.
 */
module Session {
  import opened Results
  import opened FsTree

  // -- data

  /** `TransferErrorReason`; the I/O and provider errors they wrap are not modelled. */
  datatype TransferErrorReason =
    | Abrupted
    | CouldNotRewind
    | LocalIoError
    | HostError
    | RemoteIoError
    | FileTransferError

  /** `TransferPayload`: one file, one entry of any kind, or a batch of entries. */
  datatype TransferPayload = FilePayload(file: FsFile) | Any(entry: Entry) | Many(entries: seq<Entry>)

  /** Upload: local to remote (`filetransfer_send*`); Download: remote to local (`filetransfer_recv*`). */
  datatype Direction = Upload | Download

  /** The error an I/O failure on the side being read from is reported as. */
  function ReadError(dir: Direction): TransferErrorReason {
    if dir == Upload then LocalIoError else RemoteIoError
  }

  /** The error an I/O failure on the side being written to is reported as. */
  function WriteError(dir: Direction): TransferErrorReason {
    if dir == Upload then RemoteIoError else LocalIoError
  }

  /**
   * The errors after which the walk probes for the partially written
   * destination file and removes it: an abort, or an I/O error on the
   * destination (the remote on upload, the local host on download).
   */
  predicate Cleans(dir: Direction, reason: TransferErrorReason)
    ensures Cleans(dir, reason) <==> reason == Abrupted || reason == WriteError(dir)
  {
    match dir
    case Upload => reason == Abrupted || reason == RemoteIoError
    case Download => reason == Abrupted || reason == LocalIoError
  }

  /** Of the copy loop's own errors, a read error does not clean up; the errors raised before the copy starts never do. */
  lemma CleanupPolicy(dir: Direction)
    ensures !Cleans(dir, ReadError(dir))
    ensures !Cleans(dir, CouldNotRewind) && !Cleans(dir, HostError) && !Cleans(dir, FileTransferError)
  {
  }

  /** What the cleanup after a failed file did: nothing, a probe that found nothing, or a probe and a removal. */
  datatype Cleanup = Kept | ProbeFailed | Removed

  /**
   * The cleanup a failed file gets, given whether the probe finds the
   * destination file: a probe happens exactly when the error calls for
   * cleanup, and a file the probe finds is removed.
   */
  function CleanupAfter(dir: Direction, reason: TransferErrorReason, found: bool): (c: Cleanup)
    ensures c != Kept <==> Cleans(dir, reason)
    ensures c == Removed <==> Cleans(dir, reason) && found
  {
    if !Cleans(dir, reason) then Kept else if found then Removed else ProbeFailed
  }

  /**
   * What the engine reports and does to the destination, in order. Paths are
   * destination paths.
   */
  datatype Event =
    | Opened(path: Path)                  // the destination file was created for writing
    | Saved(path: Path)                   // the file was copied completely
    | TransferFailed(path: Path, reason: TransferErrorReason, cleanup: Cleanup)
    | DirCreated(path: Path)
    | DirExisted(path: Path)
    | DirFailed(path: Path)
    | ScanFailed(path: Path)              // the source directory could not be listed
    | AbortReported(path: Path)           // the "aborted" alert after an entry

  /** The outcome of creating a directory. */
  datatype MkdirResult = MkdirOk | MkdirExists | MkdirFailed

  /** How one turn of the copy loop ends: the read fails, a write fails, or a chunk of `bytes` is moved. */
  datatype ChunkOutcome = ReadFailed | WriteFailed | Moved(bytes: nat)

  /** The size of the buffer one read fills at most. */
  const BufferSize := 65536

  /**
   * The environment. At tick k: whether the input poll finds a cancel request,
   * whether opening the source and the destination streams, probing the
   * source's size and rewinding succeed, whether a read or a write succeeds
   * and how many bytes it moves (given how many are left), how creating a
   * directory ends, and whether a stat finds the file.
   */
  datatype Env = Env(
    cancel: nat -> bool,
    openSource: nat -> bool,
    openDest: nat -> bool,
    sizeProbe: nat -> bool,
    rewind: nat -> bool,
    readOk: nat -> bool,
    readLen: (nat, nat) -> nat,
    writeOk: nat -> bool,
    writeLen: (nat, nat) -> nat,
    mkdir: nat -> MkdirResult,
    stat: nat -> bool)
  {
    /** A cancel request is pending when the input is polled at tick `k`. */
    function Cancel(k: nat): bool { cancel(k) }
    /** Opening the source stream at tick `k` succeeds. */
    function OpenSource(k: nat): bool { openSource(k) }
    /** Opening the destination stream at tick `k` succeeds. */
    function OpenDest(k: nat): bool { openDest(k) }
    /** Taking the local file's size at tick `k` succeeds. */
    function SizeProbe(k: nat): bool { sizeProbe(k) }
    /** Rewinding the local file at tick `k` succeeds. */
    function Rewind(k: nat): bool { rewind(k) }
    /** The read at tick `k` succeeds. */
    function ReadOk(k: nat): bool { readOk(k) }
    /** How many bytes the read at tick `k` returns with `left` still in the source. */
    function ReadLen(k: nat, left: nat): nat { readLen(k, left) }
    /** The write call at tick `k` succeeds. */
    function WriteOk(k: nat): bool { writeOk(k) }
    /** How many of `len` bytes the write call at tick `k` takes. */
    function WriteLen(k: nat, len: nat): nat { writeLen(k, len) }
    /** What creating a directory at tick `k` does. */
    function Mkdir(k: nat): MkdirResult { mkdir(k) }
    /** Whether the probe for a file at tick `k` finds it. */
    function Stat(k: nat): bool { stat(k) }
  }

  /**
   * Streams keep their contracts: a read with `left` bytes still in the source
   * returns between 1 and `left` bytes, at most a buffer; a write of `len`
   * bytes takes between 1 and `len` of them.
   */
  ghost predicate WellBehaved(env: Env) {
    && (forall k, left :: 0 < left ==> 1 <= env.ReadLen(k, left) <= left && env.ReadLen(k, left) <= BufferSize)
    && (forall k, len :: 0 < len ==> 1 <= env.WriteLen(k, len) <= len)
  }

  /** Whether writing `left` bytes from tick `t` on succeeds: every write call succeeds until none are left. */
  ghost predicate WritesAll(env: Env, t: nat, left: nat)
    requires WellBehaved(env)
    decreases left
  {
    left == 0 || (env.WriteOk(t) && WritesAll(env, t + 1, left - env.WriteLen(t, left)))
  }

  /** How many write calls writing `left` bytes from tick `t` on makes, up to the last byte or the first failure. */
  ghost function WriteCalls(env: Env, t: nat, left: nat): nat
    requires WellBehaved(env)
    decreases left
  {
    if left == 0 then 0
    else if !env.WriteOk(t) then 1
    else 1 + WriteCalls(env, t + 1, left - env.WriteLen(t, left))
  }

  /** A poll of the user's input by the copy loop: the tick it was made at and how many bytes had been moved before it. */
  datatype Poll = Poll(at: nat, movedBefore: nat)

  /**
   * The polls of one copy that ran from tick `lo` to tick `hi` and moved
   * `moved` bytes: all made in that window, one per turn of the loop. Every
   * turn but the last moved at least a byte, so the `j`-th poll comes after
   * at least `j` bytes; the last turn moved at most a buffer. Only the last
   * poll may have found a cancel request.
   */
  ghost predicate PollLog(env: Env, polls: seq<Poll>, lo: nat, hi: nat, moved: nat) {
    && (forall j :: 0 <= j < |polls| ==> lo <= polls[j].at < hi && j <= polls[j].movedBefore <= moved)
    && (forall j :: 0 <= j < |polls| - 1 ==> polls[j].movedBefore < moved && !env.Cancel(polls[j].at))
    && (0 < |polls| ==> moved <= polls[|polls| - 1].movedBefore + BufferSize)
  }

  /** Among the ticks `lo` up to `hi`, the last one was a failed read. */
  ghost predicate LastReadFailed(env: Env, lo: nat, hi: nat) {
    lo < hi && !env.ReadOk(hi - 1)
  }

  /** Among the ticks `lo` up to `hi`, the last one was a failed write. */
  ghost predicate LastWriteFailed(env: Env, lo: nat, hi: nat) {
    lo < hi && !env.WriteOk(hi - 1)
  }

  /** A poll log kept from tick `lo` on is also one kept from any earlier tick. */
  lemma PollLogFrom(env: Env, polls: seq<Poll>, lo: nat, lo': nat, hi: nat, moved: nat)
    requires lo <= lo' && PollLog(env, polls, lo', hi, moved)
    ensures PollLog(env, polls, lo, hi, moved)
  {
  }

  /** The last of `polls` found a cancel request. */
  ghost predicate LastPollCancels(env: Env, polls: seq<Poll>) {
    0 < |polls| && env.Cancel(polls[|polls| - 1].at)
  }

  /**
   * A poll that finds a cancel request is the copy's last, and the copy
   * moves at most one more chunk after it.
   */
  lemma CancelEndsCopy(env: Env, polls: seq<Poll>, lo: nat, hi: nat, moved: nat, j: nat)
    requires PollLog(env, polls, lo, hi, moved) && j < |polls| && env.Cancel(polls[j].at)
    ensures j == |polls| - 1
    ensures moved <= polls[j].movedBefore + BufferSize
  {
  }

  /** Writes that meet no failure and no cancel request take every byte. */
  lemma {:induction false} BenignWritesAll(env: Env, t: nat, left: nat)
    requires WellBehaved(env) && Benign(env, t, t + WriteCalls(env, t, left))
    ensures WritesAll(env, t, left)
    decreases left
  {
    if 0 < left {
      assert Calm(env, t);
      BenignWritesAll(env, t + 1, left - env.WriteLen(t, left));
    }
  }

  /** Writes that do not take every byte end with a failed call. */
  lemma {:induction false} WritesAllFails(env: Env, t: nat, left: nat)
    requires WellBehaved(env) && !WritesAll(env, t, left)
    decreases left
    ensures 0 < WriteCalls(env, t, left) && !env.WriteOk(t + WriteCalls(env, t, left) - 1)
  {
    if env.WriteOk(t) {
      WritesAllFails(env, t + 1, left - env.WriteLen(t, left));
    }
  }

  /** How one read of the copy loop ends, and the tick after its last call. */
  datatype Chunk = Chunk(outcome: ChunkOutcome, end: nat)

  /**
   * One read of the copy loop at tick `t` with `left` bytes still to read,
   * as the environment answers it: the read fails, or it returns a chunk
   * that the writes from the next tick on either take in full or fail on.
   */
  ghost function ChunkAt(env: Env, t: nat, left: nat): (c: Chunk)
    requires WellBehaved(env) && 0 < left
    ensures t < c.end
    ensures c.outcome == ReadFailed <==> !env.ReadOk(t)
    ensures c.outcome.Moved? ==> 1 <= c.outcome.bytes <= left && c.outcome.bytes <= BufferSize
  {
    if !env.ReadOk(t) then Chunk(ReadFailed, t + 1)
    else
      var n := env.ReadLen(t, left);
      var end := t + 1 + WriteCalls(env, t + 1, n);
      if WritesAll(env, t + 1, n) then Chunk(Moved(n), end) else Chunk(WriteFailed, end)
  }

  /** How a copy stops: with every byte moved or an abort seen, at a failed read, or at a failed write. */
  datatype CopyStop = Finished | ReadStopped | WriteStopped

  /**
   * A run of the copy loop: how it stopped, whether the abort flag is set
   * at its end, the bytes it moved, the tick after its last call and the
   * polls it made.
   */
  datatype Run = Run(stop: CopyStop, aborted: bool, moved: nat, end: nat, polls: seq<Poll>)

  /**
   * The copy loop of a `size`-byte copy as the environment drives it from
   * tick `t`, with `moved` bytes moved and the abort flag at `aborted`:
   * while bytes are left and no abort was seen, poll the input (a cancel
   * request sets the flag), read a chunk and write all of it out; stop at
   * the first failed read or write.
   */
  ghost function CopyRun(env: Env, t: nat, size: nat, moved: nat, aborted: bool): Run
    requires WellBehaved(env) && moved <= size
    decreases size - moved, 2
  {
    if size <= moved || aborted then Run(Finished, aborted, moved, t, []) else CopyStep(env, t, size, moved)
  }

  /** One turn of `CopyRun` with bytes left and no abort seen: a poll at tick `t`, then a chunk from the next tick. */
  ghost function CopyStep(env: Env, t: nat, size: nat, moved: nat): Run
    requires WellBehaved(env) && moved < size
    decreases size - moved, 1
  {
    CopyChunk(env, Poll(t, moved), env.Cancel(t), t + 1, size)
  }

  /**
   * The chunk read from tick `t` in a turn whose poll was `poll` and found
   * a cancel request exactly when `cancel` holds, and what follows it: the
   * end of the run at a failed call, or else the rest of the run after the
   * bytes it moved.
   */
  ghost function CopyChunk(env: Env, poll: Poll, cancel: bool, t: nat, size: nat): Run
    requires WellBehaved(env) && poll.movedBefore < size
    decreases size - poll.movedBefore, 0
  {
    var c := ChunkAt(env, t, size - poll.movedBefore);
    match c.outcome
    case ReadFailed => Run(ReadStopped, cancel, poll.movedBefore, c.end, [poll])
    case WriteFailed => Run(WriteStopped, cancel, poll.movedBefore, c.end, [poll])
    case Moved(n) =>
      var rest := CopyRun(env, c.end, size, poll.movedBefore + n, cancel);
      rest.(polls := [poll] + rest.polls)
  }

  /** A run that follows the polls `polls`, made before it. */
  function Resume(polls: seq<Poll>, run: Run): Run {
    run.(polls := polls + run.polls)
  }

  /** What the copy returns after a run: the error of the call that stopped it, `Abrupted` after an abort, or success. */
  function CopyResult(dir: Direction, run: Run): (r: Result<(), TransferErrorReason>)
    ensures r.Ok? <==> run.stop == Finished && !run.aborted
  {
    match run.stop
    case ReadStopped => Err(ReadError(dir))
    case WriteStopped => Err(WriteError(dir))
    case Finished => if run.aborted then Err(Abrupted) else Ok(())
  }

  /**
   * What `filetransfer_send_one` returns for `file` when it starts at tick
   * `t`: the source is opened, then the destination; the size is probed and
   * the source rewound; then the copy runs from the tick after.
   */
  ghost function UploadResult(env: Env, t: nat, file: FsFile, aborted: bool): Result<(), TransferErrorReason>
    requires WellBehaved(env)
  {
    if !env.OpenSource(t) then Err(HostError)
    else if !env.OpenDest(t + 1) then Err(FileTransferError)
    else if !env.Rewind(t + 3) then Err(CouldNotRewind)
    else CopyResult(Upload, CopyRun(env, t + 4, if env.SizeProbe(t + 2) then file.size else 0, 0, aborted))
  }

  /**
   * What `filetransfer_recv_one` returns for `file` when it starts at tick
   * `t`: the local file is opened, then the remote stream; then the copy
   * runs from the tick after.
   */
  ghost function DownloadResult(env: Env, t: nat, file: FsFile, aborted: bool): Result<(), TransferErrorReason>
    requires WellBehaved(env)
  {
    if !env.OpenDest(t) then Err(HostError)
    else if !env.OpenSource(t + 1) then Err(FileTransferError)
    else CopyResult(Download, CopyRun(env, t + 2, file.size, 0, aborted))
  }

  /**
   * The log of one file that ended with `res`: opened and saved, or the
   * failure with its cleanup, after the destination was opened unless the
   * failed call was the one that opens it or one before it.
   */
  function FileLog(dir: Direction, path: Path, res: Result<(), TransferErrorReason>, found: bool): seq<Event> {
    match res
    case Ok(_) => [Opened(path), Saved(path)]
    case Err(e) =>
      (if e == HostError || (dir == Upload && e == FileTransferError) then [] else [Opened(path)])
      + [TransferFailed(path, e, CleanupAfter(dir, e, found))]
  }

  /** The log of one file, after earlier events: it adds at least one event, all about `path`, with no abort and every cleanup as the error calls for. */
  lemma FileLogAfter(before: seq<Event>, dir: Direction, path: Path, res: Result<(), TransferErrorReason>, found: bool)
    ensures var evs := before + FileLog(dir, path, res, found);
            && |before| < |evs| && evs[..|before|] == before
            && WellCleaned(evs[|before|..], dir) && Quiet(evs[|before|..])
            && forall k :: |before| <= k < |evs| ==> evs[k].path == path
  {
    var log := FileLog(dir, path, res, found);
    assert (before + log)[|before|..] == log;
  }

  /** A run that has bytes left and no abort: its first poll, its first chunk, and what follows. */
  lemma CopyRunUnfold(env: Env, t: nat, size: nat, m: nat)
    requires WellBehaved(env) && m < size
    ensures var c := ChunkAt(env, t + 1, size - m);
            var run := CopyRun(env, t, size, m, false);
            && (c.outcome.Moved? ==>
                  var rest := CopyRun(env, c.end, size, m + c.outcome.bytes, env.Cancel(t));
                  run == Run(rest.stop, rest.aborted, rest.moved, rest.end, [Poll(t, m)] + rest.polls))
            && (!c.outcome.Moved? ==>
                  run == Run(if c.outcome == ReadFailed then ReadStopped else WriteStopped, env.Cancel(t), m, c.end, [Poll(t, m)]))
  {
    assert CopyRun(env, t, size, m, false) == CopyStep(env, t, size, m)
           == CopyChunk(env, Poll(t, m), env.Cancel(t), t + 1, size);
  }

  /**
   * A run's first turn, at tick `t`: its poll, which finds a cancel request
   * exactly when `ab` holds, then its chunk, which ends in `outcome` at
   * tick `end`; then the rest of the run from there.
   */
  lemma CopyRunTurn(env: Env, t: nat, size: nat, moved: nat, polls: seq<Poll>, outcome: ChunkOutcome, end: nat, ab: bool)
    requires WellBehaved(env) && moved < size
    requires outcome == ChunkAt(env, t + 1, size - moved).outcome && end == ChunkAt(env, t + 1, size - moved).end
    requires ab == env.Cancel(t)
    ensures outcome.Moved? ==>
              Resume(polls + [Poll(t, moved)], CopyRun(env, end, size, moved + outcome.bytes, ab))
              == Resume(polls, CopyRun(env, t, size, moved, false))
    ensures !outcome.Moved? ==>
              Resume(polls, CopyRun(env, t, size, moved, false))
              == Run(if outcome == ReadFailed then ReadStopped else WriteStopped, ab, moved, end, polls + [Poll(t, moved)])
  {
    CopyRunUnfold(env, t, size, moved);
    if outcome.Moved? {
      var rest := CopyRun(env, end, size, moved + outcome.bytes, ab);
      assert polls + ([Poll(t, moved)] + rest.polls) == polls + [Poll(t, moved)] + rest.polls;
    }
  }

  /**
   * A run from tick `t` with `m` bytes moved never moves more than the
   * size, ends at or after `t`, and moves nothing once aborted. It finishes
   * without an abort only with every byte moved; it stops early only at a
   * failed call, which is then its last call.
   */
  lemma {:induction false} CopyRunBounds(env: Env, t: nat, size: nat, m: nat, ab: bool)
    requires WellBehaved(env) && m <= size
    decreases size - m
    ensures var run := CopyRun(env, t, size, m, ab);
            && m <= run.moved <= size && t <= run.end
            && (ab ==> run == Run(Finished, true, m, t, []))
            && (run.stop == Finished && !run.aborted ==> run.moved == size)
            && (run.stop != Finished ==> run.moved < size)
            && (run.stop == ReadStopped ==> LastReadFailed(env, t, run.end))
            && (run.stop == WriteStopped ==> LastWriteFailed(env, t, run.end))
            && (!ab && m < size ==> 0 < |run.polls| && ChunkAt(env, t + 1, size - m).end <= run.end)
            && (run.polls == [] ==> run.moved == m)
  {
    if m < size && !ab {
      var c := ChunkAt(env, t + 1, size - m);
      CopyRunUnfold(env, t, size, m);
      if c.outcome.Moved? {
        CopyRunBounds(env, c.end, size, m + c.outcome.bytes, env.Cancel(t));
      } else if c.outcome == WriteFailed {
        var n := env.ReadLen(t + 1, size - m);
        WritesAllFails(env, t + 2, n);
      }
    }
  }

  /**
   * The polls of `run`, a run from tick `t` with `m` bytes moved and the
   * abort flag at `ab`: one per turn, all within the run, each after one
   * more byte at least; only the last may find a cancel request, the abort
   * flag ends set exactly when it was set before or the last poll found
   * one, and the last turn moves at most a buffer.
   */
  ghost predicate RunPolls(env: Env, run: Run, t: nat, m: nat, ab: bool) {
    && (forall j :: 0 <= j < |run.polls| ==> t <= run.polls[j].at < run.end && m + j <= run.polls[j].movedBefore <= run.moved)
    && (forall j :: 0 <= j < |run.polls| - 1 ==> run.polls[j].movedBefore < run.moved && !env.Cancel(run.polls[j].at))
    && (0 < |run.polls| ==> run.moved <= run.polls[|run.polls| - 1].movedBefore + BufferSize)
    && run.aborted == (ab || LastPollCancels(env, run.polls))
  }

  /** The polls of a run that follows a turn at tick `t` which moved `n` bytes, with that turn's poll in front. */
  lemma RunPollsCons(env: Env, t: nat, m: nat, n: nat, rest: Run, e: nat)
    requires t < e && 1 <= n <= BufferSize
    requires RunPolls(env, rest, e, m + n, env.Cancel(t))
    requires env.Cancel(t) ==> rest.polls == []
    requires rest.polls == [] ==> rest.moved == m + n
    requires m + n <= rest.moved && e <= rest.end
    ensures RunPolls(env, Run(rest.stop, rest.aborted, rest.moved, rest.end, [Poll(t, m)] + rest.polls), t, m, false)
  {
    var ps := [Poll(t, m)] + rest.polls;
    assert forall j :: 1 <= j < |ps| ==> ps[j] == rest.polls[j - 1];
    if 0 < |rest.polls| {
      assert ps[|ps| - 1] == rest.polls[|rest.polls| - 1];
    }
  }

  /** The polls of every run are as `RunPolls` says. */
  lemma {:induction false} CopyRunPolls(env: Env, t: nat, size: nat, m: nat, ab: bool)
    requires WellBehaved(env) && m <= size
    decreases size - m
    ensures RunPolls(env, CopyRun(env, t, size, m, ab), t, m, ab)
  {
    if m < size && !ab {
      var c := ChunkAt(env, t + 1, size - m);
      if c.outcome.Moved? {
        var n := c.outcome.bytes;
        var rest := CopyRun(env, c.end, size, m + n, env.Cancel(t));
        CopyRunPolls(env, c.end, size, m + n, env.Cancel(t));
        CopyRunBounds(env, c.end, size, m + n, env.Cancel(t));
        RunPollsCons(env, t, m, n, rest, c.end);
        CopyRunUnfold(env, t, size, m);
      } else {
        var run := Run(if c.outcome == ReadFailed then ReadStopped else WriteStopped, env.Cancel(t), m, c.end, [Poll(t, m)]);
        assert RunPolls(env, run, t, m, false);
        CopyRunUnfold(env, t, size, m);
      }
    }
  }

  /** A chunk that meets no failure moves what its read returned. */
  lemma ChunkAtBenign(env: Env, t: nat, left: nat)
    requires WellBehaved(env) && 0 < left
    requires Benign(env, t, ChunkAt(env, t, left).end)
    ensures ChunkAt(env, t, left).outcome == Moved(env.ReadLen(t, left))
  {
    assert Calm(env, t);
    var n := env.ReadLen(t, left);
    assert Benign(env, t + 1, t + 1 + WriteCalls(env, t + 1, n));
    BenignWritesAll(env, t + 1, n);
  }

  /** A run from an unaborted state that meets no failure and no cancel request moves every byte and ends unaborted. */
  lemma {:induction false} CopyRunBenign(env: Env, t: nat, size: nat, m: nat)
    requires WellBehaved(env) && m <= size
    requires Benign(env, t, CopyRun(env, t, size, m, false).end)
    decreases size - m
    ensures CopyRun(env, t, size, m, false).stop == Finished && !CopyRun(env, t, size, m, false).aborted
  {
    if m < size {
      var c := ChunkAt(env, t + 1, size - m);
      var run := CopyRun(env, t, size, m, false);
      CopyRunBounds(env, t, size, m, false);
      assert Calm(env, t) && Benign(env, t + 1, c.end);
      ChunkAtBenign(env, t + 1, size - m);
      CopyRunUnfold(env, t, size, m);
      var rest := CopyRun(env, c.end, size, m + c.outcome.bytes, false);
      assert run.end == rest.end && run.stop == rest.stop && run.aborted == rest.aborted;
      CopyRunBenign(env, c.end, size, m + c.outcome.bytes);
    }
  }

  /**
   * What a whole copy run from tick `t` promises: the bounds of
   * `CopyRunBounds`, a poll log, the abort flag set exactly when it was set
   * before or the last poll found a cancel request, and success when
   * nothing fails and nobody cancels.
   */
  lemma CopyRunFacts(env: Env, t: nat, size: nat, ab: bool, dir: Direction)
    requires WellBehaved(env)
    ensures var run := CopyRun(env, t, size, 0, ab);
            var r := CopyResult(dir, run);
            && run.moved <= size && t <= run.end
            && (ab ==> run == Run(Finished, true, 0, t, []) && r == Err(Abrupted))
            && (r.Ok? ==> run.moved == size)
            && (r == Err(Abrupted) ==> run.aborted)
            && (r.Err? && r.error != Abrupted ==> run.moved < size && (r.error == ReadError(dir) || r.error == WriteError(dir)))
            && (r == Err(ReadError(dir)) ==> LastReadFailed(env, t, run.end))
            && (r == Err(WriteError(dir)) ==> LastWriteFailed(env, t, run.end))
            && (!ab && 0 < size ==> 0 < |run.polls|)
            && PollLog(env, run.polls, t, run.end, run.moved)
            && run.aborted == (ab || LastPollCancels(env, run.polls))
            && (!ab && Benign(env, t, run.end) ==> r.Ok?)
  {
    var run := CopyRun(env, t, size, 0, ab);
    CopyRunBounds(env, t, size, 0, ab);
    CopyRunPolls(env, t, size, 0, ab);
    if !ab && Benign(env, t, run.end) {
      CopyRunBenign(env, t, size, 0);
    }
  }

  /** Nothing fails and nobody cancels at tick `k`. */
  ghost predicate Calm(env: Env, k: nat) {
    && !env.Cancel(k)
    && env.OpenSource(k) && env.OpenDest(k) && env.SizeProbe(k) && env.Rewind(k)
    && env.ReadOk(k) && env.WriteOk(k)
    && env.Mkdir(k) != MkdirFailed
  }

  /** Nothing fails and nobody cancels from tick `lo` up to, not including, tick `hi`. */
  ghost predicate Benign(env: Env, lo: nat, hi: nat) {
    forall k :: lo <= k < hi ==> Calm(env, k)
  }

  /** `ProgressStates`, as its two counters. */
  datatype Progress = Progress(total: nat, transferred: nat)

  /**
   * The destination path of an entry below `curr`: one component more, the
   * new name when one is given, the entry's own name otherwise.
   */
  function DestPath(curr: Path, entry: Entry, dstName: Option<string>): (p: Path)
    ensures |p| == |curr| + 1 && p[..|curr|] == curr
    ensures dstName.Some? ==> p[|curr|] == dstName.value
    ensures dstName.None? ==> p[|curr|] == entry.Name()
  {
    curr + [if dstName.Some? then dstName.value else entry.Name()]
  }

  /**
   * The event a directory creation is reported with on upload: a directory
   * that already exists is not a failure.
   */
  function MkdirEvent(res: MkdirResult, path: Path): (ev: Event)
    ensures ev.path == path
    ensures ev.DirCreated? <==> res == MkdirOk
    ensures ev.DirExisted? <==> res == MkdirExists
    ensures ev.DirFailed? <==> res == MkdirFailed
  {
    match res
    case MkdirOk => DirCreated(path)
    case MkdirExists => DirExisted(path)
    case MkdirFailed => DirFailed(path)
  }

  /**
   * The event a directory creation is reported with on download: the local
   * directory is created with "already exists" counted as success.
   */
  function LocalMkdirEvent(res: MkdirResult, path: Path): (ev: Event)
    ensures ev.path == path
    ensures ev.DirFailed? <==> res == MkdirFailed
    ensures !ev.DirFailed? ==> ev == DirCreated(path)
  {
    if res == MkdirFailed then DirFailed(path) else DirCreated(path)
  }

  /**
   * The total a payload's transfer is sized at: the file's size, or the
   * total size of the entries (`get_total_transfer_size_local` and
   * `get_total_transfer_size_remote` on the same snapshot).
   */
  function PayloadSize(payload: TransferPayload): (n: nat)
    ensures payload.FilePayload? ==> n == payload.file.size
    ensures payload.Any? ==> n == Sum(FileSizes(payload.entry))
    ensures payload.Many? ==> n == Sum(ForestFileSizes(payload.entries))
  {
    match payload
    case FilePayload(file) => file.size
    case Any(entry) => TotalSize(entry)
    case Many(entries) => SumOfTotals(entries)
  }

  // -- properties of event segments

  /** A failed file is probed and removed exactly when its error calls for cleanup. */
  ghost predicate WellCleaned(evs: seq<Event>, dir: Direction) {
    forall i :: 0 <= i < |evs| && evs[i].TransferFailed? ==> (evs[i].cleanup != Kept <==> Cleans(dir, evs[i].reason))
  }

  /** Every event is about `root` or about an entry inside `e` named by its own name below `root`. */
  ghost predicate AllUnder(evs: seq<Event>, root: Path, e: Entry) {
    forall i :: 0 <= i < |evs| ==> Under(evs[i].path, root, e)
  }

  /** Every event is below `root`, under the name of one of the batch's entries. */
  ghost predicate AllInForest(evs: seq<Event>, root: Path, cs: seq<Entry>) {
    forall i :: 0 <= i < |evs| ==> |root| <= |evs[i].path| && evs[i].path[..|root|] == root && InForest(cs, evs[i].path[|root|..])
  }

  lemma WellCleanedConcat(a: seq<Event>, b: seq<Event>, dir: Direction)
    requires WellCleaned(a, dir) && WellCleaned(b, dir)
    ensures WellCleaned(a + b, dir)
  {
    forall i | 0 <= i < |a + b| && (a + b)[i].TransferFailed?
      ensures ((a + b)[i].cleanup != Kept <==> Cleans(dir, (a + b)[i].reason))
    {
      if i < |a| { assert (a + b)[i] == a[i]; } else { assert (a + b)[i] == b[i - |a|]; }
    }
  }

  lemma AllUnderConcat(a: seq<Event>, b: seq<Event>, root: Path, e: Entry)
    requires AllUnder(a, root, e) && AllUnder(b, root, e)
    ensures AllUnder(a + b, root, e)
  {
    forall i | 0 <= i < |a + b| ensures Under((a + b)[i].path, root, e) {
      if i < |a| { assert (a + b)[i] == a[i]; } else { assert (a + b)[i] == b[i - |a|]; }
    }
  }

  lemma AllInForestConcat(a: seq<Event>, b: seq<Event>, root: Path, cs: seq<Entry>)
    requires AllInForest(a, root, cs) && AllInForest(b, root, cs)
    ensures AllInForest(a + b, root, cs)
  {
    forall i | 0 <= i < |a + b|
      ensures |root| <= |(a + b)[i].path| && (a + b)[i].path[..|root|] == root && InForest(cs, (a + b)[i].path[|root|..])
    {
      if i < |a| { assert (a + b)[i] == a[i]; } else { assert (a + b)[i] == b[i - |a|]; }
    }
  }

  /** Events of a child of a listed directory, below the child's own name, are below the directory. */
  lemma AllUnderChild(evs: seq<Event>, root: Path, e: Entry, i: nat)
    requires e.Directory? && e.listing.Listed? && i < |e.listing.entries|
    requires AllUnder(evs, root + [e.listing.entries[i].Name()], e.listing.entries[i])
    ensures AllUnder(evs, root, e)
  {
    forall j | 0 <= j < |evs| ensures Under(evs[j].path, root, e) {
      UnderChild(evs[j].path, root, e, i);
    }
  }

  /** Events of an entry of a batch, below the entry's own name, are in the batch's forest. */
  lemma AllInForestEntry(evs: seq<Event>, root: Path, cs: seq<Entry>, i: nat)
    requires i < |cs|
    requires AllUnder(evs, root + [cs[i].Name()], cs[i])
    ensures AllInForest(evs, root, cs)
  {
    forall j | 0 <= j < |evs|
      ensures |root| <= |evs[j].path| && evs[j].path[..|root|] == root && InForest(cs, evs[j].path[|root|..])
    {
      UnderBatchEntry(evs[j].path, root, cs, i);
    }
  }

  /** No abort alert among `evs`. */
  ghost predicate Quiet(evs: seq<Event>) {
    forall i :: 0 <= i < |evs| ==> !evs[i].AbortReported?
  }

  lemma QuietConcat(a: seq<Event>, b: seq<Event>)
    requires Quiet(a) && Quiet(b)
    ensures Quiet(a + b)
  {
    forall i | 0 <= i < |a + b| ensures !(a + b)[i].AbortReported? {
      if i < |a| { assert (a + b)[i] == a[i]; } else { assert (a + b)[i] == b[i - |a|]; }
    }
  }

  /** Once an abort alert is logged, only abort alerts follow it. */
  ghost predicate StopsAfterAbort(evs: seq<Event>) {
    forall i, j :: 0 <= i < j < |evs| && evs[i].AbortReported? ==> evs[j].AbortReported?
  }

  lemma QuietStops(evs: seq<Event>)
    requires Quiet(evs)
    ensures StopsAfterAbort(evs)
  {
  }

  /** Events with no abort alert, then events that stop after an abort, stop after an abort. */
  lemma StopsAfterQuiet(a: seq<Event>, b: seq<Event>)
    requires Quiet(a) && StopsAfterAbort(b)
    ensures StopsAfterAbort(a + b)
  {
    forall i, j | 0 <= i < j < |a + b| && (a + b)[i].AbortReported?
      ensures (a + b)[j].AbortReported?
    {
      assert forall k :: 0 <= k < |a| ==> (a + b)[k] == a[k];
      assert (a + b)[i] == b[i - |a|] && (a + b)[j] == b[j - |a|];
    }
  }

  /** An abort alert can always close events that stop after an abort. */
  lemma StopsThenAbort(a: seq<Event>, path: Path)
    requires StopsAfterAbort(a)
    ensures StopsAfterAbort(a + [AbortReported(path)])
  {
    var b := a + [AbortReported(path)];
    forall i, j | 0 <= i < j < |b| && b[i].AbortReported?
      ensures b[j].AbortReported?
    {
      if j < |a| { assert b[i] == a[i] && b[j] == a[j]; }
    }
  }

  /**
   * The events of a directory walk so far (with no abort alert), followed by
   * the events of one more entry's walk below the same directory.
   */
  lemma WalkStep(a: seq<Event>, b: seq<Event>, dir: Direction, root: Path, e: Entry)
    requires WellCleaned(a, dir) && WellCleaned(b, dir)
    requires AllUnder(a, root, e) && AllUnder(b, root, e)
    requires Quiet(a) && StopsAfterAbort(b)
    ensures WellCleaned(a + b, dir) && AllUnder(a + b, root, e) && StopsAfterAbort(a + b)
    ensures Quiet(b) ==> Quiet(a + b)
    ensures EndsWithAbort(b) ==> EndsWithAbort(a + b)
  {
    WellCleanedConcat(a, b, dir);
    AllUnderConcat(a, b, root, e);
    StopsAfterQuiet(a, b);
    if Quiet(b) {
      QuietConcat(a, b);
    }
    if EndsWithAbort(b) {
      EndsWithAbortConcat(a, b);
    }
  }

  /** The last of `evs` is an abort alert. */
  ghost predicate EndsWithAbort(evs: seq<Event>) {
    |evs| > 0 && evs[|evs| - 1].AbortReported?
  }

  lemma EndsWithAbortConcat(a: seq<Event>, b: seq<Event>)
    requires EndsWithAbort(b)
    ensures EndsWithAbort(a + b)
  {
    assert (a + b)[|a + b| - 1] == b[|b| - 1];
  }

  /** An event about `root` itself is below `root`. */
  lemma AtRoot(ev: Event, root: Path, e: Entry)
    requires ev.path == root
    ensures AllUnder([ev], root, e)
  {
    assert [ev][0].path[|root|..] == [];
  }

  lemma AppendSlice(a: seq<Event>, n: nat, x: seq<Event>)
    requires n <= |a|
    ensures (a + x)[n..] == a[n..] + x
    ensures (a + x)[..n] == a[..n]
  {
  }

  /** Events that are all about `root` itself are below `root`. */
  lemma AllAtRoot(evs: seq<Event>, root: Path, e: Entry)
    requires forall i :: 0 <= i < |evs| ==> evs[i].path == root
    ensures AllUnder(evs, root, e)
  {
    forall i | 0 <= i < |evs| ensures Under(evs[i].path, root, e) {
      assert evs[i].path[|root|..] == [];
    }
  }

  /** A benign window is benign on every part of it. */
  lemma BenignSplit(env: Env, lo: nat, mid: nat, hi: nat)
    requires lo <= mid <= hi && Benign(env, lo, hi)
    ensures Benign(env, lo, mid) && Benign(env, mid, hi)
  {
  }

  // -- the engine

  /** The transfer state of the file transfer activity, with the environment it runs in. */
  class Engine {
    const env: Env
    var tick: nat
    var aborted: bool
    var partial: Progress
    var full: Progress
    var events: seq<Event>

    ghost predicate Valid()
      reads this
    {
      WellBehaved(env) && partial.transferred <= partial.total
    }

    constructor (env: Env)
      requires WellBehaved(env)
      ensures Valid() && this.env == env
      ensures tick == 0 && !aborted && events == []
      ensures partial == Progress(0, 0) && full == Progress(0, 0)
    {
      this.env := env;
      tick, aborted, events := 0, false, [];
      partial, full := Progress(0, 0), Progress(0, 0);
    }

    /** `TransferStates::reset`: clears the abort flag and both counters. */
    method Reset()
      requires Valid()
      modifies this
      ensures Valid()
      ensures !aborted && partial == Progress(0, 0) && full == Progress(0, 0)
      ensures tick == old(tick) && events == old(events)
    {
      aborted := false;
      partial, full := Progress(0, 0), Progress(0, 0);
    }

    /** `read_input_event`: a poll of the user's input; a cancel request sets the flag, which never clears. */
    method ReadInputEvent()
      modifies this
      ensures aborted == (old(aborted) || env.Cancel(old(tick)))
      ensures tick == old(tick) + 1
      ensures partial == old(partial) && full == old(full) && events == old(events)
    {
      aborted := aborted || env.Cancel(tick);
      tick := tick + 1;
    }

    /**
     * The inner loop of the copy: write a chunk of `len` bytes out, the
     * destination taking as many bytes per call as it accepts, until all are
     * written or a write fails. It succeeds exactly when all `len` bytes
     * are written, after as many calls as that takes.
     */
    method WriteChunk(len: nat) returns (written: bool)
      requires Valid()
      modifies this
      ensures Valid() && old(tick) <= tick
      ensures aborted == old(aborted) && partial == old(partial) && full == old(full) && events == old(events)
      ensures written == WritesAll(env, old(tick), len)
      ensures tick == old(tick) + WriteCalls(env, old(tick), len)
      ensures !written ==> old(tick) < tick && !env.WriteOk(tick - 1)
      ensures !written ==> !Benign(env, old(tick), tick)
    {
      var delta: nat := 0;
      while delta < len
        invariant delta <= len && old(tick) <= tick
        invariant aborted == old(aborted) && partial == old(partial) && full == old(full) && events == old(events)
        invariant WritesAll(env, tick, len - delta) == WritesAll(env, old(tick), len)
        invariant tick - old(tick) + WriteCalls(env, tick, len - delta) == WriteCalls(env, old(tick), len)
        decreases len - delta
      {
        var writeOk, bytes := env.WriteOk(tick), env.WriteLen(tick, len - delta);
        tick := tick + 1;
        if !writeOk {
          assert !Calm(env, tick - 1);
          return false;
        }
        delta := delta + bytes;
      }
      return true;
    }

    /**
     * One read of the copy loop, with `left` bytes still to read: read a
     * chunk, then write all of it out. A chunk that is moved was written in
     * full.
     */
    method MoveChunk(left: nat) returns (outcome: ChunkOutcome)
      requires Valid() && 0 < left
      modifies this
      ensures Valid() && old(tick) < tick
      ensures aborted == old(aborted) && partial == old(partial) && full == old(full) && events == old(events)
      ensures outcome == ReadFailed <==> !env.ReadOk(old(tick))
      ensures outcome == ReadFailed ==> tick == old(tick) + 1
      ensures outcome == WriteFailed ==> !env.WriteOk(tick - 1)
      ensures outcome == WriteFailed <==> env.ReadOk(old(tick)) && !WritesAll(env, old(tick) + 1, env.ReadLen(old(tick), left))
      ensures outcome != ReadFailed ==> tick == old(tick) + 1 + WriteCalls(env, old(tick) + 1, env.ReadLen(old(tick), left))
      ensures outcome.Moved? ==> && outcome.bytes == env.ReadLen(old(tick), left)
                                 && 1 <= outcome.bytes <= left && outcome.bytes <= BufferSize
                                 && WritesAll(env, old(tick) + 1, outcome.bytes)
      ensures !outcome.Moved? ==> !Benign(env, old(tick), tick)
      ensures outcome == ChunkAt(env, old(tick), left).outcome && tick == ChunkAt(env, old(tick), left).end
    {
      var readOk, bytesRead := env.ReadOk(tick), env.ReadLen(tick, left);
      tick := tick + 1;
      if !readOk {
        assert !Calm(env, tick - 1);
        return ReadFailed;
      }
      ghost var t := tick;
      var written := WriteChunk(bytesRead);
      if !written {
        assert Benign(env, old(tick), tick) ==> Benign(env, t, tick);
        return WriteFailed;
      }
      return Moved(bytesRead);
    }

    /**
     * One turn of the copy loop of a `size`-byte copy with `moved` bytes
     * moved so far: poll the input, move a chunk, and add it to both
     * counters (`full` had reached `base` when the copy began). The poll is
     * added to the copy's `polls`.
     */
    method CopyTurn(size: nat, moved: nat, ghost base: nat, ghost polls: seq<Poll>)
        returns (outcome: ChunkOutcome, moved': nat, ghost polls': seq<Poll>)
      requires Valid() && !aborted && moved < size
      requires partial == Progress(size, moved) && full.transferred == base + moved
      modifies this
      ensures Valid() && old(tick) < tick && events == old(events)
      ensures moved <= moved' <= size
      ensures partial == Progress(size, moved') && full == Progress(old(full.total), base + moved')
      ensures polls' == polls + [Poll(old(tick), moved)]
      ensures aborted == env.Cancel(old(tick))
      ensures outcome == ChunkAt(env, old(tick) + 1, size - moved).outcome && tick == ChunkAt(env, old(tick) + 1, size - moved).end
      ensures outcome.Moved? ==> && moved' - moved == outcome.bytes == env.ReadLen(old(tick) + 1, size - moved)
                                 && WritesAll(env, old(tick) + 2, outcome.bytes)
      ensures !outcome.Moved? ==> moved' == moved
      ensures outcome.Moved? ==>
                Resume(polls', CopyRun(env, tick, size, moved', aborted)) == Resume(polls, CopyRun(env, old(tick), size, moved, false))
      ensures !outcome.Moved? ==>
                Resume(polls, CopyRun(env, old(tick), size, moved, false))
                == Run(if outcome == ReadFailed then ReadStopped else WriteStopped, aborted, moved, tick, polls')
    {
      ghost var t := tick;
      polls' := polls + [Poll(t, moved)];
      ReadInputEvent();
      outcome := MoveChunk(size - moved);
      moved' := moved;
      if outcome.Moved? {
        moved' := moved + outcome.bytes;
        partial := Progress(partial.total, partial.transferred + outcome.bytes);
        full := Progress(full.total, full.transferred + outcome.bytes);
      }
      CopyRunTurn(env, t, size, moved, polls, outcome, tick, aborted);
    }

    /**
     * The copy loop of `filetransfer_send_one` and `filetransfer_recv_one`:
     * while fewer than `size` bytes were read and no abort was seen, poll the
     * input, read a chunk, write all of it, then add it to both counters.
     * An abort seen once the loop is over is reported as `Abrupted`. What it
     * returns, the bytes it moves, the polls it makes and where it leaves the
     * tick and the abort flag are those of `CopyRun`.
     */
    method CopyStream(dir: Direction, size: nat) returns (r: Result<(), TransferErrorReason>, moved: nat, ghost polls: seq<Poll>)
      requires Valid()
      requires partial == Progress(size, 0)
      modifies this
      ensures Valid() && events == old(events) && old(tick) <= tick
      ensures var run := CopyRun(env, old(tick), size, 0, old(aborted));
              && r == CopyResult(dir, run) && moved == run.moved && polls == run.polls
              && tick == run.end && aborted == run.aborted
      ensures moved <= size
      ensures partial == Progress(size, moved)
      ensures full == Progress(old(full.total), old(full.transferred) + moved)
    {
      moved := 0;
      polls := [];
      assert Resume(polls, CopyRun(env, tick, size, moved, aborted)) == CopyRun(env, old(tick), size, 0, old(aborted));
      while moved < size && !aborted
        invariant Valid() && events == old(events) && old(tick) <= tick
        invariant moved <= size
        invariant partial == Progress(size, moved)
        invariant full == Progress(old(full.total), old(full.transferred) + moved)
        invariant Resume(polls, CopyRun(env, tick, size, moved, aborted)) == CopyRun(env, old(tick), size, 0, old(aborted))
        decreases size - moved
      {
        var outcome;
        outcome, moved, polls := CopyTurn(size, moved, old(full.transferred), polls);
        match outcome {
          case ReadFailed => return Err(ReadError(dir)), moved, polls;
          case WriteFailed => return Err(WriteError(dir)), moved, polls;
          case Moved(_) =>
        }
      }
      assert polls + [] == polls;
      if aborted {
        return Err(Abrupted), moved, polls;
      }
      return Ok(()), moved, polls;
    }

    /**
     * The report of a failed file in the walks: when the error calls for it,
     * probe for the partially written destination file and remove it if
     * found; then log the failure with what the cleanup did.
     */
    method ReportFailure(dir: Direction, path: Path, res: Result<(), TransferErrorReason>)
      modifies this
      ensures events == old(events) + (if res.Ok? then [] else [TransferFailed(path, res.error, CleanupAfter(dir, res.error, env.Stat(old(tick))))])
      ensures tick == old(tick) + (if res.Err? && Cleans(dir, res.error) then 1 else 0)
      ensures aborted == old(aborted) && partial == old(partial) && full == old(full)
    {
      if res.Err? {
        var cleanup := Kept;
        if Cleans(dir, res.error) {
          var found := env.Stat(tick);
          tick := tick + 1;
          cleanup := if found then Removed else ProbeFailed;
        }
        events := events + [TransferFailed(path, res.error, cleanup)];
      }
    }

    /**
     * `filetransfer_send_one`: open the local file, open the remote stream,
     * then send through them (`UploadStream`).
     */
    method SendOne(local: FsFile, remote: Path) returns (r: Result<(), TransferErrorReason>, ghost size: nat, ghost polls: seq<Poll>)
      requires Valid()
      modifies this
      ensures Valid() && old(tick) < tick
      ensures size == if env.SizeProbe(old(tick) + 2) then local.size else 0
      ensures full.total == old(full.total)
      ensures old(full.transferred) <= full.transferred <= old(full.transferred) + local.size
      ensures PollLog(env, polls, old(tick), tick, full.transferred - old(full.transferred))
      ensures aborted == (old(aborted) || LastPollCancels(env, polls))
      ensures old(aborted) ==> aborted && full.transferred == old(full.transferred) && r.Err?
      ensures r.Ok? ==> && !aborted
                        && partial.total == (if env.SizeProbe(old(tick) + 2) then local.size else 0)
                        && partial.transferred == partial.total
                        && full.transferred == old(full.transferred) + partial.total
      ensures r == Err(HostError) <==> !env.OpenSource(old(tick))
      ensures r == Err(FileTransferError) <==> env.OpenSource(old(tick)) && !env.OpenDest(old(tick) + 1)
      ensures r == Err(CouldNotRewind) <==> env.OpenSource(old(tick)) && env.OpenDest(old(tick) + 1) && !env.Rewind(old(tick) + 3)
      ensures r == Err(LocalIoError) ==> old(tick) < tick && !env.ReadOk(tick - 1)
      ensures r == Err(RemoteIoError) ==> old(tick) < tick && !env.WriteOk(tick - 1)
      ensures r == Err(Abrupted) ==> aborted
      ensures events == old(events) + (if r == Err(HostError) || r == Err(FileTransferError) then [] else [Opened(remote)])
                                    + (if r.Ok? then [Saved(remote)] else [])
      ensures !old(aborted) && Benign(env, old(tick), tick) ==> r.Ok? && full.transferred == old(full.transferred) + local.size
      ensures env.OpenSource(old(tick)) && env.OpenDest(old(tick) + 1) && env.Rewind(old(tick) + 3) ==>
                var run := CopyRun(env, old(tick) + 4, size, 0, old(aborted));
                && r == CopyResult(Upload, run) && full.transferred == old(full.transferred) + run.moved
                && polls == run.polls && tick == run.end && aborted == run.aborted
    {
      var sourceOpen := env.OpenSource(tick);
      tick := tick + 1;
      if !sourceOpen {
        assert !Calm(env, tick - 1);
        return Err(HostError), if env.SizeProbe(old(tick) + 2) then local.size else 0, [];
      }
      var destOpen := env.OpenDest(tick);
      tick := tick + 1;
      if !destOpen {
        assert !Calm(env, tick - 1);
        return Err(FileTransferError), if env.SizeProbe(old(tick) + 2) then local.size else 0, [];
      }
      ghost var t := tick;
      r, size, polls := UploadStream(local, remote, old(tick) + 4);
      assert Benign(env, old(tick), tick) ==> Benign(env, t, tick);
    }

    /**
     * The upload through open streams in `filetransfer_send_one`: take the
     * size from the local file (0 when that fails), rewind, copy.
     */
    method UploadStream(local: FsFile, remote: Path, ghost from: nat) returns (r: Result<(), TransferErrorReason>, ghost size: nat, ghost polls: seq<Poll>)
      requires Valid() && from == tick + 2
      modifies this
      ensures Valid() && old(tick) < tick
      ensures size == if env.SizeProbe(old(tick)) then local.size else 0
      ensures full.total == old(full.total)
      ensures old(full.transferred) <= full.transferred <= old(full.transferred) + local.size
      ensures PollLog(env, polls, old(tick), tick, full.transferred - old(full.transferred))
      ensures aborted == (old(aborted) || LastPollCancels(env, polls))
      ensures old(aborted) ==> aborted && full.transferred == old(full.transferred) && r.Err?
      ensures r.Ok? ==> && !aborted
                        && partial.total == (if env.SizeProbe(old(tick)) then local.size else 0)
                        && partial.transferred == partial.total
                        && full.transferred == old(full.transferred) + partial.total
      ensures r.Err? ==> r.error in {CouldNotRewind, LocalIoError, RemoteIoError, Abrupted}
      ensures r == Err(CouldNotRewind) <==> !env.Rewind(old(tick) + 1)
      ensures r == Err(LocalIoError) ==> !env.ReadOk(tick - 1)
      ensures r == Err(RemoteIoError) ==> !env.WriteOk(tick - 1)
      ensures r == Err(Abrupted) ==> aborted
      ensures events == old(events) + [Opened(remote)] + (if r.Ok? then [Saved(remote)] else [])
      ensures !old(aborted) && Benign(env, old(tick), tick) ==> r.Ok? && full.transferred == old(full.transferred) + local.size
      ensures env.Rewind(old(tick) + 1) ==>
                var run := CopyRun(env, from, size, 0, old(aborted));
                && r == CopyResult(Upload, run) && full.transferred == old(full.transferred) + run.moved
                && polls == run.polls && tick == run.end && aborted == run.aborted
    {
      var fileSize := if env.SizeProbe(tick) then local.size else 0;
      size := fileSize;
      events := events + [Opened(remote)];
      tick := tick + 1;
      partial := Progress(fileSize, 0);
      ghost var t := tick;
      r, polls := RewindAndCopy(fileSize, remote, from);
      PollLogFrom(env, polls, old(tick), t, tick, full.transferred - old(full.transferred));
      assert Benign(env, old(tick), tick) ==> Benign(env, t, tick) && Calm(env, old(tick));
    }

    /** The end of `filetransfer_send_one`: rewind the local file, then copy it (`CopyAndSave`). */
    method RewindAndCopy(size: nat, remote: Path, ghost from: nat) returns (r: Result<(), TransferErrorReason>, ghost polls: seq<Poll>)
      requires Valid() && from == tick + 1
      requires partial == Progress(size, 0)
      modifies this
      ensures Valid() && old(tick) < tick
      ensures full.total == old(full.total)
      ensures old(full.transferred) <= full.transferred <= old(full.transferred) + size
      ensures PollLog(env, polls, old(tick), tick, full.transferred - old(full.transferred))
      ensures aborted == (old(aborted) || LastPollCancels(env, polls))
      ensures old(aborted) ==> aborted && full.transferred == old(full.transferred) && r.Err?
      ensures r.Ok? ==> !aborted && partial == Progress(size, size) && full.transferred == old(full.transferred) + size
      ensures r.Err? ==> r.error in {CouldNotRewind, LocalIoError, RemoteIoError, Abrupted}
      ensures r == Err(CouldNotRewind) <==> !env.Rewind(old(tick))
      ensures r == Err(LocalIoError) ==> !env.ReadOk(tick - 1)
      ensures r == Err(RemoteIoError) ==> !env.WriteOk(tick - 1)
      ensures r == Err(Abrupted) ==> aborted
      ensures events == old(events) + (if r.Ok? then [Saved(remote)] else [])
      ensures !old(aborted) && Benign(env, old(tick), tick) ==> r.Ok?
      ensures env.Rewind(old(tick)) ==>
                var run := CopyRun(env, from, size, 0, old(aborted));
                && r == CopyResult(Upload, run) && full.transferred == old(full.transferred) + run.moved
                && polls == run.polls && tick == run.end && aborted == run.aborted
    {
      var rewound := env.Rewind(tick);
      tick := tick + 1;
      if !rewound {
        assert !Calm(env, tick - 1);
        return Err(CouldNotRewind), [];
      }
      ghost var t := tick;
      r, polls := CopyAndSave(Upload, size, remote, from);
      assert ReadError(Upload) == LocalIoError && WriteError(Upload) == RemoteIoError;
      PollLogFrom(env, polls, old(tick), t, tick, full.transferred - old(full.transferred));
      assert Benign(env, old(tick), tick) ==> Benign(env, t, tick) && Calm(env, old(tick));
    }

    /**
     * The copy loop of `filetransfer_send_one` or `filetransfer_recv_one`
     * (`CopyStream`), then, when it succeeded, the log line of the saved file.
     */
    method CopyAndSave(dir: Direction, size: nat, dest: Path, ghost from: nat) returns (r: Result<(), TransferErrorReason>, ghost polls: seq<Poll>)
      requires Valid() && from == tick
      requires partial == Progress(size, 0)
      modifies this
      ensures Valid() && old(tick) <= tick
      ensures var run := CopyRun(env, from, size, 0, old(aborted));
              && r == CopyResult(dir, run) && full.transferred == old(full.transferred) + run.moved
              && polls == run.polls && tick == run.end && aborted == run.aborted
      ensures full.total == old(full.total)
      ensures old(full.transferred) <= full.transferred <= old(full.transferred) + size
      ensures PollLog(env, polls, old(tick), tick, full.transferred - old(full.transferred))
      ensures aborted == (old(aborted) || LastPollCancels(env, polls))
      ensures old(aborted) ==> aborted && full.transferred == old(full.transferred) && r.Err?
      ensures r.Ok? ==> !aborted && partial == Progress(size, size) && full.transferred == old(full.transferred) + size
      ensures r.Err? ==> r.error in {ReadError(dir), WriteError(dir), Abrupted}
      ensures r == Err(ReadError(dir)) ==> old(tick) < tick && !env.ReadOk(tick - 1)
      ensures r == Err(WriteError(dir)) ==> old(tick) < tick && !env.WriteOk(tick - 1)
      ensures r == Err(Abrupted) ==> aborted
      ensures events == old(events) + (if r.Ok? then [Saved(dest)] else [])
      ensures !old(aborted) && Benign(env, old(tick), tick) ==> r.Ok?
    {
      CopyRunFacts(env, from, size, old(aborted), dir);
      var moved;
      r, moved, polls := CopyStream(dir, size);
      if r.Ok? {
        events := events + [Saved(dest)];
      }
    }

    /**
     * `filetransfer_recv_one`: open the local file for writing, then
     * receive into it (`DownloadStream`).
     */
    method RecvOne(local: Path, remote: FsFile) returns (r: Result<(), TransferErrorReason>, ghost polls: seq<Poll>)
      requires Valid()
      modifies this
      ensures Valid() && old(tick) < tick
      ensures full.total == old(full.total)
      ensures old(full.transferred) <= full.transferred <= old(full.transferred) + remote.size
      ensures PollLog(env, polls, old(tick), tick, full.transferred - old(full.transferred))
      ensures aborted == (old(aborted) || LastPollCancels(env, polls))
      ensures old(aborted) ==> aborted && full.transferred == old(full.transferred) && r.Err?
      ensures r.Ok? ==> !aborted && partial == Progress(remote.size, remote.size)
                        && full.transferred == old(full.transferred) + remote.size
      ensures r == Err(HostError) <==> !env.OpenDest(old(tick))
      ensures r == Err(FileTransferError) <==> env.OpenDest(old(tick)) && !env.OpenSource(old(tick) + 1)
      ensures r != Err(CouldNotRewind)
      ensures r == Err(RemoteIoError) ==> old(tick) < tick && !env.ReadOk(tick - 1)
      ensures r == Err(LocalIoError) ==> old(tick) < tick && !env.WriteOk(tick - 1)
      ensures r == Err(Abrupted) ==> aborted
      ensures events == old(events) + (if r == Err(HostError) then [] else [Opened(local)])
                                    + (if r.Ok? then [Saved(local)] else [])
      ensures !old(aborted) && Benign(env, old(tick), tick) ==> r.Ok?
      ensures env.OpenDest(old(tick)) && env.OpenSource(old(tick) + 1) ==>
                var run := CopyRun(env, old(tick) + 2, remote.size, 0, old(aborted));
                && r == CopyResult(Download, run) && full.transferred == old(full.transferred) + run.moved
                && polls == run.polls && tick == run.end && aborted == run.aborted
    {
      var destOpen := env.OpenDest(tick);
      tick := tick + 1;
      if !destOpen {
        assert !Calm(env, tick - 1);
        return Err(HostError), [];
      }
      events := events + [Opened(local)];
      ghost var t := tick;
      r, polls := DownloadStream(local, remote, old(tick) + 2);
      PollLogFrom(env, polls, old(tick), t, tick, full.transferred - old(full.transferred));
      assert Benign(env, old(tick), tick) ==> Benign(env, t, tick) && Calm(env, old(tick));
    }

    /**
     * The download in `filetransfer_recv_one` once the local file is open:
     * open the remote stream, then copy as many bytes as the remote entry's
     * size.
     */
    method DownloadStream(local: Path, remote: FsFile, ghost from: nat) returns (r: Result<(), TransferErrorReason>, ghost polls: seq<Poll>)
      requires Valid() && from == tick + 1
      modifies this
      ensures Valid() && old(tick) < tick
      ensures full.total == old(full.total)
      ensures old(full.transferred) <= full.transferred <= old(full.transferred) + remote.size
      ensures PollLog(env, polls, old(tick), tick, full.transferred - old(full.transferred))
      ensures aborted == (old(aborted) || LastPollCancels(env, polls))
      ensures old(aborted) ==> aborted && full.transferred == old(full.transferred) && r.Err?
      ensures r.Ok? ==> !aborted && partial == Progress(remote.size, remote.size)
                        && full.transferred == old(full.transferred) + remote.size
      ensures r.Err? ==> r.error in {FileTransferError, RemoteIoError, LocalIoError, Abrupted}
      ensures r == Err(FileTransferError) <==> !env.OpenSource(old(tick))
      ensures r == Err(RemoteIoError) ==> !env.ReadOk(tick - 1)
      ensures r == Err(LocalIoError) ==> !env.WriteOk(tick - 1)
      ensures r == Err(Abrupted) ==> aborted
      ensures events == old(events) + (if r.Ok? then [Saved(local)] else [])
      ensures !old(aborted) && Benign(env, old(tick), tick) ==> r.Ok?
      ensures env.OpenSource(old(tick)) ==>
                var run := CopyRun(env, from, remote.size, 0, old(aborted));
                && r == CopyResult(Download, run) && full.transferred == old(full.transferred) + run.moved
                && polls == run.polls && tick == run.end && aborted == run.aborted
    {
      var sourceOpen := env.OpenSource(tick);
      tick := tick + 1;
      if !sourceOpen {
        assert !Calm(env, tick - 1);
        return Err(FileTransferError), [];
      }
      partial := Progress(remote.size, 0);
      ghost var t := tick;
      r, polls := CopyAndSave(Download, remote.size, local, from);
      assert ReadError(Download) == RemoteIoError && WriteError(Download) == LocalIoError;
      PollLogFrom(env, polls, old(tick), t, tick, full.transferred - old(full.transferred));
      assert Benign(env, old(tick), tick) ==> Benign(env, t, tick) && Calm(env, old(tick));
    }

    /**
     * `filetransfer_send_recurse`: send one entry to `DestPath(currRemotePath,
     * entry, dstName)`, then report an abort if one has been requested.
     */
    method SendRecurse(entry: Entry, currRemotePath: Path, dstName: Option<string>)
      requires Valid()
      modifies this
      decreases entry, 4
      ensures Valid() && old(tick) <= tick
      ensures full.total == old(full.total)
      ensures old(full.transferred) <= full.transferred <= old(full.transferred) + TotalSize(entry)
      ensures old(aborted) ==> aborted && full.transferred == old(full.transferred)
      ensures !old(aborted) && Benign(env, old(tick), tick) ==>
                !aborted && full.transferred == old(full.transferred) + TotalSize(entry)
      ensures |old(events)| < |events| && events[..|old(events)|] == old(events)
      ensures WellCleaned(events[|old(events)|..], Upload)
      ensures AllUnder(events[|old(events)|..], DestPath(currRemotePath, entry, dstName), entry)
      ensures !aborted ==> Quiet(events[|old(events)|..])
      ensures StopsAfterAbort(events[|old(events)|..])
      ensures events[|old(events)|].path == DestPath(currRemotePath, entry, dstName)
      ensures entry.File? ==>
                && old(tick) < tick
                && events == old(events) + FileLog(Upload, DestPath(currRemotePath, entry, dstName),
                                                   UploadResult(env, old(tick), entry.file, old(aborted)), env.Stat(tick - 1))
                                         + (if aborted then [AbortReported(DestPath(currRemotePath, entry, dstName))] else [])
      ensures entry.Directory? && env.Mkdir(old(tick)) != MkdirFailed && entry.listing.Listed? && !aborted ==>
                |old(events)| + 1 + |entry.listing.entries| <= |events|
      ensures entry.Directory? ==>
                events[|old(events)|] == MkdirEvent(env.Mkdir(old(tick)), DestPath(currRemotePath, entry, dstName))
      ensures entry.Directory? && env.Mkdir(old(tick)) != MkdirFailed && entry.listing.ListFailed? ==>
                events == old(events) + [MkdirEvent(env.Mkdir(old(tick)), DestPath(currRemotePath, entry, dstName)),
                                         ScanFailed(DestPath(currRemotePath, entry, dstName))]
                                      + (if aborted then [AbortReported(DestPath(currRemotePath, entry, dstName))] else [])
                && aborted == old(aborted) && full == old(full)
      ensures entry.Directory? && env.Mkdir(old(tick)) == MkdirFailed ==>
                events == old(events) + [DirFailed(DestPath(currRemotePath, entry, dstName))]
                && aborted == old(aborted) && full == old(full)
      ensures aborted && !(entry.Directory? && env.Mkdir(old(tick)) == MkdirFailed) ==>
                events[|events| - 1] == AbortReported(DestPath(currRemotePath, entry, dstName))
      ensures entry.Directory? && old(aborted) && env.Mkdir(old(tick)) != MkdirFailed ==>
                events == old(events) + [MkdirEvent(env.Mkdir(old(tick)), DestPath(currRemotePath, entry, dstName))]
                                      + (if entry.listing.ListFailed? then [ScanFailed(DestPath(currRemotePath, entry, dstName))] else [])
                                      + [AbortReported(DestPath(currRemotePath, entry, dstName))]
    {
      var remotePath := DestPath(currRemotePath, entry, dstName);
      match entry {
        case File(file) =>
          var _ := SendFileEntry(file, remotePath);
          AllAtRoot(events[|old(events)|..], remotePath, entry);
        case Directory(_, _) =>
          var created := SendDirectory(entry, remotePath);
          ghost var before := events;
          if created && aborted {
            events := events + [AbortReported(remotePath)];
            AppendSlice(before, |old(events)|, [AbortReported(remotePath)]);
            AtRoot(AbortReported(remotePath), remotePath, entry);
            WellCleanedConcat(before[|old(events)|..], [AbortReported(remotePath)], Upload);
            AllUnderConcat(before[|old(events)|..], [AbortReported(remotePath)], remotePath, entry);
            StopsThenAbort(before[|old(events)|..], remotePath);
          }
      }
    }

    /**
     * The file arm of `filetransfer_send_recurse`: a failed upload is
     * reported, and when the error is an abort or a remote I/O error the
     * remote file is looked up and removed; then an abort is alerted if
     * one has been requested.
     */
    method SendFileEntry(file: FsFile, remotePath: Path) returns (res: Result<(), TransferErrorReason>)
      requires Valid()
      modifies this
      ensures Valid() && old(tick) < tick
      ensures res == UploadResult(env, old(tick), file, old(aborted))
      ensures events == old(events) + FileLog(Upload, remotePath, res, env.Stat(tick - 1))
                                    + (if aborted then [AbortReported(remotePath)] else [])
      ensures res == Err(HostError) <==> !env.OpenSource(old(tick))
      ensures res == Err(FileTransferError) <==> env.OpenSource(old(tick)) && !env.OpenDest(old(tick) + 1)
      ensures res == Err(CouldNotRewind) <==> env.OpenSource(old(tick)) && env.OpenDest(old(tick) + 1) && !env.Rewind(old(tick) + 3)
      ensures res == Err(LocalIoError) ==> !env.ReadOk(tick - 1)
      ensures res == Err(RemoteIoError) ==> old(tick) + 1 < tick && !env.WriteOk(tick - 2)
      ensures res == Err(Abrupted) ==> aborted
      ensures full.total == old(full.total)
      ensures old(full.transferred) <= full.transferred <= old(full.transferred) + file.size
      ensures old(aborted) ==> aborted && full.transferred == old(full.transferred)
      ensures !old(aborted) && Benign(env, old(tick), tick) ==>
                !aborted && full.transferred == old(full.transferred) + file.size
      ensures |old(events)| < |events| && events[..|old(events)|] == old(events)
      ensures WellCleaned(events[|old(events)|..], Upload)
      ensures forall k :: |old(events)| <= k < |events| ==> events[k].path == remotePath
      ensures !aborted ==> Quiet(events[|old(events)|..])
      ensures StopsAfterAbort(events[|old(events)|..])
      ensures aborted ==> events[|events| - 1] == AbortReported(remotePath)
    {
      res := SendOneReported(file, remotePath);
      FileLogAfter(old(events), Upload, remotePath, res, env.Stat(tick - 1));
      QuietStops(events[|old(events)|..]);
      ghost var before := events;
      if aborted {
        events := events + [AbortReported(remotePath)];
        AppendSlice(before, |old(events)|, [AbortReported(remotePath)]);
        WellCleanedConcat(before[|old(events)|..], [AbortReported(remotePath)], Upload);
        StopsThenAbort(before[|old(events)|..], remotePath);
      }
    }

    /** `filetransfer_send_one`, then the report of its failure (`ReportFailure`). */
    method SendOneReported(file: FsFile, remotePath: Path) returns (res: Result<(), TransferErrorReason>)
      requires Valid()
      modifies this
      ensures Valid() && old(tick) < tick
      ensures res == UploadResult(env, old(tick), file, old(aborted))
      ensures events == old(events) + FileLog(Upload, remotePath, res, env.Stat(tick - 1))
      ensures res == Err(HostError) <==> !env.OpenSource(old(tick))
      ensures res == Err(FileTransferError) <==> env.OpenSource(old(tick)) && !env.OpenDest(old(tick) + 1)
      ensures res == Err(CouldNotRewind) <==> env.OpenSource(old(tick)) && env.OpenDest(old(tick) + 1) && !env.Rewind(old(tick) + 3)
      ensures res == Err(LocalIoError) ==> !env.ReadOk(tick - 1)
      ensures res == Err(RemoteIoError) ==> old(tick) + 1 < tick && !env.WriteOk(tick - 2)
      ensures res == Err(Abrupted) ==> aborted
      ensures full.total == old(full.total)
      ensures old(full.transferred) <= full.transferred <= old(full.transferred) + file.size
      ensures old(aborted) ==> aborted && full.transferred == old(full.transferred)
      ensures !old(aborted) && Benign(env, old(tick), tick) ==>
                !aborted && full.transferred == old(full.transferred) + file.size
    {
      ghost var polls;
      ghost var size;
      res, size, polls := SendOne(file, remotePath);
      ReportFailure(Upload, remotePath, res);
    }

    /**
     * The directory arm of `filetransfer_send_recurse`: the remote directory
     * is created first (one that already exists will do; any other failure
     * ends this entry), then the local entries are sent one by one, under
     * their own names, until an abort is seen.
     */
    method SendDirectory(dir: Entry, remotePath: Path) returns (created: bool)
      requires Valid() && dir.Directory?
      modifies this
      decreases dir, 3
      ensures Valid() && old(tick) <= tick
      ensures full.total == old(full.total)
      ensures old(full.transferred) <= full.transferred <= old(full.transferred) + TotalSize(dir)
      ensures old(aborted) ==> aborted && full.transferred == old(full.transferred)
      ensures !old(aborted) && Benign(env, old(tick), tick) ==>
                !aborted && full.transferred == old(full.transferred) + TotalSize(dir)
      ensures |old(events)| < |events| && events[..|old(events)|] == old(events)
      ensures WellCleaned(events[|old(events)|..], Upload)
      ensures AllUnder(events[|old(events)|..], remotePath, dir)
      ensures events[|old(events)|] == MkdirEvent(env.Mkdir(old(tick)), remotePath)
      ensures env.Mkdir(old(tick)) == MkdirFailed ==>
                events == old(events) + [DirFailed(remotePath)] && aborted == old(aborted) && full == old(full)
      ensures old(aborted) ==>
                events == old(events) + [MkdirEvent(env.Mkdir(old(tick)), remotePath)]
                                      + (if env.Mkdir(old(tick)) != MkdirFailed && dir.listing.ListFailed?
                                         then [ScanFailed(remotePath)] else [])
      ensures env.Mkdir(old(tick)) != MkdirFailed && dir.listing.ListFailed? ==>
                events == old(events) + [MkdirEvent(env.Mkdir(old(tick)), remotePath), ScanFailed(remotePath)]
                && aborted == old(aborted) && full == old(full)
      ensures !aborted ==> Quiet(events[|old(events)|..])
      ensures StopsAfterAbort(events[|old(events)|..])
      ensures created <==> env.Mkdir(old(tick)) != MkdirFailed
      ensures created && dir.listing.Listed? && !aborted ==> |old(events)| + 1 + |dir.listing.entries| <= |events|
    {
      var made := env.Mkdir(tick);
      tick := tick + 1;
      created := made != MkdirFailed;
      if !created {
        events := events + [DirFailed(remotePath)];
        AllAtRoot(events[|old(events)|..], remotePath, dir);
        QuietStops(events[|old(events)|..]);
        assert !Calm(env, tick - 1);
        return;
      }
      events := events + [MkdirEvent(made, remotePath)];
      AllAtRoot(events[|old(events)|..], remotePath, dir);
      SendListing(dir, remotePath, |old(events)|);
    }

    /**
     * The rest of the directory arm of `filetransfer_send_recurse` once the
     * directory exists: a source directory that cannot be listed is
     * reported, the entries of one that can are walked (`SendChildren`).
     */
    method SendListing(dir: Entry, remotePath: Path, ghost start: nat)
      requires Valid() && dir.Directory?
      requires start <= |events|
      requires WellCleaned(events[start..], Upload) && AllUnder(events[start..], remotePath, dir) && Quiet(events[start..])
      modifies this
      decreases dir, 2
      ensures Valid() && old(tick) <= tick
      ensures full.total == old(full.total)
      ensures old(full.transferred) <= full.transferred <= old(full.transferred) + TotalSize(dir)
      ensures old(aborted) ==> aborted && full.transferred == old(full.transferred)
      ensures !old(aborted) && Benign(env, old(tick), tick) ==>
                !aborted && full.transferred == old(full.transferred) + TotalSize(dir)
      ensures |old(events)| <= |events| && events[..|old(events)|] == old(events)
      ensures WellCleaned(events[start..], Upload) && AllUnder(events[start..], remotePath, dir)
      ensures !aborted ==> Quiet(events[start..])
      ensures StopsAfterAbort(events[start..])
      ensures dir.listing.ListFailed? ==>
                events == old(events) + [ScanFailed(remotePath)] && aborted == old(aborted) && full == old(full)
      ensures old(aborted) ==> events == old(events) + (if dir.listing.ListFailed? then [ScanFailed(remotePath)] else [])
      ensures dir.listing.Listed? && !aborted ==> |old(events)| + |dir.listing.entries| <= |events|
    {
      match dir.listing {
        case ListFailed =>
          ghost var before := events;
          events := events + [ScanFailed(remotePath)];
          AppendSlice(before, start, [ScanFailed(remotePath)]);
          AtRoot(ScanFailed(remotePath), remotePath, dir);
          WellCleanedConcat(before[start..], [ScanFailed(remotePath)], Upload);
          AllUnderConcat(before[start..], [ScanFailed(remotePath)], remotePath, dir);
          QuietConcat(before[start..], [ScanFailed(remotePath)]);
          QuietStops(events[start..]);
        case Listed(children) =>
          SendChildren(dir, children, remotePath, start);
      }
    }

    /** The loop over a listed directory's entries in `filetransfer_send_recurse`. */
    method SendChildren(ghost dir: Entry, children: seq<Entry>, remotePath: Path, ghost start: nat)
      requires Valid()
      requires start <= |events|
      requires WellCleaned(events[start..], Upload) && AllUnder(events[start..], remotePath, dir) && Quiet(events[start..])
      requires dir.Directory? && dir.listing == Listed(children)
      modifies this
      decreases dir, 1
      ensures Valid() && old(tick) <= tick
      ensures full.total == old(full.total)
      ensures old(full.transferred) <= full.transferred <= old(full.transferred) + TotalSize(dir)
      ensures old(aborted) ==> aborted && full == old(full) && events == old(events) && tick == old(tick)
      ensures !old(aborted) && Benign(env, old(tick), tick) ==>
                !aborted && full.transferred == old(full.transferred) + TotalSize(dir)
      ensures |old(events)| <= |events| && events[..|old(events)|] == old(events)
      ensures WellCleaned(events[start..], Upload)
      ensures AllUnder(events[start..], remotePath, dir)
      ensures !aborted ==> Quiet(events[start..])
      ensures aborted && !old(aborted) ==> EndsWithAbort(events[start..])
      ensures StopsAfterAbort(events[start..])
      ensures !aborted ==> |old(events)| + |children| <= |events|
    {
      QuietStops(events[start..]);
      var i := 0;
      while i < |children| && !aborted
        invariant 0 <= i <= |children|
        invariant Valid() && old(tick) <= tick && full.total == old(full.total)
        invariant old(full.transferred) <= full.transferred <= old(full.transferred) + SumOfTotals(children[..i])
        invariant old(aborted) ==> i == 0 && aborted && full == old(full) && events == old(events) && tick == old(tick)
        invariant !old(aborted) && Benign(env, old(tick), tick) ==>
                    !aborted && full.transferred == old(full.transferred) + SumOfTotals(children[..i])
        invariant |old(events)| <= |events| && events[..|old(events)|] == old(events)
        invariant WellCleaned(events[start..], Upload)
        invariant AllUnder(events[start..], remotePath, dir)
        invariant !aborted ==> Quiet(events[start..])
        invariant aborted && !old(aborted) ==> EndsWithAbort(events[start..])
        invariant StopsAfterAbort(events[start..])
        invariant |old(events)| + i <= |events|
      {
        SendChild(dir, children, i, remotePath, start, old(tick), old(full.transferred));
        i := i + 1;
      }
      SumOfTotalsPrefix(children, i);
      assert children[..|children|] == children;
      assert TotalSize(dir) == SumOfTotals(children);
    }

    /** One turn of the loop in `SendChildren`: the walk of entry `i`, seen from its directory. */
    method SendChild(ghost dir: Entry, children: seq<Entry>, i: nat, remotePath: Path, ghost start: nat, ghost t0: nat, ghost f0: nat)
      requires Valid() && !aborted
      requires dir.Directory? && dir.listing == Listed(children) && i < |children|
      requires start <= |events|
      requires WellCleaned(events[start..], Upload) && AllUnder(events[start..], remotePath, dir) && Quiet(events[start..])
      requires t0 <= tick && f0 <= full.transferred <= f0 + SumOfTotals(children[..i])
      requires Benign(env, t0, tick) ==> full.transferred == f0 + SumOfTotals(children[..i])
      modifies this
      decreases dir, 0
      ensures Valid() && old(tick) <= tick && full.total == old(full.total)
      ensures old(full.transferred) <= full.transferred <= old(full.transferred) + TotalSize(children[i])
      ensures Benign(env, old(tick), tick) ==> !aborted && full.transferred == old(full.transferred) + TotalSize(children[i])
      ensures t0 <= tick && f0 <= full.transferred <= f0 + SumOfTotals(children[..i + 1])
      ensures Benign(env, t0, tick) ==> !aborted && full.transferred == f0 + SumOfTotals(children[..i + 1])
      ensures |old(events)| < |events| && events[..|old(events)|] == old(events)
      ensures WellCleaned(events[start..], Upload) && AllUnder(events[start..], remotePath, dir)
      ensures StopsAfterAbort(events[start..])
      ensures !aborted ==> Quiet(events[start..])
      ensures aborted ==> EndsWithAbort(events[start..])
    {
      SendRecurse(children[i], remotePath, None);
      ghost var added := events[|old(events)|..];
      assert events == old(events) + added;
      AllUnderChild(added, remotePath, dir, i);
      if aborted {
        assert added[|added| - 1] == events[|events| - 1];
        assert EndsWithAbort(added);
      }
      AppendSlice(old(events), start, added);
      WalkStep(old(events)[start..], added, Upload, remotePath, dir);
      SumOfTotalsSnoc(children, i);
      if Benign(env, t0, tick) {
        BenignSplit(env, t0, old(tick), tick);
      }
    }

    /**
     * `filetransfer_recv_recurse`: receive one entry into
     * `DestPath(localPath, entry, dstName)`, then report an abort if one has
     * been requested.
     */
    method RecvRecurse(entry: Entry, localPath: Path, dstName: Option<string>)
      requires Valid()
      modifies this
      decreases entry, 4
      ensures Valid() && old(tick) <= tick
      ensures full.total == old(full.total)
      ensures old(full.transferred) <= full.transferred <= old(full.transferred) + TotalSize(entry)
      ensures old(aborted) ==> aborted && full.transferred == old(full.transferred)
      ensures !old(aborted) && Benign(env, old(tick), tick) ==>
                !aborted && full.transferred == old(full.transferred) + TotalSize(entry)
      ensures |old(events)| < |events| && events[..|old(events)|] == old(events)
      ensures WellCleaned(events[|old(events)|..], Download)
      ensures AllUnder(events[|old(events)|..], DestPath(localPath, entry, dstName), entry)
      ensures aborted ==> events[|events| - 1] == AbortReported(DestPath(localPath, entry, dstName))
      ensures !aborted ==> Quiet(events[|old(events)|..])
      ensures StopsAfterAbort(events[|old(events)|..])
      ensures events[|old(events)|].path == DestPath(localPath, entry, dstName)
      ensures entry.File? ==>
                && old(tick) < tick
                && events == old(events) + FileLog(Download, DestPath(localPath, entry, dstName),
                                                   DownloadResult(env, old(tick), entry.file, old(aborted)), env.Stat(tick - 1))
                                         + (if aborted then [AbortReported(DestPath(localPath, entry, dstName))] else [])
      ensures entry.Directory? && env.Mkdir(old(tick)) != MkdirFailed && entry.listing.Listed? && !aborted ==>
                |old(events)| + 1 + |entry.listing.entries| <= |events|
      ensures entry.Directory? ==>
                events[|old(events)|] == LocalMkdirEvent(env.Mkdir(old(tick)), DestPath(localPath, entry, dstName))
      ensures entry.Directory? && env.Mkdir(old(tick)) != MkdirFailed && entry.listing.ListFailed? ==>
                events == old(events) + [DirCreated(DestPath(localPath, entry, dstName)), ScanFailed(DestPath(localPath, entry, dstName))]
                                      + (if aborted then [AbortReported(DestPath(localPath, entry, dstName))] else [])
                && aborted == old(aborted) && full == old(full)
      ensures entry.Directory? && env.Mkdir(old(tick)) == MkdirFailed ==>
                events == old(events) + [DirFailed(DestPath(localPath, entry, dstName))]
                                      + (if old(aborted) then [AbortReported(DestPath(localPath, entry, dstName))] else [])
                && aborted == old(aborted) && full == old(full)
      ensures entry.Directory? && old(aborted) && env.Mkdir(old(tick)) != MkdirFailed ==>
                events == old(events) + [DirCreated(DestPath(localPath, entry, dstName))]
                                      + (if entry.listing.ListFailed? then [ScanFailed(DestPath(localPath, entry, dstName))] else [])
                                      + [AbortReported(DestPath(localPath, entry, dstName))]
    {
      var localEntryPath := DestPath(localPath, entry, dstName);
      match entry {
        case File(file) =>
          var _ := RecvFileEntry(localEntryPath, file);
          AllAtRoot(events[|old(events)|..], localEntryPath, entry);
        case Directory(_, _) =>
          RecvDirectory(entry, localEntryPath);
          ghost var before := events;
          if aborted {
            events := events + [AbortReported(localEntryPath)];
            AppendSlice(before, |old(events)|, [AbortReported(localEntryPath)]);
            AtRoot(AbortReported(localEntryPath), localEntryPath, entry);
            WellCleanedConcat(before[|old(events)|..], [AbortReported(localEntryPath)], Download);
            AllUnderConcat(before[|old(events)|..], [AbortReported(localEntryPath)], localEntryPath, entry);
            StopsThenAbort(before[|old(events)|..], localEntryPath);
          }
      }
    }

    /**
     * The file arm of `filetransfer_recv_recurse`: a failed download is
     * reported, and when the error is an abort or a local I/O error the
     * local file is looked up and removed; then an abort is alerted if
     * one has been requested.
     */
    method RecvFileEntry(localFilePath: Path, file: FsFile) returns (res: Result<(), TransferErrorReason>)
      requires Valid()
      modifies this
      ensures Valid() && old(tick) < tick
      ensures res == DownloadResult(env, old(tick), file, old(aborted))
      ensures events == old(events) + FileLog(Download, localFilePath, res, env.Stat(tick - 1))
                                    + (if aborted then [AbortReported(localFilePath)] else [])
      ensures res == Err(HostError) <==> !env.OpenDest(old(tick))
      ensures res == Err(FileTransferError) <==> env.OpenDest(old(tick)) && !env.OpenSource(old(tick) + 1)
      ensures res != Err(CouldNotRewind)
      ensures res == Err(RemoteIoError) ==> !env.ReadOk(tick - 1)
      ensures res == Err(LocalIoError) ==> old(tick) + 1 < tick && !env.WriteOk(tick - 2)
      ensures res == Err(Abrupted) ==> aborted
      ensures full.total == old(full.total)
      ensures old(full.transferred) <= full.transferred <= old(full.transferred) + file.size
      ensures old(aborted) ==> aborted && full.transferred == old(full.transferred)
      ensures !old(aborted) && Benign(env, old(tick), tick) ==>
                !aborted && full.transferred == old(full.transferred) + file.size
      ensures |old(events)| < |events| && events[..|old(events)|] == old(events)
      ensures WellCleaned(events[|old(events)|..], Download)
      ensures forall k :: |old(events)| <= k < |events| ==> events[k].path == localFilePath
      ensures !aborted ==> Quiet(events[|old(events)|..])
      ensures StopsAfterAbort(events[|old(events)|..])
      ensures aborted ==> events[|events| - 1] == AbortReported(localFilePath)
    {
      res := RecvOneReported(localFilePath, file);
      FileLogAfter(old(events), Download, localFilePath, res, env.Stat(tick - 1));
      QuietStops(events[|old(events)|..]);
      ghost var before := events;
      if aborted {
        events := events + [AbortReported(localFilePath)];
        AppendSlice(before, |old(events)|, [AbortReported(localFilePath)]);
        WellCleanedConcat(before[|old(events)|..], [AbortReported(localFilePath)], Download);
        StopsThenAbort(before[|old(events)|..], localFilePath);
      }
    }

    /** `filetransfer_recv_one`, then the report of its failure (`ReportFailure`). */
    method RecvOneReported(localFilePath: Path, file: FsFile) returns (res: Result<(), TransferErrorReason>)
      requires Valid()
      modifies this
      ensures Valid() && old(tick) < tick
      ensures res == DownloadResult(env, old(tick), file, old(aborted))
      ensures events == old(events) + FileLog(Download, localFilePath, res, env.Stat(tick - 1))
      ensures res == Err(HostError) <==> !env.OpenDest(old(tick))
      ensures res == Err(FileTransferError) <==> env.OpenDest(old(tick)) && !env.OpenSource(old(tick) + 1)
      ensures res != Err(CouldNotRewind)
      ensures res == Err(RemoteIoError) ==> !env.ReadOk(tick - 1)
      ensures res == Err(LocalIoError) ==> old(tick) + 1 < tick && !env.WriteOk(tick - 2)
      ensures res == Err(Abrupted) ==> aborted
      ensures full.total == old(full.total)
      ensures old(full.transferred) <= full.transferred <= old(full.transferred) + file.size
      ensures old(aborted) ==> aborted && full.transferred == old(full.transferred)
      ensures !old(aborted) && Benign(env, old(tick), tick) ==>
                !aborted && full.transferred == old(full.transferred) + file.size
    {
      ghost var polls;
      res, polls := RecvOne(localFilePath, file);
      ReportFailure(Download, localFilePath, res);
    }

    /**
     * The directory arm of `filetransfer_recv_recurse`: the local directory
     * is created (one that already exists will do); when that fails the
     * entry ends there, otherwise the remote entries are received one by
     * one, under their own names, until an abort is seen.
     */
    method RecvDirectory(dir: Entry, localDirPath: Path)
      requires Valid() && dir.Directory?
      modifies this
      decreases dir, 3
      ensures Valid() && old(tick) <= tick
      ensures full.total == old(full.total)
      ensures old(full.transferred) <= full.transferred <= old(full.transferred) + TotalSize(dir)
      ensures old(aborted) ==> aborted && full.transferred == old(full.transferred)
      ensures !old(aborted) && Benign(env, old(tick), tick) ==>
                !aborted && full.transferred == old(full.transferred) + TotalSize(dir)
      ensures |old(events)| < |events| && events[..|old(events)|] == old(events)
      ensures WellCleaned(events[|old(events)|..], Download)
      ensures AllUnder(events[|old(events)|..], localDirPath, dir)
      ensures events[|old(events)|] == LocalMkdirEvent(env.Mkdir(old(tick)), localDirPath)
      ensures env.Mkdir(old(tick)) == MkdirFailed ==>
                events == old(events) + [DirFailed(localDirPath)] && aborted == old(aborted) && full == old(full)
      ensures old(aborted) ==>
                events == old(events) + [LocalMkdirEvent(env.Mkdir(old(tick)), localDirPath)]
                                      + (if env.Mkdir(old(tick)) != MkdirFailed && dir.listing.ListFailed?
                                         then [ScanFailed(localDirPath)] else [])
      ensures env.Mkdir(old(tick)) != MkdirFailed && dir.listing.ListFailed? ==>
                events == old(events) + [DirCreated(localDirPath), ScanFailed(localDirPath)]
                && aborted == old(aborted) && full == old(full)
      ensures !aborted ==> Quiet(events[|old(events)|..])
      ensures StopsAfterAbort(events[|old(events)|..])
      ensures env.Mkdir(old(tick)) != MkdirFailed && dir.listing.Listed? && !aborted ==>
                |old(events)| + 1 + |dir.listing.entries| <= |events|
    {
      var made := env.Mkdir(tick);
      tick := tick + 1;
      if made == MkdirFailed {
        events := events + [DirFailed(localDirPath)];
        AllAtRoot(events[|old(events)|..], localDirPath, dir);
        QuietStops(events[|old(events)|..]);
        assert !Calm(env, tick - 1);
        return;
      }
      events := events + [DirCreated(localDirPath)];
      AllAtRoot(events[|old(events)|..], localDirPath, dir);
      RecvListing(dir, localDirPath, |old(events)|);
    }

    /**
     * The rest of the directory arm of `filetransfer_recv_recurse` once the
     * directory exists: a source directory that cannot be listed is
     * reported, the entries of one that can are walked (`RecvChildren`).
     */
    method RecvListing(dir: Entry, localDirPath: Path, ghost start: nat)
      requires Valid() && dir.Directory?
      requires start <= |events|
      requires WellCleaned(events[start..], Download) && AllUnder(events[start..], localDirPath, dir) && Quiet(events[start..])
      modifies this
      decreases dir, 2
      ensures Valid() && old(tick) <= tick
      ensures full.total == old(full.total)
      ensures old(full.transferred) <= full.transferred <= old(full.transferred) + TotalSize(dir)
      ensures old(aborted) ==> aborted && full.transferred == old(full.transferred)
      ensures !old(aborted) && Benign(env, old(tick), tick) ==>
                !aborted && full.transferred == old(full.transferred) + TotalSize(dir)
      ensures |old(events)| <= |events| && events[..|old(events)|] == old(events)
      ensures WellCleaned(events[start..], Download) && AllUnder(events[start..], localDirPath, dir)
      ensures !aborted ==> Quiet(events[start..])
      ensures StopsAfterAbort(events[start..])
      ensures dir.listing.ListFailed? ==>
                events == old(events) + [ScanFailed(localDirPath)] && aborted == old(aborted) && full == old(full)
      ensures old(aborted) ==> events == old(events) + (if dir.listing.ListFailed? then [ScanFailed(localDirPath)] else [])
      ensures dir.listing.Listed? && !aborted ==> |old(events)| + |dir.listing.entries| <= |events|
    {
      match dir.listing {
        case ListFailed =>
          ghost var before := events;
          events := events + [ScanFailed(localDirPath)];
          AppendSlice(before, start, [ScanFailed(localDirPath)]);
          AtRoot(ScanFailed(localDirPath), localDirPath, dir);
          WellCleanedConcat(before[start..], [ScanFailed(localDirPath)], Download);
          AllUnderConcat(before[start..], [ScanFailed(localDirPath)], localDirPath, dir);
          QuietConcat(before[start..], [ScanFailed(localDirPath)]);
          QuietStops(events[start..]);
        case Listed(children) =>
          RecvChildren(dir, children, localDirPath, start);
      }
    }

    /** The loop over a listed directory's entries in `filetransfer_recv_recurse`. */
    method RecvChildren(ghost dir: Entry, children: seq<Entry>, localDirPath: Path, ghost start: nat)
      requires Valid()
      requires start <= |events|
      requires WellCleaned(events[start..], Download) && AllUnder(events[start..], localDirPath, dir) && Quiet(events[start..])
      requires dir.Directory? && dir.listing == Listed(children)
      modifies this
      decreases dir, 1
      ensures Valid() && old(tick) <= tick
      ensures full.total == old(full.total)
      ensures old(full.transferred) <= full.transferred <= old(full.transferred) + TotalSize(dir)
      ensures old(aborted) ==> aborted && full == old(full) && events == old(events) && tick == old(tick)
      ensures !old(aborted) && Benign(env, old(tick), tick) ==>
                !aborted && full.transferred == old(full.transferred) + TotalSize(dir)
      ensures |old(events)| <= |events| && events[..|old(events)|] == old(events)
      ensures WellCleaned(events[start..], Download)
      ensures AllUnder(events[start..], localDirPath, dir)
      ensures !aborted ==> Quiet(events[start..])
      ensures aborted && !old(aborted) ==> EndsWithAbort(events[start..])
      ensures StopsAfterAbort(events[start..])
      ensures !aborted ==> |old(events)| + |children| <= |events|
    {
      QuietStops(events[start..]);
      var i := 0;
      while i < |children| && !aborted
        invariant 0 <= i <= |children|
        invariant Valid() && old(tick) <= tick && full.total == old(full.total)
        invariant old(full.transferred) <= full.transferred <= old(full.transferred) + SumOfTotals(children[..i])
        invariant old(aborted) ==> i == 0 && aborted && full == old(full) && events == old(events) && tick == old(tick)
        invariant !old(aborted) && Benign(env, old(tick), tick) ==>
                    !aborted && full.transferred == old(full.transferred) + SumOfTotals(children[..i])
        invariant |old(events)| <= |events| && events[..|old(events)|] == old(events)
        invariant WellCleaned(events[start..], Download)
        invariant AllUnder(events[start..], localDirPath, dir)
        invariant !aborted ==> Quiet(events[start..])
        invariant aborted && !old(aborted) ==> EndsWithAbort(events[start..])
        invariant StopsAfterAbort(events[start..])
        invariant |old(events)| + i <= |events|
      {
        RecvChild(dir, children, i, localDirPath, start, old(tick), old(full.transferred));
        i := i + 1;
      }
      SumOfTotalsPrefix(children, i);
      assert children[..|children|] == children;
      assert TotalSize(dir) == SumOfTotals(children);
    }

    /** One turn of the loop in `RecvChildren`: the walk of entry `i`, seen from its directory. */
    method RecvChild(ghost dir: Entry, children: seq<Entry>, i: nat, localDirPath: Path, ghost start: nat, ghost t0: nat, ghost f0: nat)
      requires Valid() && !aborted
      requires dir.Directory? && dir.listing == Listed(children) && i < |children|
      requires start <= |events|
      requires WellCleaned(events[start..], Download) && AllUnder(events[start..], localDirPath, dir) && Quiet(events[start..])
      requires t0 <= tick && f0 <= full.transferred <= f0 + SumOfTotals(children[..i])
      requires Benign(env, t0, tick) ==> full.transferred == f0 + SumOfTotals(children[..i])
      modifies this
      decreases dir, 0
      ensures Valid() && old(tick) <= tick && full.total == old(full.total)
      ensures old(full.transferred) <= full.transferred <= old(full.transferred) + TotalSize(children[i])
      ensures Benign(env, old(tick), tick) ==> !aborted && full.transferred == old(full.transferred) + TotalSize(children[i])
      ensures t0 <= tick && f0 <= full.transferred <= f0 + SumOfTotals(children[..i + 1])
      ensures Benign(env, t0, tick) ==> !aborted && full.transferred == f0 + SumOfTotals(children[..i + 1])
      ensures |old(events)| < |events| && events[..|old(events)|] == old(events)
      ensures WellCleaned(events[start..], Download) && AllUnder(events[start..], localDirPath, dir)
      ensures StopsAfterAbort(events[start..])
      ensures !aborted ==> Quiet(events[start..])
      ensures aborted ==> EndsWithAbort(events[start..])
    {
      RecvRecurse(children[i], localDirPath, None);
      ghost var added := events[|old(events)|..];
      assert events == old(events) + added;
      AllUnderChild(added, localDirPath, dir, i);
      if aborted {
        assert added[|added| - 1] == events[|events| - 1];
        assert EndsWithAbort(added);
      }
      AppendSlice(old(events), start, added);
      WalkStep(old(events)[start..], added, Download, localDirPath, dir);
      SumOfTotalsSnoc(children, i);
      if Benign(env, t0, tick) {
        BenignSplit(env, t0, old(tick), tick);
      }
    }

    // -- the payloads

    /**
     * `filetransfer_send_file`: one file, to `currRemotePath` under `dstName`
     * or its own name. A failure is returned to the caller; nothing is
     * cleaned up.
     */
    method SendFile(file: FsFile, currRemotePath: Path, dstName: Option<string>)
        returns (r: Result<(), TransferErrorReason>)
      requires Valid()
      modifies this
      ensures Valid() && old(tick) <= tick
      ensures full.total == file.size && full.transferred <= full.total
      ensures r.Ok? ==> !aborted && full.transferred == partial.total
      ensures r == Err(HostError) <==> !env.OpenSource(old(tick))
      ensures r == Err(FileTransferError) <==> env.OpenSource(old(tick)) && !env.OpenDest(old(tick) + 1)
      ensures r == UploadResult(env, old(tick), file, false)
      ensures env.OpenSource(old(tick)) && env.OpenDest(old(tick) + 1) && env.Rewind(old(tick) + 3) ==>
                full.transferred == CopyRun(env, old(tick) + 4, if env.SizeProbe(old(tick) + 2) then file.size else 0, 0, false).moved
      ensures events == old(events) + (if r == Err(HostError) || r == Err(FileTransferError) then [] else [Opened(DestPath(currRemotePath, File(file), dstName))])
                                    + (if r.Ok? then [Saved(DestPath(currRemotePath, File(file), dstName))] else [])
      ensures Benign(env, old(tick), tick) ==> r.Ok? && full.transferred == file.size
    {
      Reset();
      full := Progress(file.size, 0);
      ghost var polls;
      ghost var size;
      r, size, polls := SendOne(file, DestPath(currRemotePath, File(file), dstName));
    }

    /** `filetransfer_send_any`: one entry, sized by its total, through `SendRecurse`. */
    method SendAny(entry: Entry, currRemotePath: Path, dstName: Option<string>)
        returns (r: Result<(), TransferErrorReason>)
      requires Valid()
      modifies this
      ensures Valid() && old(tick) <= tick && r.Ok?
      ensures full.total == TotalSize(entry) && full.transferred <= full.total
      ensures Benign(env, old(tick), tick) ==> !aborted && full.transferred == full.total
      ensures |old(events)| < |events| && events[..|old(events)|] == old(events)
      ensures WellCleaned(events[|old(events)|..], Upload)
      ensures AllUnder(events[|old(events)|..], DestPath(currRemotePath, entry, dstName), entry)
      ensures !aborted ==> Quiet(events[|old(events)|..])
      ensures StopsAfterAbort(events[|old(events)|..])
    {
      Reset();
      full := Progress(TotalSize(entry), 0);
      SendRecurse(entry, currRemotePath, dstName);
      r := Ok(());
    }

    /**
     * `filetransfer_send_many`: every entry, under its own name, into
     * `currRemotePath`. There is no abort check between the entries: once
     * aborted, each further entry still gets its walk, which copies nothing.
     */
    method SendMany(entries: seq<Entry>, currRemotePath: Path) returns (r: Result<(), TransferErrorReason>)
      requires Valid()
      modifies this
      ensures Valid() && old(tick) <= tick && r.Ok?
      ensures full.total == SumOfTotals(entries) && full.transferred <= full.total
      ensures Benign(env, old(tick), tick) ==> !aborted && full.transferred == full.total
      ensures |old(events)| + |entries| <= |events| && events[..|old(events)|] == old(events)
      ensures WellCleaned(events[|old(events)|..], Upload)
      ensures AllInForest(events[|old(events)|..], currRemotePath, entries)
      ensures !aborted ==> Quiet(events[|old(events)|..])
    {
      Reset();
      full := Progress(SumOfTotals(entries), 0);
      ghost var t0, e0 := tick, events;
      for i := 0 to |entries|
        invariant Valid() && t0 <= tick && full.total == SumOfTotals(entries)
        invariant full.transferred <= SumOfTotals(entries[..i])
        invariant Benign(env, t0, tick) ==> !aborted && full.transferred == SumOfTotals(entries[..i])
        invariant |e0| + i <= |events| && events[..|e0|] == e0
        invariant WellCleaned(events[|e0|..], Upload)
        invariant AllInForest(events[|e0|..], currRemotePath, entries)
        invariant !aborted ==> Quiet(events[|e0|..])
      {
        SendManyEntry(entries, i, currRemotePath, e0, t0);
      }
      assert entries[..|entries|] == entries;
      r := Ok(());
    }

    /** One turn of the loop in `SendMany`: the walk of entry `i` of the payload. */
    method SendManyEntry(entries: seq<Entry>, i: nat, currRemotePath: Path, ghost e0: seq<Event>, ghost t0: nat)
      requires Valid() && i < |entries|
      requires t0 <= tick && full.total == SumOfTotals(entries) && full.transferred <= SumOfTotals(entries[..i])
      requires Benign(env, t0, tick) ==> !aborted && full.transferred == SumOfTotals(entries[..i])
      requires |e0| + i <= |events| && events[..|e0|] == e0
      requires WellCleaned(events[|e0|..], Upload) && AllInForest(events[|e0|..], currRemotePath, entries)
      requires !aborted ==> Quiet(events[|e0|..])
      modifies this
      ensures Valid() && t0 <= tick && full.total == SumOfTotals(entries)
      ensures full.transferred <= SumOfTotals(entries[..i + 1])
      ensures Benign(env, t0, tick) ==> !aborted && full.transferred == SumOfTotals(entries[..i + 1])
      ensures |e0| + i + 1 <= |events| && events[..|e0|] == e0
      ensures WellCleaned(events[|e0|..], Upload) && AllInForest(events[|e0|..], currRemotePath, entries)
      ensures !aborted ==> Quiet(events[|e0|..])
    {
      ghost var before, t := events, tick;
      SendRecurse(entries[i], currRemotePath, None);
      ghost var added := events[|before|..];
      assert events == before + added;
      AppendSlice(before, |e0|, added);
      AllInForestEntry(added, currRemotePath, entries, i);
      WellCleanedConcat(before[|e0|..], added, Upload);
      AllInForestConcat(before[|e0|..], added, currRemotePath, entries);
      if !aborted {
        QuietConcat(before[|e0|..], added);
      }
      SumOfTotalsSnoc(entries, i);
      if Benign(env, t0, tick) {
        BenignSplit(env, t0, t, tick);
      }
    }

    /**
     * `filetransfer_send`: the payload's own operation. Only a single-file
     * payload can fail; entries report their failures as events.
     */
    method Send(payload: TransferPayload, currRemotePath: Path, dstName: Option<string>)
        returns (r: Result<(), TransferErrorReason>)
      requires Valid()
      modifies this
      ensures Valid() && old(tick) <= tick
      ensures full.total == PayloadSize(payload) && full.transferred <= full.total
      ensures r.Err? ==> payload.FilePayload?
      ensures Benign(env, old(tick), tick) ==> r.Ok? && full.transferred == full.total
      ensures |old(events)| <= |events| && events[..|old(events)|] == old(events)
      ensures WellCleaned(events[|old(events)|..], Upload)
      ensures payload.FilePayload? ==> r == UploadResult(env, old(tick), payload.file, false)
      ensures payload.FilePayload? ==>
                events == old(events) + (if r == Err(HostError) || r == Err(FileTransferError) then []
                                         else [Opened(DestPath(currRemotePath, File(payload.file), dstName))])
                                      + (if r.Ok? then [Saved(DestPath(currRemotePath, File(payload.file), dstName))] else [])
      ensures payload.Any? ==> && AllUnder(events[|old(events)|..], DestPath(currRemotePath, payload.entry, dstName), payload.entry)
                               && StopsAfterAbort(events[|old(events)|..])
      ensures payload.Many? ==> AllInForest(events[|old(events)|..], currRemotePath, payload.entries)
    {
      match payload {
        case FilePayload(file) =>
          r := SendFile(file, currRemotePath, dstName);
          assert WellCleaned(events[|old(events)|..], Upload);
        case Any(entry) =>
          r := SendAny(entry, currRemotePath, dstName);
        case Many(entries) =>
          r := SendMany(entries, currRemotePath);
      }
    }

    /**
     * `filetransfer_recv_file`: one file, written to `localPath` itself. A
     * failure is returned to the caller; nothing is cleaned up.
     */
    method RecvFile(file: FsFile, localPath: Path) returns (r: Result<(), TransferErrorReason>)
      requires Valid()
      modifies this
      ensures Valid() && old(tick) <= tick
      ensures full.total == file.size && full.transferred <= full.total
      ensures r.Ok? ==> !aborted && full.transferred == file.size
      ensures r == Err(HostError) <==> !env.OpenDest(old(tick))
      ensures r == Err(FileTransferError) <==> env.OpenDest(old(tick)) && !env.OpenSource(old(tick) + 1)
      ensures r == DownloadResult(env, old(tick), file, false)
      ensures env.OpenDest(old(tick)) && env.OpenSource(old(tick) + 1) ==>
                full.transferred == CopyRun(env, old(tick) + 2, file.size, 0, false).moved
      ensures events == old(events) + (if r == Err(HostError) then [] else [Opened(localPath)])
                                    + (if r.Ok? then [Saved(localPath)] else [])
      ensures Benign(env, old(tick), tick) ==> r.Ok?
    {
      Reset();
      full := Progress(file.size, 0);
      ghost var polls;
      r, polls := RecvOne(localPath, file);
    }

    /** `filetransfer_recv_any`: one entry, sized by its total, through `RecvRecurse`. */
    method RecvAny(entry: Entry, localPath: Path, dstName: Option<string>)
        returns (r: Result<(), TransferErrorReason>)
      requires Valid()
      modifies this
      ensures Valid() && old(tick) <= tick && r.Ok?
      ensures full.total == TotalSize(entry) && full.transferred <= full.total
      ensures Benign(env, old(tick), tick) ==> !aborted && full.transferred == full.total
      ensures |old(events)| < |events| && events[..|old(events)|] == old(events)
      ensures WellCleaned(events[|old(events)|..], Download)
      ensures AllUnder(events[|old(events)|..], DestPath(localPath, entry, dstName), entry)
      ensures !aborted ==> Quiet(events[|old(events)|..])
      ensures StopsAfterAbort(events[|old(events)|..])
    {
      Reset();
      full := Progress(TotalSize(entry), 0);
      RecvRecurse(entry, localPath, dstName);
      r := Ok(());
    }

    /**
     * `filetransfer_recv_many`: every entry, under its own name, into
     * `localPath`, with no abort check between the entries.
     */
    method RecvMany(entries: seq<Entry>, localPath: Path) returns (r: Result<(), TransferErrorReason>)
      requires Valid()
      modifies this
      ensures Valid() && old(tick) <= tick && r.Ok?
      ensures full.total == SumOfTotals(entries) && full.transferred <= full.total
      ensures Benign(env, old(tick), tick) ==> !aborted && full.transferred == full.total
      ensures |old(events)| + |entries| <= |events| && events[..|old(events)|] == old(events)
      ensures WellCleaned(events[|old(events)|..], Download)
      ensures AllInForest(events[|old(events)|..], localPath, entries)
      ensures !aborted ==> Quiet(events[|old(events)|..])
    {
      Reset();
      full := Progress(SumOfTotals(entries), 0);
      ghost var t0, e0 := tick, events;
      for i := 0 to |entries|
        invariant Valid() && t0 <= tick && full.total == SumOfTotals(entries)
        invariant full.transferred <= SumOfTotals(entries[..i])
        invariant Benign(env, t0, tick) ==> !aborted && full.transferred == SumOfTotals(entries[..i])
        invariant |e0| + i <= |events| && events[..|e0|] == e0
        invariant WellCleaned(events[|e0|..], Download)
        invariant AllInForest(events[|e0|..], localPath, entries)
        invariant !aborted ==> Quiet(events[|e0|..])
      {
        RecvManyEntry(entries, i, localPath, e0, t0);
      }
      assert entries[..|entries|] == entries;
      r := Ok(());
    }

    /** One turn of the loop in `RecvMany`: the walk of entry `i` of the payload. */
    method RecvManyEntry(entries: seq<Entry>, i: nat, localPath: Path, ghost e0: seq<Event>, ghost t0: nat)
      requires Valid() && i < |entries|
      requires t0 <= tick && full.total == SumOfTotals(entries) && full.transferred <= SumOfTotals(entries[..i])
      requires Benign(env, t0, tick) ==> !aborted && full.transferred == SumOfTotals(entries[..i])
      requires |e0| + i <= |events| && events[..|e0|] == e0
      requires WellCleaned(events[|e0|..], Download) && AllInForest(events[|e0|..], localPath, entries)
      requires !aborted ==> Quiet(events[|e0|..])
      modifies this
      ensures Valid() && t0 <= tick && full.total == SumOfTotals(entries)
      ensures full.transferred <= SumOfTotals(entries[..i + 1])
      ensures Benign(env, t0, tick) ==> !aborted && full.transferred == SumOfTotals(entries[..i + 1])
      ensures |e0| + i + 1 <= |events| && events[..|e0|] == e0
      ensures WellCleaned(events[|e0|..], Download) && AllInForest(events[|e0|..], localPath, entries)
      ensures !aborted ==> Quiet(events[|e0|..])
    {
      ghost var before, t := events, tick;
      RecvRecurse(entries[i], localPath, None);
      ghost var added := events[|before|..];
      assert events == before + added;
      AppendSlice(before, |e0|, added);
      AllInForestEntry(added, localPath, entries, i);
      WellCleanedConcat(before[|e0|..], added, Download);
      AllInForestConcat(before[|e0|..], added, localPath, entries);
      if !aborted {
        QuietConcat(before[|e0|..], added);
      }
      SumOfTotalsSnoc(entries, i);
      if Benign(env, t0, tick) {
        BenignSplit(env, t0, t, tick);
      }
    }

    /**
     * `filetransfer_recv`: the payload's own operation; a single-file payload
     * ignores `dstName` and can fail, entries report their failures as events.
     */
    method Recv(payload: TransferPayload, localPath: Path, dstName: Option<string>)
        returns (r: Result<(), TransferErrorReason>)
      requires Valid()
      modifies this
      ensures Valid() && old(tick) <= tick
      ensures full.total == PayloadSize(payload) && full.transferred <= full.total
      ensures r.Err? ==> payload.FilePayload?
      ensures Benign(env, old(tick), tick) ==> r.Ok? && full.transferred == full.total
      ensures |old(events)| <= |events| && events[..|old(events)|] == old(events)
      ensures WellCleaned(events[|old(events)|..], Download)
      ensures payload.FilePayload? ==> r == DownloadResult(env, old(tick), payload.file, false)
      ensures payload.FilePayload? ==>
                events == old(events) + (if r == Err(HostError) then [] else [Opened(localPath)])
                                      + (if r.Ok? then [Saved(localPath)] else [])
      ensures payload.Any? ==> && AllUnder(events[|old(events)|..], DestPath(localPath, payload.entry, dstName), payload.entry)
                               && StopsAfterAbort(events[|old(events)|..])
      ensures payload.Many? ==> AllInForest(events[|old(events)|..], localPath, payload.entries)
    {
      match payload {
        case FilePayload(file) =>
          r := RecvFile(file, localPath);
          assert WellCleaned(events[|old(events)|..], Download);
        case Any(entry) =>
          r := RecvAny(entry, localPath, dstName);
        case Many(entries) =>
          r := RecvMany(entries, localPath);
      }
    }
  }
}
