/**
 * The bounded process supervisor: a prioritised event loop over two bounded readers, a child, a
 * deadline and a cancellation, followed by authoritative cleanup. The environment is an arbitrary
 * schedule: at each turn of the loop it decides what has arrived since the previous one.
 */
module ProcessSupervisor {
  import opened Common

  datatype ProcessError =
    | ProgramUnavailable
    | SpawnFailed
    | WaitFailed
    | TimedOut
    | StdoutLimitExceeded
    | StderrLimitExceeded
    | ProgramFailed

  // ---------------------------------------------------------------- construction and deadlines

  datatype ConfigError = TimeoutTooShort | TimeoutTooLong | StdoutLimitTooLarge | StderrLimitTooLarge

  const MILLISECOND := 1_000_000
  const MIN_TIMEOUT := 4 * MILLISECOND
  const MAX_TIMEOUT := 5_000 * MILLISECOND
  const MIN_RESERVE := 1 * MILLISECOND
  const MAX_RESERVE := 250 * MILLISECOND
  const MAX_STDOUT_BYTES := 16 * 1024
  const MAX_STDERR_BYTES := 4 * 1024

  datatype Limits = Limits(timeout: nat, maxStdout: nat, maxStderr: nat)

  /** `new_inner`; durations are in nanoseconds. */
  function NewLimits(timeout: nat, maxStdout: nat, maxStderr: nat): Result<Limits, ConfigError> {
    if timeout < MIN_TIMEOUT then Err(TimeoutTooShort)
    else if timeout > MAX_TIMEOUT then Err(TimeoutTooLong)
    else if maxStdout > MAX_STDOUT_BYTES then Err(StdoutLimitTooLarge)
    else if maxStderr > MAX_STDERR_BYTES then Err(StderrLimitTooLarge)
    else Ok(Limits(timeout, maxStdout, maxStderr))
  }

  function CleanupReserve(timeout: nat): nat {
    var quarter := timeout / 4;
    if quarter < MIN_RESERVE then MIN_RESERVE else if quarter > MAX_RESERVE then MAX_RESERVE else quarter
  }

  /** The bounds `run_inner` hands to the supervisor. */
  datatype Bounds = Bounds(maxStdout: nat, maxStderr: nat, operationDeadline: nat, finalDeadline: nat)

  function BoundsAt(startedAt: nat, limits: Limits): Bounds
    requires limits.timeout >= CleanupReserve(limits.timeout)
  {
    var finalDeadline := startedAt + limits.timeout;
    Bounds(limits.maxStdout, limits.maxStderr, finalDeadline - CleanupReserve(limits.timeout), finalDeadline)
  }

  /** Exactly the documented ranges are accepted, the first one broken is named. */
  lemma LimitsIff(timeout: nat, maxStdout: nat, maxStderr: nat)
    ensures NewLimits(timeout, maxStdout, maxStderr) ==
      if timeout < 4_000_000 then Err(TimeoutTooShort)
      else if timeout > 5_000_000_000 then Err(TimeoutTooLong)
      else if maxStdout > 16384 then Err(StdoutLimitTooLarge)
      else if maxStderr > 4096 then Err(StderrLimitTooLarge)
      else Ok(Limits(timeout, maxStdout, maxStderr))
  {
  }

  /** Every accepted timeout leaves three quarters to the operation and a real reserve to cleanup. */
  lemma DeadlinesAreOrdered(startedAt: nat, timeout: nat, maxStdout: nat, maxStderr: nat)
    requires NewLimits(timeout, maxStdout, maxStderr).Ok?
    ensures timeout >= CleanupReserve(timeout)
    ensures var b := BoundsAt(startedAt, NewLimits(timeout, maxStdout, maxStderr).value);
      && startedAt + 3 * MILLISECOND <= b.operationDeadline
      && b.operationDeadline + MIN_RESERVE <= b.finalDeadline <= startedAt + MAX_TIMEOUT
      && 4 * (b.finalDeadline - b.operationDeadline) <= timeout
      && b.finalDeadline == startedAt + timeout && b.maxStdout == maxStdout && b.maxStderr == maxStderr
      && b.finalDeadline - b.operationDeadline == (if timeout >= 1_000_000_000 then 250_000_000 else timeout / 4)
  {
  }

  // ---------------------------------------------------------------- bounded reading

  /** One answer of `read` on a pipe: an empty chunk is end of file, and a pipe can break. */
  datatype ReadEvent = Chunk(bytes: Bytes) | Broken

  datatype ReadResult = Pending | Complete(bytes: Bytes) | LimitExceeded | ReadFailed

  /** What reading yields when `bytes` are already held and `events` are there to be read. */
  function Read(bytes: Bytes, events: seq<ReadEvent>, limit: nat): ReadResult
    decreases events
  {
    if events == [] then Pending
    else
      match events[0]
      case Broken => ReadFailed
      case Chunk(chunk) =>
        if chunk == [] then Complete(bytes)
        else if |bytes| + |chunk| > limit then LimitExceeded
        else Read(bytes + chunk, events[1..], limit)
  }

  function Gather(events: seq<ReadEvent>): Bytes {
    if events == [] then []
    else DataOf(events[0]) + Gather(events[1..])
  }

  function DataOf(event: ReadEvent): Bytes {
    if event.Chunk? then event.bytes else []
  }

  predicate AllData(events: seq<ReadEvent>) {
    forall i :: 0 <= i < |events| ==> events[i].Chunk? && events[i].bytes != []
  }

  /** The stream ended after `k` chunks. */
  predicate EndsAt(events: seq<ReadEvent>, k: nat) {
    k < |events| && AllData(events[..k]) && events[k] == Chunk([])
  }

  lemma {:induction false} ReadStep(bytes: Bytes, events: seq<ReadEvent>, limit: nat, k: nat)
    requires |bytes| <= limit && k <= |events| && AllData(events[..k])
    ensures |bytes + Gather(events[..k])| <= limit ==>
      Read(bytes, events, limit) == Read(bytes + Gather(events[..k]), events[k..], limit)
    ensures |bytes + Gather(events[..k])| > limit ==> Read(bytes, events, limit) == LimitExceeded
    decreases k
  {
    if k == 0 {
      assert events[..0] == [] && events[0..] == events && bytes + [] == bytes;
    } else {
      assert events[..k][0] == events[0] && events[..k][1..] == events[1..][..k - 1];
      var chunk := events[0].bytes;
      assert bytes + Gather(events[..k]) == (bytes + chunk) + Gather(events[1..][..k - 1]);
      if |bytes| + |chunk| <= limit {
        assert events[1..][..k - 1] == events[..k][1..];
        ReadStep(bytes + chunk, events[1..], limit, k - 1);
        assert events[1..][k - 1..] == events[k..];
      }
    }
  }

  /**
   * Chunking is irrelevant: a pipe reads as complete exactly when it was closed after data within
   * the limit, and the captured output is then the whole stream.
   */
  lemma CapturedIsWholeStream(events: seq<ReadEvent>, limit: nat, k: nat)
    requires EndsAt(events, k)
    ensures Read([], events, limit) ==
      if |Gather(events[..k])| <= limit then Complete(Gather(events[..k])) else LimitExceeded
  {
    ReadStep([], events, limit, k);
    assert [] + Gather(events[..k]) == Gather(events[..k]);
    assert events[k..][0] == events[k];
  }

  /** A pipe that breaks after data within the limit has failed, and one still open is pending. */
  lemma UnfinishedReads(events: seq<ReadEvent>, limit: nat, k: nat)
    requires k <= |events| && AllData(events[..k]) && (k == |events| || events[k] == Broken)
    ensures Read([], events, limit) ==
      if |Gather(events[..k])| > limit then LimitExceeded else if k == |events| then Pending else ReadFailed
  {
    ReadStep([], events, limit, k);
    assert [] + Gather(events[..k]) == Gather(events[..k]);
    assert k < |events| ==> events[k..][0] == Broken;
  }

  /** Where a completed read saw the end of the stream. */
  lemma {:induction false} CompleteMeansClosed(bytes: Bytes, events: seq<ReadEvent>, limit: nat) returns (k: nat)
    requires |bytes| <= limit && Read(bytes, events, limit).Complete?
    ensures EndsAt(events, k) && |Read(bytes, events, limit).bytes| <= limit
    ensures Read(bytes, events, limit).bytes == bytes + Gather(events[..k])
    decreases events
  {
    if events[0].bytes == [] {
      k := 0;
    } else {
      var n := CompleteMeansClosed(bytes + events[0].bytes, events[1..], limit);
      k := n + 1;
      assert events[..k] == [events[0]] + events[1..][..n];
      assert Gather(events[..k]) == events[0].bytes + Gather(events[1..][..n]);
      forall i | 0 <= i < k ensures events[..k][i].Chunk? && events[..k][i].bytes != [] {
        if i > 0 { assert events[..k][i] == events[1..][..n][i - 1]; }
      }
    }
  }

  /** Once a reader has an answer, later arrivals cannot change it. */
  lemma {:induction false} ReadIsStable(bytes: Bytes, events: seq<ReadEvent>, more: seq<ReadEvent>, limit: nat)
    requires Read(bytes, events, limit) != Pending
    ensures Read(bytes, events + more, limit) == Read(bytes, events, limit)
    decreases events
  {
    assert (events + more)[0] == events[0];
    if events[0].Chunk? && events[0].bytes != [] && |bytes| + |events[0].bytes| <= limit {
      ReadIsStable(bytes + events[0].bytes, events[1..], more, limit);
      assert (events + more)[1..] == events[1..] + more;
    }
  }

  /** The reader future: it keeps what it has read and is polled with what has arrived since. */
  class BoundedReader {
    var bytes: Bytes
    var finished: Option<ReadResult>
    const limit: nat
    var unread: seq<ReadEvent>
    /** Everything that has ever arrived on this pipe, and the data chunks already taken from it. */
    ghost var arrived: seq<ReadEvent>
    ghost var taken: seq<ReadEvent>

    ghost predicate Valid()
      reads this
    {
      && |bytes| <= limit
      && (finished.None? ==> arrived == taken + unread && AllData(taken) && bytes == Gather(taken))
      && (finished.Some? ==> finished.value != Pending && Read([], arrived, limit) == finished.value)
    }

    constructor (limit: nat)
      ensures Valid() && this.limit == limit && arrived == [] && finished == None
    {
      this.limit := limit;
      bytes, finished, unread, arrived, taken := [], None, [], [], [];
    }

    method Arrive(events: seq<ReadEvent>)
      requires Valid()
      modifies this
      ensures Valid() && arrived == old(arrived) + events && finished == old(finished)
    {
      if finished.Some? {
        ReadIsStable([], arrived, events, limit);
      }
      arrived := arrived + events;
      unread := unread + events;
    }

    /** `read_bounded`, run until it has an answer or there is nothing left to read. */
    method Poll() returns (result: ReadResult)
      requires Valid() && finished.None?
      modifies this
      ensures Valid() && arrived == old(arrived)
      ensures result == Read([], arrived, limit)
      ensures finished == if result == Pending then None else Some(result)
    {
      while unread != []
        invariant Valid() && finished.None? && arrived == old(arrived)
        decreases |unread|
      {
        ReadResume(bytes, taken, unread, limit);
        var event := unread[0];
        unread := unread[1..];
        if event.Broken? {
          finished := Some(ReadFailed);
          return ReadFailed;
        }
        if event.bytes == [] {
          finished := Some(Complete(bytes));
          return Complete(bytes);
        }
        var remaining := limit - |bytes|;
        if |event.bytes| > remaining {
          finished := Some(LimitExceeded);
          return LimitExceeded;
        }
        GatherAppend(taken, event);
        bytes := bytes + event.bytes;
        taken := taken + [event];
      }
      ReadResume(bytes, taken, unread, limit);
      return Pending;
    }
  }

  lemma {:induction false} GatherAppend(events: seq<ReadEvent>, event: ReadEvent)
    requires event.Chunk?
    ensures Gather(events + [event]) == Gather(events) + event.bytes
  {
    if events == [] {
      assert [] + [event] == [event] && [event][1..] == [];
      assert Gather([event]) == event.bytes + [];
    } else {
      var first, rest := DataOf(events[0]), events[1..];
      GatherAppend(rest, event);
      assert (events + [event])[0] == events[0] && (events + [event])[1..] == rest + [event];
      assert Gather(events + [event]) == first + Gather(rest + [event]);
      hide Gather, DataOf;
      assert first + (Gather(rest) + event.bytes) == (first + Gather(rest)) + event.bytes;
    }
  }

  /** Reading resumes from the bytes held as if all of the stream were read at once. */
  lemma ReadResume(bytes: Bytes, taken: seq<ReadEvent>, unread: seq<ReadEvent>, limit: nat)
    requires AllData(taken) && bytes == Gather(taken) && |bytes| <= limit
    ensures Read([], taken + unread, limit) == Read(bytes, unread, limit)
  {
    var all := taken + unread;
    assert all[..|taken|] == taken && all[|taken|..] == unread && [] + bytes == bytes;
    ReadStep([], all, limit, |taken|);
  }

  // ---------------------------------------------------------------- the event loop

  datatype ExitStatus = Success | NonZero | WaitError

  /** What the environment has done by one turn of the select loop. */
  datatype Wake = Wake(
    cancelled: bool, now: nat, stdout: seq<ReadEvent>, stderr: seq<ReadEvent>, exited: Option<ExitStatus>)

  datatype Terminal =
    | Finished(stdout: Bytes, stderr: Bytes)
    | Failure(error: ProcessError)
    | Cancelled
    | StillRunning

  function StdoutBy(schedule: seq<Wake>): seq<ReadEvent> {
    if schedule == [] then []
    else StdoutBy(schedule[..|schedule| - 1]) + schedule[|schedule| - 1].stdout
  }

  function StderrBy(schedule: seq<Wake>): seq<ReadEvent> {
    if schedule == [] then []
    else StderrBy(schedule[..|schedule| - 1]) + schedule[|schedule| - 1].stderr
  }

  /** The first exit status reported. */
  function ExitBy(schedule: seq<Wake>): Option<ExitStatus> {
    if schedule == [] then None
    else
      var earlier := ExitBy(schedule[..|schedule| - 1]);
      if earlier.Some? then earlier else schedule[|schedule| - 1].exited
  }

  /** What the loop has collected so far. */
  datatype Progress = Progress(stdout: Option<Bytes>, stderr: Option<Bytes>, childSucceeded: bool)

  /**
   * One turn: stop, go on with more progress, or wait. Simultaneous events are taken in the source's
   * order: cancellation, deadline, stdout, stderr, child.
   */
  function Turn(b: Bounds, upTo: seq<Wake>, p: Progress): Result<Progress, Terminal>
    requires upTo != []
  {
    var wake := upTo[|upTo| - 1];
    if wake.cancelled then Err(Cancelled)
    else if wake.now >= b.operationDeadline then Err(Failure(TimedOut))
    else OnStdout(b, upTo, p)
  }

  function OnStdout(b: Bounds, upTo: seq<Wake>, p: Progress): Result<Progress, Terminal> {
    if p.stdout.Some? then OnStderr(b, upTo, p)
    else
      match Read([], StdoutBy(upTo), b.maxStdout)
      case Complete(bytes) => Ok(p.(stdout := Some(bytes)))
      case LimitExceeded => Err(Failure(StdoutLimitExceeded))
      case ReadFailed => Err(Failure(WaitFailed))
      case Pending => OnStderr(b, upTo, p)
  }

  function OnStderr(b: Bounds, upTo: seq<Wake>, p: Progress): Result<Progress, Terminal> {
    if p.stderr.Some? then OnChild(ExitBy(upTo), p)
    else
      match Read([], StderrBy(upTo), b.maxStderr)
      case Complete(bytes) => Ok(p.(stderr := Some(bytes)))
      case LimitExceeded => Err(Failure(StderrLimitExceeded))
      case ReadFailed => Err(Failure(WaitFailed))
      case Pending => OnChild(ExitBy(upTo), p)
  }

  function OnChild(exited: Option<ExitStatus>, p: Progress): Result<Progress, Terminal> {
    if p.childSucceeded || exited.None? then Ok(p)
    else
      match exited.value
      case Success => Ok(p.(childSucceeded := true))
      case NonZero => Err(Failure(ProgramFailed))
      case WaitError => Err(Failure(WaitFailed))
  }

  predicate Done(p: Progress) {
    p.childSucceeded && p.stdout.Some? && p.stderr.Some?
  }

  function Loop(b: Bounds, schedule: seq<Wake>, i: nat, p: Progress): Terminal
    requires i <= |schedule|
    decreases |schedule| - i
  {
    if Done(p) then Finished(p.stdout.value, p.stderr.value)
    else if i == |schedule| then StillRunning
    else
      match Turn(b, schedule[..i + 1], p)
      case Err(terminal) => terminal
      case Ok(next) => Loop(b, schedule, i + 1, next)
  }

  const START := Progress(None, None, false)

  // ---------------------------------------------------------------- cleanup

  datatype TryWait = Exited | Running | TryFailed
  datatype TimedWait = WaitOk | WaitErr | Elapsed

  /** The clock before and after, and what each wait reports. */
  datatype Reaping = Reaping(now0: nat, tryWait: TryWait, timedWait: TimedWait, finalWaitOk: bool, now1: nat)

  datatype CleanupOutcome = ReapedWithinDeadline | ReapedAfterDeadline | ReapFailed

  predicate Reaped(r: Reaping) {
    r.tryWait == Exited || r.timedWait == WaitOk || (r.timedWait == Elapsed && r.finalWaitOk)
  }

  /** The externally visible acts of the supervisor once its loop has ended. */
  datatype Effect =
    | CloseReaders
    | KillGroup
    | TryReap
    | KillChild
    | ReapUntilDeadline
    | Reap
    | DisarmGroup
    | ReleaseGuard

  predicate Waits(e: Effect) {
    e == TryReap || e == ReapUntilDeadline || e == Reap
  }

  datatype Output = Output(stdout: Bytes, stderr: Bytes)

  /** The result a terminal state and a cleanup outcome come to. */
  function Conclude(terminal: Terminal, outcome: CleanupOutcome): Result<Output, ProcessError> {
    if outcome != ReapedWithinDeadline then Err(WaitFailed)
    else
      match terminal
      case Finished(stdout, stderr) => Ok(Output(stdout, stderr))
      case Failure(error) => Err(error)
      case _ => Err(WaitFailed)
  }

  /** The group is killed before anything waits, and the guard is released last, once. */
  predicate Authoritative(log: seq<Effect>) {
    && |log| > 2 && log[0] == CloseReaders && log[1] == KillGroup
    && (forall i :: 0 <= i < 2 ==> !Waits(log[i]))
    && (forall i :: 0 <= i < |log| ==> (log[i] == ReleaseGuard <==> i == |log| - 1))
    && (DisarmGroup !in log ==>
          exists k :: 1 < k < |log| && log[k] == KillGroup && forall i :: k < i < |log| ==> !Waits(log[i]))
  }

  /** The acts of `terminate_process_group_and_reap`. */
  function ReapEffects(r: Reaping): seq<Effect> {
    [KillGroup, TryReap]
    + (if r.tryWait == Exited then []
       else [KillChild, ReapUntilDeadline] + (if r.timedWait == Elapsed then [Reap] else []))
    + (if Reaped(r) then [DisarmGroup] else [])
  }

  /** From the end of the loop to scope exit, where an armed group is killed once more. */
  function CleanupEffects(r: Reaping): seq<Effect> {
    [CloseReaders] + ReapEffects(r) + (if Reaped(r) then [] else [KillGroup, KillChild]) + [ReleaseGuard]
  }

  /** The acts of every reaping outcome, one by one. */
  lemma CleanupSteps(r: Reaping)
    ensures CleanupEffects(r) ==
      if r.tryWait == Exited then [CloseReaders, KillGroup, TryReap, DisarmGroup, ReleaseGuard]
      else
        match r.timedWait
        case WaitOk => [CloseReaders, KillGroup, TryReap, KillChild, ReapUntilDeadline, DisarmGroup, ReleaseGuard]
        case WaitErr =>
          [CloseReaders, KillGroup, TryReap, KillChild, ReapUntilDeadline, KillGroup, KillChild, ReleaseGuard]
        case Elapsed =>
          [CloseReaders, KillGroup, TryReap, KillChild, ReapUntilDeadline, Reap]
          + (if r.finalWaitOk then [DisarmGroup, ReleaseGuard] else [KillGroup, KillChild, ReleaseGuard])
  {
  }

  /** Every path kills the group before waiting, and the completion guard outlives all cleanup. */
  lemma CleanupIsAuthoritative(r: Reaping)
    ensures Authoritative(CleanupEffects(r))
    ensures DisarmGroup in CleanupEffects(r) <==> Reaped(r)
  {
    CleanupSteps(r);
    hide CleanupEffects;
    var log := CleanupEffects(r);
    if r.tryWait == Exited {
      assert log[3] == DisarmGroup;
    } else if r.timedWait == WaitOk {
      assert log[5] == DisarmGroup;
    } else if r.timedWait == WaitErr {
      assert log[5] == KillGroup;
    } else {
      assert log[6] == if r.finalWaitOk then DisarmGroup else KillGroup;
    }
  }

  /** The mutable state of the select loop and one turn of `tokio::select!`. */
  class EventLoop {
    const bounds: Bounds
    const stdoutReader: BoundedReader
    const stderrReader: BoundedReader
    var stdoutBytes: Option<Bytes>
    var stderrBytes: Option<Bytes>
    var childSucceeded: bool
    var exited: Option<ExitStatus>
    ghost var seen: seq<Wake>

    function Collected(): Progress
      reads this
    {
      Progress(stdoutBytes, stderrBytes, childSucceeded)
    }

    ghost predicate Valid()
      reads this, stdoutReader, stderrReader
    {
      && stdoutReader != stderrReader
      && stdoutReader.Valid() && stdoutReader.limit == bounds.maxStdout && stdoutReader.arrived == StdoutBy(seen)
      && stderrReader.Valid() && stderrReader.limit == bounds.maxStderr && stderrReader.arrived == StderrBy(seen)
      && (stdoutBytes.None? ==> stdoutReader.finished.None?)
      && (stderrBytes.None? ==> stderrReader.finished.None?)
      && exited == ExitBy(seen)
    }

    constructor (bounds: Bounds)
      ensures Valid() && this.bounds == bounds && seen == [] && Collected() == START
      ensures fresh(stdoutReader) && fresh(stderrReader)
    {
      var stdout := new BoundedReader(bounds.maxStdout);
      var stderr := new BoundedReader(bounds.maxStderr);
      this.bounds, stdoutReader, stderrReader := bounds, stdout, stderr;
      stdoutBytes, stderrBytes, childSucceeded, exited, seen := None, None, false, None, [];
    }

    method Observe(wake: Wake)
      requires Valid()
      modifies this`exited, this`seen, stdoutReader, stderrReader
      ensures Valid() && seen == old(seen) + [wake]
    {
      hide Read, Gather, AllData;
      assert (seen + [wake])[..|seen|] == seen;
      stdoutReader.Arrive(wake.stdout);
      stderrReader.Arrive(wake.stderr);
      if exited.None? {
        exited := wake.exited;
      }
      seen := seen + [wake];
    }

    /** One turn of the biased select; after a stop the loop is not used again. */
    method PollOnce(wake: Wake) returns (stop: Option<Terminal>)
      requires Valid()
      modifies this, stdoutReader, stderrReader
      ensures seen == old(seen) + [wake] && (stop == None ==> Valid())
      ensures Answers(Turn(bounds, seen, old(Collected())), stop, Collected())
    {
      Observe(wake);
      assert seen[|seen| - 1] == wake;
      hide Valid, OnStdout;
      if wake.cancelled {
        return Some(Cancelled);
      }
      if wake.now >= bounds.operationDeadline {
        return Some(Failure(TimedOut));
      }
      stop := PollStdout();
    }

    method PollStdout() returns (stop: Option<Terminal>)
      requires Valid()
      modifies this, stdoutReader, stderrReader
      ensures seen == old(seen) && (stop == None ==> Valid())
      ensures Answers(OnStdout(bounds, seen, old(Collected())), stop, Collected())
    {
      hide Read, StdoutBy, StderrBy, ExitBy, OnStderr, Gather, AllData;
      if stdoutBytes.None? {
        var read := stdoutReader.Poll();
        match read {
          case Complete(bytes) => stdoutBytes := Some(bytes); return None;
          case LimitExceeded => return Some(Failure(StdoutLimitExceeded));
          case ReadFailed => return Some(Failure(WaitFailed));
          case Pending =>
        }
      }
      stop := PollStderr();
    }

    method PollStderr() returns (stop: Option<Terminal>)
      requires Valid()
      modifies this, stderrReader
      ensures seen == old(seen) && (stop == None ==> Valid())
      ensures Answers(OnStderr(bounds, seen, old(Collected())), stop, Collected())
    {
      hide Read, StdoutBy, StderrBy, ExitBy, OnChild, Gather, AllData;
      if stderrBytes.None? {
        var read := stderrReader.Poll();
        match read {
          case Complete(bytes) => stderrBytes := Some(bytes); return None;
          case LimitExceeded => return Some(Failure(StderrLimitExceeded));
          case ReadFailed => return Some(Failure(WaitFailed));
          case Pending =>
        }
      }
      stop := PollChild();
    }

    method PollChild() returns (stop: Option<Terminal>)
      requires Valid()
      modifies this`childSucceeded
      ensures Valid() && Answers(OnChild(exited, old(Collected())), stop, Collected())
    {
      if !childSucceeded && exited.Some? {
        match exited.value {
          case Success => childSucceeded := true;
          case NonZero => return Some(Failure(ProgramFailed));
          case WaitError => return Some(Failure(WaitFailed));
        }
      }
      return None;
    }
  }

  /** The imperative answer to a turn: stopped with a terminal, or going on with this progress. */
  predicate Answers(turn: Result<Progress, Terminal>, stop: Option<Terminal>, collected: Progress) {
    match turn
    case Err(terminal) => stop == Some(terminal)
    case Ok(next) => stop == None && collected == next
  }

  /** A turn at or after the operation deadline never continues, and no turn stops for no reason. */
  lemma TurnStops(b: Bounds, upTo: seq<Wake>, p: Progress)
    requires upTo != []
    ensures Turn(b, upTo, p) != Err(StillRunning)
    ensures upTo[|upTo| - 1].now >= b.operationDeadline ==> Turn(b, upTo, p).Err?
  {
  }

  class Supervisor {
    var log: seq<Effect>
    var groupArmed: bool
    const bounds: Bounds

    constructor (bounds: Bounds)
      ensures this.bounds == bounds && log == [] && groupArmed
    {
      this.bounds := bounds;
      log, groupArmed := [], true;
    }

    /** The select loop of `supervise_process`; its operation timer fires by the last turn. */
    method Select(schedule: seq<Wake>) returns (terminal: Terminal)
      requires exists i :: 0 <= i < |schedule| && schedule[i].now >= bounds.operationDeadline
      ensures terminal == Loop(bounds, schedule, 0, START)
      ensures terminal != StillRunning
    {
      hide Turn, Read, StdoutBy, StderrBy, ExitBy, BoundedReader.Valid;
      var events := new EventLoop(bounds);
      var i := 0;
      while !(events.childSucceeded && events.stdoutBytes.Some? && events.stderrBytes.Some?)
        invariant i <= |schedule| && events.Valid() && events.bounds == bounds && events.seen == schedule[..i]
        invariant fresh(events) && fresh(events.stdoutReader) && fresh(events.stderrReader)
        invariant Loop(bounds, schedule, 0, START) == Loop(bounds, schedule, i, events.Collected())
        invariant forall k :: 0 <= k < i ==> schedule[k].now < bounds.operationDeadline
        decreases |schedule| - i
      {
        TurnStops(bounds, schedule[..i + 1], events.Collected());
        assert schedule[..i] + [schedule[i]] == schedule[..i + 1];
        var stop := events.PollOnce(schedule[i]);
        if stop.Some? {
          return stop.value;
        }
        i := i + 1;
      }
      return Finished(events.stdoutBytes.value, events.stderrBytes.value);
    }

    /** `terminate_process_group_and_reap`. */
    method TerminateAndReap(r: Reaping) returns (outcome: CleanupOutcome)
      requires r.now0 <= r.now1
      modifies this
      ensures outcome == ReapFailed <==> !Reaped(r)
      ensures outcome == ReapedWithinDeadline <==>
        r.now1 <= bounds.finalDeadline && (r.tryWait == Exited || r.timedWait == WaitOk)
      ensures groupArmed == (old(groupArmed) && !Reaped(r))
      ensures log == old(log) + ReapEffects(r)
    {
      log := log + [KillGroup];
      var withinDeadline := r.now0 <= bounds.finalDeadline;
      log := log + [TryReap];
      var reaped := true;
      if r.tryWait != Exited {
        log := log + [KillChild];
        log := log + [ReapUntilDeadline];
        match r.timedWait {
          case WaitOk => reaped := true;
          case WaitErr => reaped := false;
          case Elapsed =>
            withinDeadline := false;
            log := log + [Reap];
            reaped := r.finalWaitOk;
        }
      }
      if !reaped {
        return ReapFailed;
      }
      groupArmed := false;
      log := log + [DisarmGroup];
      if withinDeadline && r.now1 <= bounds.finalDeadline {
        return ReapedWithinDeadline;
      }
      return ReapedAfterDeadline;
    }

    /** `supervise_process`: loop, close the pipes, clean up, conclude, and only then let go. */
    method Supervise(schedule: seq<Wake>, r: Reaping) returns (result: Result<Output, ProcessError>)
      requires exists i :: 0 <= i < |schedule| && schedule[i].now >= bounds.operationDeadline
      requires r.now0 <= r.now1 && log == [] && groupArmed
      modifies this
      ensures var timely := r.now1 <= bounds.finalDeadline && (r.tryWait == Exited || r.timedWait == WaitOk);
        result ==
          if !timely then Err(WaitFailed)
          else
            match Loop(bounds, schedule, 0, START)
            case Finished(stdout, stderr) => Ok(Output(stdout, stderr))
            case Failure(error) => Err(error)
            case Cancelled => Err(WaitFailed)
            case StillRunning => Err(WaitFailed)
      ensures log == CleanupEffects(r)
      ensures Authoritative(log) && (DisarmGroup in log <==> Reaped(r))
    {
      CleanupIsAuthoritative(r);
      hide Loop, ReapEffects, Reaped, Authoritative;
      var terminal := Select(schedule);
      log := log + [CloseReaders];
      var outcome := TerminateAndReap(r);
      if outcome == ReapedWithinDeadline {
        result := Conclude(terminal, outcome);
      } else {
        result := Err(WaitFailed);
      }
      DropGuards();
    }

    /** Scope exit: an armed group is killed again, then the caller's completion guard is dropped. */
    method DropGuards()
      modifies this
      ensures groupArmed == old(groupArmed)
      ensures log == old(log) + (if groupArmed then [KillGroup, KillChild] else []) + [ReleaseGuard]
    {
      if groupArmed {
        log := log + [KillGroup];
        log := log + [KillChild];
      }
      log := log + [ReleaseGuard];
    }
  }

  // ---------------------------------------------------------------- what the loop guarantees

  predicate Quiet(b: Bounds, schedule: seq<Wake>, n: nat)
    requires n <= |schedule|
  {
    forall i :: 0 <= i < n ==> !schedule[i].cancelled && schedule[i].now < b.operationDeadline
  }

  /** What a given progress has seen by turn `n`. */
  predicate Earned(b: Bounds, schedule: seq<Wake>, n: nat, p: Progress)
    requires n <= |schedule|
  {
    && (p.stdout.Some? ==> Read([], StdoutBy(schedule[..n]), b.maxStdout) == Complete(p.stdout.value))
    && (p.stderr.Some? ==> Read([], StderrBy(schedule[..n]), b.maxStderr) == Complete(p.stderr.value))
    && (p.childSucceeded ==> ExitBy(schedule[..n]) == Some(Success))
  }

  /** What one more turn adds to what has been seen. */
  lemma SeenGrows(schedule: seq<Wake>, n: nat)
    requires n < |schedule|
    ensures StdoutBy(schedule[..n + 1]) == StdoutBy(schedule[..n]) + schedule[n].stdout
    ensures StderrBy(schedule[..n + 1]) == StderrBy(schedule[..n]) + schedule[n].stderr
    ensures ExitBy(schedule[..n]).Some? ==> ExitBy(schedule[..n + 1]) == ExitBy(schedule[..n])
    ensures schedule[..n + 1][n] == schedule[n]
  {
    assert schedule[..n + 1][..n] == schedule[..n];
  }

  lemma EarnedLater(b: Bounds, schedule: seq<Wake>, n: nat, p: Progress)
    requires n < |schedule| && Earned(b, schedule, n, p)
    ensures Earned(b, schedule, n + 1, p)
  {
    SeenGrows(schedule, n);
    hide Read, StdoutBy, StderrBy, ExitBy;
    if p.stdout.Some? {
      ReadIsStable([], StdoutBy(schedule[..n]), schedule[n].stdout, b.maxStdout);
    }
    if p.stderr.Some? {
      ReadIsStable([], StderrBy(schedule[..n]), schedule[n].stderr, b.maxStderr);
    }
  }

  lemma TurnIsEarned(b: Bounds, schedule: seq<Wake>, n: nat, p: Progress)
    requires n < |schedule| && Earned(b, schedule, n, p) && Turn(b, schedule[..n + 1], p).Ok?
    ensures Earned(b, schedule, n + 1, Turn(b, schedule[..n + 1], p).value)
    ensures !schedule[n].cancelled && schedule[n].now < b.operationDeadline
  {
    EarnedLater(b, schedule, n, p);
    SeenGrows(schedule, n);
    hide Read, StdoutBy, StderrBy, ExitBy;
  }

  lemma {:induction false} FinishedIsEarned(b: Bounds, schedule: seq<Wake>, i: nat, p: Progress) returns (n: nat)
    requires i <= |schedule| && Quiet(b, schedule, i) && Earned(b, schedule, i, p)
    requires Loop(b, schedule, i, p).Finished?
    ensures i <= n <= |schedule| && Quiet(b, schedule, n)
    ensures var t := Loop(b, schedule, i, p);
      Earned(b, schedule, n, Progress(Some(t.stdout), Some(t.stderr), true))
    decreases |schedule| - i
  {
    if Done(p) {
      n := i;
    } else {
      TurnStops(b, schedule[..i + 1], p);
      hide Turn, Earned;
      TurnIsEarned(b, schedule, i, p);
      n := FinishedIsEarned(b, schedule, i + 1, Turn(b, schedule[..i + 1], p).value);
    }
  }

  /** By turn `n` everything an `Ok` stands for had happened, the streams ending at the given chunks. */
  predicate SuccessBy(b: Bounds, schedule: seq<Wake>, output: Output, n: nat, stdoutEnd: nat, stderrEnd: nat) {
    && n <= |schedule| && Quiet(b, schedule, n) && ExitBy(schedule[..n]) == Some(Success)
    && EndsAt(StdoutBy(schedule[..n]), stdoutEnd) && EndsAt(StderrBy(schedule[..n]), stderrEnd)
    && output.stdout == Gather(StdoutBy(schedule[..n])[..stdoutEnd]) && |output.stdout| <= b.maxStdout
    && output.stderr == Gather(StderrBy(schedule[..n])[..stderrEnd]) && |output.stderr| <= b.maxStderr
  }

  /**
   * Success is earned: whatever the schedule, Ok means that before any cancellation and before the
   * operation deadline the child exited successfully and both pipes were closed within their limits,
   * that each output is its whole stream, and that the child was reaped by the final deadline.
   */
  lemma SuccessIsEarned(b: Bounds, schedule: seq<Wake>, outcome: CleanupOutcome, output: Output)
    requires Conclude(Loop(b, schedule, 0, START), outcome) == Ok(output)
    ensures outcome == ReapedWithinDeadline
    ensures exists n, stdoutEnd, stderrEnd :: SuccessBy(b, schedule, output, n, stdoutEnd, stderrEnd)
  {
    var n := FinishedIsEarned(b, schedule, 0, START);
    var stdoutEnd := CompleteMeansClosed([], StdoutBy(schedule[..n]), b.maxStdout);
    var stderrEnd := CompleteMeansClosed([], StderrBy(schedule[..n]), b.maxStderr);
    assert SuccessBy(b, schedule, output, n, stdoutEnd, stderrEnd);
  }

  /** How many completions are still to be collected. */
  function Missing(p: Progress): nat {
    (if p.stdout.None? then 1 else 0) + (if p.stderr.None? then 1 else 0) + (if p.childSucceeded then 0 else 1)
  }

  /** Progress that the final streams and exit status agree with. */
  predicate Consistent(p: Progress, stdout: Bytes, stderr: Bytes) {
    (p.stdout.Some? ==> p.stdout.value == stdout) && (p.stderr.Some? ==> p.stderr.value == stderr)
  }

  predicate SettledAt(b: Bounds, schedule: seq<Wake>, k: nat, stdout: Bytes, stderr: Bytes)
    requires k < |schedule|
  {
    && Read([], StdoutBy(schedule[..k + 1]), b.maxStdout) == Complete(stdout)
    && Read([], StderrBy(schedule[..k + 1]), b.maxStderr) == Complete(stderr)
    && ExitBy(schedule[..k + 1]) == Some(Success)
  }

  lemma SettledLater(b: Bounds, schedule: seq<Wake>, k: nat, i: nat, stdout: Bytes, stderr: Bytes)
    requires k <= i < |schedule| && SettledAt(b, schedule, k, stdout, stderr)
    ensures SettledAt(b, schedule, i, stdout, stderr)
    decreases i
  {
    if k < i {
      hide Read, StdoutBy, StderrBy, ExitBy;
      SettledLater(b, schedule, k, i - 1, stdout, stderr);
      SeenGrows(schedule, i);
      ReadIsStable([], StdoutBy(schedule[..i]), schedule[i].stdout, b.maxStdout);
      ReadIsStable([], StderrBy(schedule[..i]), schedule[i].stderr, b.maxStderr);
    }
  }

  /** Before a stream settles, its reader is either still pending or already has the same answer. */
  lemma UnsettledAgrees(b: Bounds, schedule: seq<Wake>, k: nat, i: nat, stdout: Bytes, stderr: Bytes)
    requires i <= k < |schedule| && SettledAt(b, schedule, k, stdout, stderr)
    ensures Read([], StdoutBy(schedule[..i + 1]), b.maxStdout) in {Pending, Complete(stdout)}
    ensures Read([], StderrBy(schedule[..i + 1]), b.maxStderr) in {Pending, Complete(stderr)}
    ensures ExitBy(schedule[..i + 1]) in {None, Some(Success)}
    decreases k - i
  {
    if i < k {
      hide Read, StdoutBy, StderrBy, ExitBy;
      UnsettledAgrees(b, schedule, k, i + 1, stdout, stderr);
      SeenGrows(schedule, i + 1);
      if Read([], StdoutBy(schedule[..i + 1]), b.maxStdout) != Pending {
        ReadIsStable([], StdoutBy(schedule[..i + 1]), schedule[i + 1].stdout, b.maxStdout);
      }
      if Read([], StderrBy(schedule[..i + 1]), b.maxStderr) != Pending {
        ReadIsStable([], StderrBy(schedule[..i + 1]), schedule[i + 1].stderr, b.maxStderr);
      }
    }
  }

  /**
   * Success is reached: when both pipes have closed within their limits and the child has exited
   * successfully by turn `k`, undisturbed turns up to `k + 2` are enough to finish.
   */
  lemma {:induction false} SuccessIsReached(b: Bounds, schedule: seq<Wake>, k: nat, i: nat, p: Progress,
                                            stdout: Bytes, stderr: Bytes)
    requires k < |schedule| && SettledAt(b, schedule, k, stdout, stderr) && i <= |schedule|
    requires k + 3 <= |schedule| && Quiet(b, schedule, k + 3)
    requires Consistent(p, stdout, stderr)
    requires i <= k || i + Missing(p) <= k + 3
    ensures Loop(b, schedule, i, p) == Finished(stdout, stderr)
    decreases |schedule| - i
  {
    if !Done(p) {
      if i <= k {
        UnsettledAgrees(b, schedule, k, i, stdout, stderr);
      } else {
        SettledLater(b, schedule, k, i, stdout, stderr);
      }
      assert schedule[..i + 1][i] == schedule[i];
      if i == k {
        SettledLater(b, schedule, k, i, stdout, stderr);
      }
      SuccessIsReached(b, schedule, k, i + 1, Turn(b, schedule[..i + 1], p).value, stdout, stderr);
    }
  }

  /** Each failure has its cause at some turn that no cancellation or deadline preceded. */
  predicate HasCause(b: Bounds, schedule: seq<Wake>, i: nat, terminal: Terminal)
    requires i < |schedule|
  {
    var seen := schedule[..i + 1];
    var undisturbed := !schedule[i].cancelled && schedule[i].now < b.operationDeadline;
    match terminal
    case Cancelled => schedule[i].cancelled
    case Failure(error) => (
      match error
      case TimedOut => !schedule[i].cancelled && schedule[i].now >= b.operationDeadline
      case StdoutLimitExceeded => undisturbed && Read([], StdoutBy(seen), b.maxStdout) == LimitExceeded
      case StderrLimitExceeded => undisturbed && Read([], StderrBy(seen), b.maxStderr) == LimitExceeded
      case ProgramFailed => undisturbed && ExitBy(seen) == Some(NonZero)
      case WaitFailed => undisturbed && (Read([], StdoutBy(seen), b.maxStdout) == ReadFailed
                           || Read([], StderrBy(seen), b.maxStderr) == ReadFailed || ExitBy(seen) == Some(WaitError))
      case _ => false)
    case _ => false
  }

  lemma {:induction false} FailureHasCause(b: Bounds, schedule: seq<Wake>, i: nat, p: Progress) returns (n: nat)
    requires i <= |schedule| && Quiet(b, schedule, i)
    requires !Loop(b, schedule, i, p).Finished? && Loop(b, schedule, i, p) != StillRunning
    ensures i <= n < |schedule| && Quiet(b, schedule, n) && HasCause(b, schedule, n, Loop(b, schedule, i, p))
    decreases |schedule| - i
  {
    hide Read, StdoutBy, StderrBy, ExitBy;
    assert schedule[..i + 1][i] == schedule[i];
    if Turn(b, schedule[..i + 1], p).Err? {
      n := i;
    } else {
      n := FailureHasCause(b, schedule, i + 1, Turn(b, schedule[..i + 1], p).value);
    }
  }

  // ---------------------------------------------------------------- what the loop reports

  predicate Fails(read: ReadResult) { read.LimitExceeded? || read.ReadFailed? }

  /** By this turn neither pipe and not the child has gone wrong. */
  predicate Calm(b: Bounds, schedule: seq<Wake>, j: nat)
    requires j < |schedule|
  {
    && !Fails(Read([], StdoutBy(schedule[..j + 1]), b.maxStdout))
    && !Fails(Read([], StderrBy(schedule[..j + 1]), b.maxStderr))
    && (ExitBy(schedule[..j + 1]) == None || ExitBy(schedule[..j + 1]) == Some(Success))
  }

  lemma CalmTurnContinues(b: Bounds, schedule: seq<Wake>, i: nat, p: Progress)
    requires i < |schedule| && Calm(b, schedule, i) && Earned(b, schedule, i, p)
    requires !schedule[i].cancelled && schedule[i].now < b.operationDeadline
    ensures Turn(b, schedule[..i + 1], p).Ok?
    ensures Earned(b, schedule, i + 1, Turn(b, schedule[..i + 1], p).value)
  {
    SeenGrows(schedule, i);
    TurnContinues(b, schedule, i, p);
    hide Turn, Earned;
    TurnIsEarned(b, schedule, i, p);
  }

  lemma TurnContinues(b: Bounds, schedule: seq<Wake>, i: nat, p: Progress)
    requires i < |schedule| && Calm(b, schedule, i)
    requires !schedule[i].cancelled && schedule[i].now < b.operationDeadline
    ensures Turn(b, schedule[..i + 1], p).Ok?
  {
    assert schedule[..i + 1][i] == schedule[i];
    hide Read, StdoutBy, StderrBy, ExitBy;
  }

  /** What was seen to be over by turn `n` is still so by any later turn. */
  lemma EarnedByThen(b: Bounds, schedule: seq<Wake>, n: nat, m: nat, p: Progress)
    requires n <= m <= |schedule| && Earned(b, schedule, n, p)
    ensures Earned(b, schedule, m, p)
    decreases m - n
  {
    if n < m {
      hide Earned;
      EarnedLater(b, schedule, n, p);
      EarnedByThen(b, schedule, n + 1, m, p);
    }
  }

  function PipeError(read: ReadResult, limit: ProcessError): ProcessError {
    if read.LimitExceeded? then limit else WaitFailed
  }

  /**
   * Standard output over its limit, or broken, is reported at the turn it is seen, whatever else
   * happened by then on standard error or to the child.
   */
  lemma {:induction false} StdoutFailureIsReported(b: Bounds, schedule: seq<Wake>, k: nat, i: nat, p: Progress)
    requires i <= k < |schedule| && Quiet(b, schedule, k + 1) && Earned(b, schedule, i, p)
    requires forall j :: i <= j < k ==> Calm(b, schedule, j)
    requires Fails(Read([], StdoutBy(schedule[..k + 1]), b.maxStdout))
    ensures Loop(b, schedule, i, p)
            == Failure(PipeError(Read([], StdoutBy(schedule[..k + 1]), b.maxStdout), StdoutLimitExceeded))
    decreases k - i
  {
    EarnedByThen(b, schedule, i, k + 1, p);
    assert p.stdout == None;
    assert schedule[..i + 1][i] == schedule[i];
    if i < k {
      CalmTurnContinues(b, schedule, i, p);
      hide Turn, Earned, Calm, Read, StdoutBy;
      StdoutFailureIsReported(b, schedule, k, i + 1, Turn(b, schedule[..i + 1], p).value);
    } else {
      hide Read, StdoutBy, Earned;
    }
  }

  lemma StderrTurn(b: Bounds, schedule: seq<Wake>, i: nat, p: Progress)
    requires i < |schedule| && p.stderr == None
    requires !schedule[i].cancelled && schedule[i].now < b.operationDeadline
    requires !Fails(Read([], StdoutBy(schedule[..i + 1]), b.maxStdout))
    requires Fails(Read([], StderrBy(schedule[..i + 1]), b.maxStderr))
    ensures Turn(b, schedule[..i + 1], p) ==
      match Read([], StdoutBy(schedule[..i + 1]), b.maxStdout)
      case Complete(bytes) =>
        if p.stdout == None then Ok(p.(stdout := Some(bytes)))
        else Err(Failure(PipeError(Read([], StderrBy(schedule[..i + 1]), b.maxStderr), StderrLimitExceeded)))
      case _ => Err(Failure(PipeError(Read([], StderrBy(schedule[..i + 1]), b.maxStderr), StderrLimitExceeded)))
  {
    assert schedule[..i + 1][i] == schedule[i];
    hide Read, StdoutBy, StderrBy, ExitBy;
  }

  /**
   * Standard error over its limit, or broken, is reported as soon as standard output is out of the
   * way, which takes one turn at most, whatever happened to the child.
   */
  lemma {:induction false} StderrFailureIsReported(b: Bounds, schedule: seq<Wake>, k: nat, i: nat, p: Progress)
    requires i <= k && k + 1 < |schedule| && Quiet(b, schedule, k + 2) && Earned(b, schedule, i, p)
    requires forall j :: i <= j < k ==> Calm(b, schedule, j)
    requires !Fails(Read([], StdoutBy(schedule[..k + 1]), b.maxStdout))
    requires !Fails(Read([], StdoutBy(schedule[..k + 2]), b.maxStdout))
    requires Fails(Read([], StderrBy(schedule[..k + 1]), b.maxStderr))
    ensures Loop(b, schedule, i, p)
            == Failure(PipeError(Read([], StderrBy(schedule[..k + 1]), b.maxStderr), StderrLimitExceeded))
    decreases k - i
  {
    EarnedByThen(b, schedule, i, k + 1, p);
    assert p.stderr == None;
    if i < k {
      CalmTurnContinues(b, schedule, i, p);
      hide Turn, Earned, Calm, Read, StdoutBy, StderrBy;
      StderrFailureIsReported(b, schedule, k, i + 1, Turn(b, schedule[..i + 1], p).value);
    } else {
      hide Turn, Earned, Calm, Read, StdoutBy, StderrBy, ExitBy;
      StderrFailsNow(b, schedule, k, p);
    }
  }

  lemma StderrFailsNow(b: Bounds, schedule: seq<Wake>, k: nat, p: Progress)
    requires k + 1 < |schedule| && Quiet(b, schedule, k + 2) && p.stderr == None
    requires !Fails(Read([], StdoutBy(schedule[..k + 1]), b.maxStdout))
    requires !Fails(Read([], StdoutBy(schedule[..k + 2]), b.maxStdout))
    requires Fails(Read([], StderrBy(schedule[..k + 1]), b.maxStderr))
    ensures Loop(b, schedule, k, p)
            == Failure(PipeError(Read([], StderrBy(schedule[..k + 1]), b.maxStderr), StderrLimitExceeded))
  {
    hide Turn, Read, StdoutBy, StderrBy, ExitBy;
    StderrTurn(b, schedule, k, p);
    var turn := Turn(b, schedule[..k + 1], p);
    if turn.Ok? {
      SeenGrows(schedule, k + 1);
      ReadIsStable([], StderrBy(schedule[..k + 1]), schedule[k + 1].stderr, b.maxStderr);
      StderrTurn(b, schedule, k + 1, turn.value);
      LoopGoesOn(b, schedule, k, p);
      LoopStops(b, schedule, k + 1, turn.value);
    } else {
      LoopStops(b, schedule, k, p);
    }
  }

  lemma LoopGoesOn(b: Bounds, schedule: seq<Wake>, i: nat, p: Progress)
    requires i < |schedule| && !Done(p) && Turn(b, schedule[..i + 1], p).Ok?
    ensures Loop(b, schedule, i, p) == Loop(b, schedule, i + 1, Turn(b, schedule[..i + 1], p).value)
  {
    hide Turn;
  }

  lemma LoopStops(b: Bounds, schedule: seq<Wake>, i: nat, p: Progress)
    requires i < |schedule| && !Done(p) && Turn(b, schedule[..i + 1], p).Err?
    ensures Loop(b, schedule, i, p) == Turn(b, schedule[..i + 1], p).error
  {
    hide Turn;
  }

  function OpenPipes(p: Progress): nat {
    (if p.stdout.None? then 1 else 0) + (if p.stderr.None? then 1 else 0)
  }

  /** The turn reports the failed child, or closes one more pipe. */
  predicate ReportsExit(turn: Result<Progress, Terminal>, p: Progress, status: ExitStatus) {
    || turn == Err(Failure(if status == NonZero then ProgramFailed else WaitFailed))
    || (turn.Ok? && OpenPipes(turn.value) < OpenPipes(p) && !turn.value.childSucceeded)
  }

  lemma ExitOnStderr(b: Bounds, upTo: seq<Wake>, p: Progress, status: ExitStatus)
    requires !p.childSucceeded && status != Success && ExitBy(upTo) == Some(status)
    requires !Fails(Read([], StderrBy(upTo), b.maxStderr))
    ensures ReportsExit(OnStderr(b, upTo, p), p, status)
  {
    hide Read, StderrBy, ExitBy;
  }

  lemma ExitOnStdout(b: Bounds, upTo: seq<Wake>, p: Progress, status: ExitStatus)
    requires !p.childSucceeded && !Fails(Read([], StdoutBy(upTo), b.maxStdout))
    requires ReportsExit(OnStderr(b, upTo, p), p, status)
    ensures ReportsExit(OnStdout(b, upTo, p), p, status)
  {
    hide Read, StdoutBy, OnStderr;
  }

  lemma ExitTurn(b: Bounds, schedule: seq<Wake>, i: nat, p: Progress, status: ExitStatus)
    requires i < |schedule| && !p.childSucceeded && status != Success
    requires !schedule[i].cancelled && schedule[i].now < b.operationDeadline
    requires !Fails(Read([], StdoutBy(schedule[..i + 1]), b.maxStdout))
    requires !Fails(Read([], StderrBy(schedule[..i + 1]), b.maxStderr))
    requires ExitBy(schedule[..i + 1]) == Some(status)
    ensures ReportsExit(Turn(b, schedule[..i + 1], p), p, status)
  {
    assert schedule[..i + 1][i] == schedule[i];
    ExitOnStderr(b, schedule[..i + 1], p, status);
    ExitOnStdout(b, schedule[..i + 1], p, status);
    hide Read, StdoutBy, StderrBy, ExitBy, OnStdout, OnStderr, ReportsExit;
  }

  /** A pipe that does not fail up to and including a turn. */
  predicate PipesHold(b: Bounds, schedule: seq<Wake>, j: nat)
    requires j < |schedule|
  {
    && !Fails(Read([], StdoutBy(schedule[..j + 1]), b.maxStdout))
    && !Fails(Read([], StderrBy(schedule[..j + 1]), b.maxStderr))
  }

  lemma {:induction false} ExitStays(schedule: seq<Wake>, k: nat, j: nat)
    requires k <= j <= |schedule| && ExitBy(schedule[..k]).Some?
    ensures ExitBy(schedule[..j]) == ExitBy(schedule[..k])
    decreases j
  {
    if k < j {
      ExitStays(schedule, k, j - 1);
      SeenGrows(schedule, j - 1);
    }
  }

  /**
   * A child that failed, or could not be waited for, is reported as soon as the pipes that have
   * closed are out of the way, which takes two turns at most.
   */
  lemma {:induction false} ExitFailureIsReported(b: Bounds, schedule: seq<Wake>, k: nat, i: nat, p: Progress,
                                                 status: ExitStatus)
    requires k + 2 < |schedule| && Quiet(b, schedule, k + 3) && status != Success
    requires i <= k || i + OpenPipes(p) <= k + 2
    requires i <= k + 2 && !p.childSucceeded && (i <= k ==> Earned(b, schedule, i, p))
    requires forall j :: i <= j < k ==> Calm(b, schedule, j)
    requires forall j :: k <= j <= k + 2 ==> PipesHold(b, schedule, j)
    requires ExitBy(schedule[..k + 1]) == Some(status)
    ensures Loop(b, schedule, i, p) == Failure(if status == NonZero then ProgramFailed else WaitFailed)
    decreases k + 3 - i
  {
    assert schedule[..i + 1][i] == schedule[i];
    if i < k {
      CalmTurnContinues(b, schedule, i, p);
      var next := Turn(b, schedule[..i + 1], p).value;
      ExitUnseen(b, schedule, k, i + 1, next, status);
      hide Turn, Earned, Calm, PipesHold, ExitBy;
      ExitFailureIsReported(b, schedule, k, i + 1, next, status);
    } else {
      ExitStays(schedule, k + 1, i + 1);
      assert PipesHold(b, schedule, i);
      ExitTurn(b, schedule, i, p, status);
      hide Turn, Earned, Calm, PipesHold, ExitBy, Read, StdoutBy, StderrBy;
      if Turn(b, schedule[..i + 1], p).Ok? {
        ExitFailureIsReported(b, schedule, k, i + 1, Turn(b, schedule[..i + 1], p).value, status);
      }
    }
  }

  lemma ExitUnseen(b: Bounds, schedule: seq<Wake>, k: nat, i: nat, p: Progress, status: ExitStatus)
    requires i <= k < |schedule| && Earned(b, schedule, i, p) && status != Success
    requires ExitBy(schedule[..k + 1]) == Some(status)
    ensures !p.childSucceeded
  {
    if p.childSucceeded {
      ExitStays(schedule, i, k + 1);
    }
  }

  /** Some pipe is still open or the child has not exited. */
  predicate Unfinished(b: Bounds, schedule: seq<Wake>, k: nat)
    requires k <= |schedule|
  {
    || !Read([], StdoutBy(schedule[..k]), b.maxStdout).Complete?
    || !Read([], StderrBy(schedule[..k]), b.maxStderr).Complete?
    || ExitBy(schedule[..k]) != Some(Success)
  }

  /**
   * While something is missing and nothing has failed, a cancellation ends the loop at once, and so
   * does the operation deadline from its very instant on; a cancellation wins over the deadline.
   */
  lemma {:induction false} InterruptionIsReported(b: Bounds, schedule: seq<Wake>, k: nat, i: nat, p: Progress)
    requires i <= k < |schedule| && Quiet(b, schedule, k) && Earned(b, schedule, i, p)
    requires forall j :: i <= j < k ==> Calm(b, schedule, j)
    requires Unfinished(b, schedule, k)
    requires schedule[k].cancelled || schedule[k].now >= b.operationDeadline
    ensures Loop(b, schedule, i, p) == if schedule[k].cancelled then Cancelled else Failure(TimedOut)
    decreases k - i
  {
    EarnedByThen(b, schedule, i, k, p);
    assert !Done(p);
    assert schedule[..i + 1][i] == schedule[i];
    if i < k {
      CalmTurnContinues(b, schedule, i, p);
      hide Turn, Earned, Calm, Unfinished;
      InterruptionIsReported(b, schedule, k, i + 1, Turn(b, schedule[..i + 1], p).value);
    }
  }

  /** Something is missing at the first turn that a cancellation or the deadline disturbs. */
  predicate Interrupted(b: Bounds, schedule: seq<Wake>, k: nat)
    requires k < |schedule|
  {
    && Quiet(b, schedule, k) && Unfinished(b, schedule, k)
    && (schedule[k].cancelled || schedule[k].now >= b.operationDeadline)
  }

  lemma NothingIsEarned(b: Bounds, schedule: seq<Wake>)
    ensures Earned(b, schedule, 0, START)
  {
  }

  /**
   * The loop from its start: the first thing to go wrong is what it reports, in the order of the
   * source when several go wrong together.
   */
  lemma FailuresAreReported(b: Bounds, schedule: seq<Wake>, k: nat)
    requires k + 2 < |schedule| && forall j :: 0 <= j < k ==> Calm(b, schedule, j)
    ensures var stdout, stderr := Read([], StdoutBy(schedule[..k + 1]), b.maxStdout),
                                  Read([], StderrBy(schedule[..k + 1]), b.maxStderr);
      var exited, terminal := ExitBy(schedule[..k + 1]), Loop(b, schedule, 0, START);
      && (Interrupted(b, schedule, k) && schedule[k].cancelled ==> terminal == Cancelled)
      && (Interrupted(b, schedule, k) && !schedule[k].cancelled ==> terminal == Failure(TimedOut))
      && (Quiet(b, schedule, k + 3) && stdout == LimitExceeded ==> terminal == Failure(StdoutLimitExceeded))
      && (Quiet(b, schedule, k + 3) && stdout == ReadFailed ==> terminal == Failure(WaitFailed))
      && (Quiet(b, schedule, k + 3) && StdoutHolds(b, schedule, k) && stderr == LimitExceeded ==>
            terminal == Failure(StderrLimitExceeded))
      && (Quiet(b, schedule, k + 3) && StdoutHolds(b, schedule, k) && stderr == ReadFailed ==>
            terminal == Failure(WaitFailed))
      && (Quiet(b, schedule, k + 3) && AllHold(b, schedule, k) && exited == Some(NonZero) ==>
            terminal == Failure(ProgramFailed))
      && (Quiet(b, schedule, k + 3) && AllHold(b, schedule, k) && exited == Some(WaitError) ==>
            terminal == Failure(WaitFailed))
  {
    NothingIsEarned(b, schedule);
    hide Loop, Read, StdoutBy, StderrBy, ExitBy, Calm, Earned;
    if Interrupted(b, schedule, k) {
      InterruptionIsReported(b, schedule, k, 0, START);
    }
    if Quiet(b, schedule, k + 3) {
      if Fails(Read([], StdoutBy(schedule[..k + 1]), b.maxStdout)) {
        StdoutFailureIsReported(b, schedule, k, 0, START);
      }
      if StdoutHolds(b, schedule, k) && Fails(Read([], StderrBy(schedule[..k + 1]), b.maxStderr)) {
        StderrFailureIsReported(b, schedule, k, 0, START);
      }
      var exited := ExitBy(schedule[..k + 1]);
      if AllHold(b, schedule, k) && exited.Some? && exited != Some(Success) {
        ExitFailureIsReported(b, schedule, k, 0, START, exited.value);
      }
    }
  }

  predicate StdoutHolds(b: Bounds, schedule: seq<Wake>, k: nat)
    requires k + 1 < |schedule|
  {
    && !Fails(Read([], StdoutBy(schedule[..k + 1]), b.maxStdout))
    && !Fails(Read([], StdoutBy(schedule[..k + 2]), b.maxStdout))
  }

  predicate AllHold(b: Bounds, schedule: seq<Wake>, k: nat)
    requires k + 2 < |schedule|
  {
    forall j :: k <= j <= k + 2 ==> PipesHold(b, schedule, j)
  }
}
