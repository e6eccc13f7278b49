/**
 * The single-lane volume mutation protocol: reserve, capture, set, verify, and on trouble restore
 * and confirm. Every await of the source is one step, so a run is any interleaving of any number of
 * requests with arbitrarily failing providers.
 */
module VolumeControl {
  import opened Common

  datatype StreamName = Alarm | Call | Music | Notification | Ring | System

  /** `grant_code` and `from_grant_code`. */
  function GrantCode(stream: StreamName): byte {
    match stream
    case Alarm => 1
    case Call => 2
    case Music => 3
    case Notification => 4
    case Ring => 5
    case System => 6
  }

  function FromGrantCode(code: byte): Option<StreamName> {
    match code
    case 1 => Some(Alarm)
    case 2 => Some(Call)
    case 3 => Some(Music)
    case 4 => Some(Notification)
    case 5 => Some(Ring)
    case 6 => Some(System)
    case _ => None
  }

  /** The two code tables are inverse to each other on exactly the codes 1 to 6. */
  lemma StreamCodesAreInverse(stream: StreamName, code: byte)
    ensures FromGrantCode(code) == Some(stream) <==> code == GrantCode(stream)
    ensures FromGrantCode(code).Some? <==> 1 <= code <= 6
    ensures code == 1 <==> FromGrantCode(code) == Some(Alarm)
    ensures code == 2 <==> FromGrantCode(code) == Some(Call)
    ensures code == 3 <==> FromGrantCode(code) == Some(Music)
    ensures code == 4 <==> FromGrantCode(code) == Some(Notification)
    ensures code == 5 <==> FromGrantCode(code) == Some(Ring)
    ensures code == 6 <==> FromGrantCode(code) == Some(System)
  {
    if 1 <= code <= 6 {
      assert code == 1 || code == 2 || code == 3 || code == 4 || code == 5 || code == 6;
    }
  }

  datatype Status = Status(volume: int, maxVolume: int)

  datatype ControlError =
    | LevelOutOfRange
    | ConcurrencyLimitExceeded
    | StatusUnavailable
    | SetFailedRollbackConfirmed
    | SetFailedRollbackUnconfirmed
    | VerificationFailedRollbackConfirmed
    | VerificationFailedRollbackUnconfirmed

  /** Where one request stands between two awaits; every stage holds the lane's permit. */
  datatype Stage =
    | Capturing(stream: StreamName, requested: int)
    | Prepared(stream: StreamName, requested: int, before: Status)
    | Verifying(stream: StreamName, requested: int, before: Status)
    | Restoring(stream: StreamName, requested: int, before: Status, commandFailed: bool)
    | Confirming(stream: StreamName, requested: int, before: Status, commandFailed: bool)

  /** One finished request: what it captured, if it got that far, and how it ended. */
  datatype Record = Record(stream: StreamName, requested: int, before: Option<Status>, result: Result<Unit, ControlError>)

  datatype Lane = Lane(
    permits: nat,
    stages: map<nat, Stage>,
    device: map<StreamName, Status>,
    history: seq<Record>)

  /** A provider's answer to a setter: reported success, and the level it really left behind. */
  datatype Action =
    | TryPrepare(id: nat, stream: StreamName, requested: int)
    | Capture(id: nat, readOk: bool)
    | Abandon(id: nat)
    | Set(id: nat, ok: bool, level: int)
    | Verify(id: nat, readOk: bool)
    | Restore(id: nat, ok: bool, level: int)
    | Confirm(id: nat, readOk: bool)

  predicate ValidLevel(level: int, maxVolume: int) {
    0 <= level <= maxVolume
  }

  /** A truthful read: it fails, or reports the stream as it is. */
  function ReadStream(s: Lane, stream: StreamName, readOk: bool): Option<Status> {
    if readOk && stream in s.device then Some(s.device[stream]) else None
  }

  function WriteLevel(s: Lane, stream: StreamName, level: int): Lane {
    s.(device := Written(s.device, stream, level))
  }

  /** Drop the permit and the stage, and note how the request ended. */
  function Finish(s: Lane, id: nat, record: Record): Lane {
    s.(permits := s.permits + 1, stages := s.stages - {id}, history := s.history + [record])
  }

  function Enter(s: Lane, id: nat, stage: Stage): Lane {
    s.(stages := s.stages[id := stage])
  }

  function RecoveryError(commandFailed: bool, restored: bool): ControlError {
    if commandFailed then
      if restored then SetFailedRollbackConfirmed else SetFailedRollbackUnconfirmed
    else
      if restored then VerificationFailedRollbackConfirmed else VerificationFailedRollbackUnconfirmed
  }

  /** One step; an action that does not fit its request's stage changes nothing. */
  function Step(s: Lane, a: Action): Lane {
    if a.TryPrepare? then
      if a.id in s.stages then s
      else if s.permits == 0 then
        s.(history := s.history + [Record(a.stream, a.requested, None, Err(ConcurrencyLimitExceeded))])
      else Enter(s.(permits := s.permits - 1), a.id, Capturing(a.stream, a.requested))
    else if a.id !in s.stages then s
    else
      match (a, s.stages[a.id])
      case (Capture(id, readOk), Capturing(stream, requested)) => (
        match ReadStream(s, stream, readOk)
        case None => Finish(s, id, Record(stream, requested, None, Err(StatusUnavailable)))
        case Some(before) =>
          if !ValidLevel(requested, before.maxVolume) then
            Finish(s, id, Record(stream, requested, Some(before), Err(LevelOutOfRange)))
          else Enter(s, id, Prepared(stream, requested, before)))
      case (Abandon(id), Capturing(_, _)) => s.(permits := s.permits + 1, stages := s.stages - {id})
      case (Abandon(id), Prepared(_, _, _)) => s.(permits := s.permits + 1, stages := s.stages - {id})
      case (Set(id, ok, level), Prepared(stream, requested, before)) =>
        Enter(WriteLevel(s, stream, level), id,
              if ok then Verifying(stream, requested, before) else Restoring(stream, requested, before, true))
      case (Verify(id, readOk), Verifying(stream, requested, before)) =>
        var after := ReadStream(s, stream, readOk);
        if after.Some? && after.value.volume == requested then
          Finish(s, id, Record(stream, requested, Some(before), Ok(Unit)))
        else Enter(s, id, Restoring(stream, requested, before, false))
      case (Restore(id, ok, level), Restoring(stream, requested, before, commandFailed)) =>
        var written := WriteLevel(s, stream, level);
        if ok then Enter(written, id, Confirming(stream, requested, before, commandFailed))
        else Finish(written, id, Record(stream, requested, Some(before), Err(RecoveryError(commandFailed, false))))
      case (Confirm(id, readOk), Confirming(stream, requested, before, commandFailed)) =>
        var status := ReadStream(s, stream, readOk);
        var restored := status.Some? && status.value.volume == before.volume;
        Finish(s, id, Record(stream, requested, Some(before), Err(RecoveryError(commandFailed, restored))))
      case _ => s
  }

  function Run(s: Lane, actions: seq<Action>): Lane
    decreases actions
  {
    if actions == [] then s else Run(Step(s, actions[0]), actions[1..])
  }

  function NewLane(device: map<StreamName, Status>): Lane {
    Lane(1, map[], device, [])
  }

  // ---------------------------------------------------------------- one mutation at a time

  /** The permit is either free with no stage open, or held by exactly one request. */
  predicate Exclusive(s: Lane) {
    && s.permits <= 1
    && (s.permits == 1 ==> s.stages == map[])
    && (s.permits == 0 ==> exists id :: id in s.stages && s.stages.Keys == {id})
  }

  // ---------------------------------------------------------------- the chain of known levels

  predicate Restores(result: Result<Unit, ControlError>) {
    result == Err(SetFailedRollbackConfirmed) || result == Err(VerificationFailedRollbackConfirmed)
  }

  /** The level a finished request is known to leave, when its result says so. */
  function LeavesLevel(r: Record, known: Option<int>): Option<int> {
    match r.result
    case Ok(_) => Some(r.requested)
    case Err(error) =>
      if r.before.None? || error == LevelOutOfRange then known
      else if Restores(r.result) then
        Some(r.before.value.volume)
      else None
  }

  /** The level the finished requests say a stream has, from a given start; unknown after doubt. */
  function KnownLevel(history: seq<Record>, stream: StreamName, start: int): Option<int> {
    if history == [] then Some(start)
    else
      var known := KnownLevel(history[..|history| - 1], stream, start);
      var last := history[|history| - 1];
      if last.stream == stream then LeavesLevel(last, known) else known
  }

  /** Whether some open request may already have changed the stream. */
  predicate InFlux(s: Lane, stream: StreamName) {
    exists id :: id in s.stages && s.stages[id].stream == stream
                 && !s.stages[id].Capturing? && !s.stages[id].Prepared?
  }

  function StageBefore(stage: Stage): Option<Status> {
    match stage
    case Capturing(_, _) => None
    case Prepared(_, _, before) => Some(before)
    case Verifying(_, _, before) => Some(before)
    case Restoring(_, _, before, _) => Some(before)
    case Confirming(_, _, before, _) => Some(before)
  }

  /** What the history knows is what the device has, and what a request captured is what was known. */
  predicate Chained(s: Lane, initial: map<StreamName, Status>) {
    && s.device.Keys == initial.Keys
    && (forall stream :: stream in initial && !InFlux(s, stream) ==>
          var known := KnownLevel(s.history, stream, initial[stream].volume);
          known.Some? ==> known.value == s.device[stream].volume)
    && (forall id :: id in s.stages && StageBefore(s.stages[id]).Some? ==>
          var stage := s.stages[id];
          && stage.stream in initial
          && var known := KnownLevel(s.history, stage.stream, initial[stage.stream].volume);
             known.Some? ==> known.value == StageBefore(stage).value.volume)
  }

  /** Every request that captured a level captured the level the finished requests before it left. */
  predicate HistoryChains(history: seq<Record>, initial: map<StreamName, Status>) {
    forall i :: 0 <= i < |history| && history[i].before.Some? ==>
      && history[i].stream in initial
      && var known := KnownLevel(history[..i], history[i].stream, initial[history[i].stream].volume);
         known.Some? ==> history[i].before.value.volume == known.value
  }

  lemma KnownAppend(history: seq<Record>, record: Record, stream: StreamName, start: int)
    ensures KnownLevel(history + [record], stream, start) ==
            var known := KnownLevel(history, stream, start);
            if record.stream == stream then LeavesLevel(record, known) else known
  {
    assert (history + [record])[..|history|] == history;
  }

  predicate Invariant(s: Lane, initial: map<StreamName, Status>) {
    Exclusive(s) && Chained(s, initial) && HistoryChains(s.history, initial)
  }

  lemma OnlyStage(s: Lane, id: nat)
    requires Exclusive(s) && id in s.stages
    ensures s.permits == 0 && s.stages == map[id := s.stages[id]]
    ensures s.stages - {id} == map[]
    ensures forall stream :: InFlux(s, stream) <==>
      s.stages[id].stream == stream && !s.stages[id].Capturing? && !s.stages[id].Prepared?
  {
    var other :| other in s.stages && s.stages.Keys == {other};
    assert id in s.stages.Keys;
  }

  /** A finished request keeps the invariant when the level it is known to leave is the device's. */
  lemma FinishKeeps(s: Lane, s': Lane, id: nat, record: Record, initial: map<StreamName, Status>)
    requires Invariant(s, initial) && id in s.stages && s.stages[id].stream == record.stream
    requires s'.permits == s.permits && s'.stages == s.stages && s'.history == s.history
    requires s'.device.Keys == s.device.Keys
    requires forall stream :: stream in s.device && stream != record.stream ==> s'.device[stream] == s.device[stream]
    requires record.before.Some? ==>
      && record.stream in initial
      && var known := KnownLevel(s.history, record.stream, initial[record.stream].volume);
         known.Some? ==> record.before.value.volume == known.value
    requires record.stream in initial ==>
      var leaves := LeavesLevel(record, KnownLevel(s.history, record.stream, initial[record.stream].volume));
      leaves.Some? ==> leaves.value == s'.device[record.stream].volume
    ensures Invariant(Finish(s', id, record), initial)
  {
    OnlyStage(s, id);
    var done := Finish(s', id, record);
    assert done.stages == map[];
    forall stream | stream in initial
      ensures var known := KnownLevel(done.history, stream, initial[stream].volume);
        known.Some? ==> known.value == done.device[stream].volume
    {
      KnownAppend(s.history, record, stream, initial[stream].volume);
    }
    HistoryGrows(s.history, record, initial);
  }

  lemma HistoryGrows(history: seq<Record>, record: Record, initial: map<StreamName, Status>)
    requires HistoryChains(history, initial)
    requires record.before.Some? ==>
      && record.stream in initial
      && var known := KnownLevel(history, record.stream, initial[record.stream].volume);
         known.Some? ==> record.before.value.volume == known.value
    ensures HistoryChains(history + [record], initial)
  {
    var longer := history + [record];
    forall i | 0 <= i < |longer| && longer[i].before.Some?
      ensures longer[i].stream in initial
      ensures var known := KnownLevel(longer[..i], longer[i].stream, initial[longer[i].stream].volume);
        known.Some? ==> longer[i].before.value.volume == known.value
    {
      if i < |history| {
        assert longer[i] == history[i] && longer[..i] == history[..i];
      } else {
        assert longer[..i] == history;
      }
    }
  }

  /** Entering a stage keeps the invariant when it captured what was known. */
  lemma AdvanceKeeps(s: Lane, s': Lane, id: nat, stage: Stage, initial: map<StreamName, Status>)
    requires Invariant(s, initial) && id in s.stages && s.stages[id].stream == stage.stream
    requires s'.permits == s.permits && s'.stages == s.stages && s'.history == s.history
    requires s'.device.Keys == s.device.Keys
    requires forall stream :: stream in s.device && stream != stage.stream ==> s'.device[stream] == s.device[stream]
    requires stage.stream in initial
    requires stage.Prepared? ==> s'.device == s.device && s.stages[id].Capturing? && stage.before == s.device[stage.stream]
    requires !stage.Capturing? && (stage.Prepared? || StageBefore(stage) == StageBefore(s.stages[id]))
    ensures Invariant(Enter(s', id, stage), initial)
  {
    OnlyStage(s, id);
    var next := Enter(s', id, stage);
    assert next.stages == map[id := stage];
    assert next.stages.Keys == {id};
    OnlyStage(next, id);
  }

  lemma TryPrepareKeeps(s: Lane, a: Action, initial: map<StreamName, Status>)
    requires Invariant(s, initial) && a.TryPrepare?
    ensures Invariant(Step(s, a), initial)
  {
    var next := Step(s, a);
    if a.id !in s.stages && s.permits == 0 {
      var record := Record(a.stream, a.requested, None, Err(ConcurrencyLimitExceeded));
      forall stream | stream in initial
        ensures KnownLevel(next.history, stream, initial[stream].volume)
                == KnownLevel(s.history, stream, initial[stream].volume)
      {
        KnownAppend(s.history, record, stream, initial[stream].volume);
      }
      HistoryGrows(s.history, record, initial);
      assert forall stream :: InFlux(next, stream) <==> InFlux(s, stream);
    } else if a.id !in s.stages {
      assert next.stages == map[a.id := Capturing(a.stream, a.requested)];
      assert next.stages.Keys == {a.id};
      assert forall stream :: !InFlux(s, stream);
    }
  }

  /** Every step of every interleaving keeps exclusivity and the chain of known levels. */
  lemma StepKeeps(s: Lane, a: Action, initial: map<StreamName, Status>)
    requires Invariant(s, initial)
    ensures Invariant(Step(s, a), initial)
  {
    if a.TryPrepare? {
      TryPrepareKeeps(s, a, initial);
    } else if a.id in s.stages {
      OnlyStage(s, a.id);
      hide KnownLevel, Exclusive, Chained, HistoryChains;
      StageKeeps(s, a, initial);
    }
  }

  lemma StageKeeps(s: Lane, a: Action, initial: map<StreamName, Status>)
    requires Invariant(s, initial) && !a.TryPrepare? && a.id in s.stages
    ensures Invariant(Step(s, a), initial)
  {
    match (a, s.stages[a.id]) {
      case (Capture(_, _), Capturing(_, _)) => CaptureKeeps(s, a, initial);
      case (Abandon(id), Capturing(_, _)) => AbandonKeeps(s, id, initial);
      case (Abandon(id), Prepared(_, _, _)) => AbandonKeeps(s, id, initial);
      case (Set(_, _, _), Prepared(_, _, _)) => SetKeeps(s, a, initial);
      case (Verify(_, _), Verifying(_, _, _)) => VerifyKeeps(s, a, initial);
      case (Restore(_, _, _), Restoring(_, _, _, _)) => RestoreKeeps(s, a, initial);
      case (Confirm(_, _), Confirming(_, _, _, _)) => ConfirmKeeps(s, a, initial);
      case _ =>
    }
  }

  lemma CaptureKeeps(s: Lane, a: Action, initial: map<StreamName, Status>)
    requires Invariant(s, initial) && a.Capture? && a.id in s.stages && s.stages[a.id].Capturing?
    ensures Invariant(Step(s, a), initial)
  {
    OnlyStage(s, a.id);
    var Capturing(stream, requested) := s.stages[a.id];
    var read := ReadStream(s, stream, a.readOk);
    if read.None? {
      FinishKeeps(s, s, a.id, Record(stream, requested, None, Err(StatusUnavailable)), initial);
    } else if !ValidLevel(requested, read.value.maxVolume) {
      FinishKeeps(s, s, a.id, Record(stream, requested, read, Err(LevelOutOfRange)), initial);
    } else {
      AdvanceKeeps(s, s, a.id, Prepared(stream, requested, read.value), initial);
    }
  }

  lemma SetKeeps(s: Lane, a: Action, initial: map<StreamName, Status>)
    requires Invariant(s, initial) && a.Set? && a.id in s.stages && s.stages[a.id].Prepared?
    ensures Invariant(Step(s, a), initial)
  {
    var Prepared(stream, requested, before) := s.stages[a.id];
    AdvanceKeeps(s, WriteLevel(s, stream, a.level), a.id,
                 if a.ok then Verifying(stream, requested, before) else Restoring(stream, requested, before, true),
                 initial);
  }

  lemma VerifyKeeps(s: Lane, a: Action, initial: map<StreamName, Status>)
    requires Invariant(s, initial) && a.Verify? && a.id in s.stages && s.stages[a.id].Verifying?
    ensures Invariant(Step(s, a), initial)
  {
    var Verifying(stream, requested, before) := s.stages[a.id];
    var after := ReadStream(s, stream, a.readOk);
    if after.Some? && after.value.volume == requested {
      FinishKeeps(s, s, a.id, Record(stream, requested, Some(before), Ok(Unit)), initial);
    } else {
      AdvanceKeeps(s, s, a.id, Restoring(stream, requested, before, false), initial);
    }
  }

  lemma RestoreKeeps(s: Lane, a: Action, initial: map<StreamName, Status>)
    requires Invariant(s, initial) && a.Restore? && a.id in s.stages && s.stages[a.id].Restoring?
    ensures Invariant(Step(s, a), initial)
  {
    var Restoring(stream, requested, before, commandFailed) := s.stages[a.id];
    var written := WriteLevel(s, stream, a.level);
    if a.ok {
      AdvanceKeeps(s, written, a.id, Confirming(stream, requested, before, commandFailed), initial);
    } else {
      FinishKeeps(s, written, a.id,
                  Record(stream, requested, Some(before), Err(RecoveryError(commandFailed, false))), initial);
    }
  }

  lemma ConfirmKeeps(s: Lane, a: Action, initial: map<StreamName, Status>)
    requires Invariant(s, initial) && a.Confirm? && a.id in s.stages && s.stages[a.id].Confirming?
    ensures Invariant(Step(s, a), initial)
  {
    var Confirming(stream, requested, before, commandFailed) := s.stages[a.id];
    var status := ReadStream(s, stream, a.readOk);
    var restored := status.Some? && status.value.volume == before.volume;
    FinishKeeps(s, s, a.id,
                Record(stream, requested, Some(before), Err(RecoveryError(commandFailed, restored))), initial);
  }

  lemma AbandonKeeps(s: Lane, id: nat, initial: map<StreamName, Status>)
    requires Invariant(s, initial) && id in s.stages && (s.stages[id].Capturing? || s.stages[id].Prepared?)
    ensures Invariant(s.(permits := s.permits + 1, stages := s.stages - {id}), initial)
  {
    OnlyStage(s, id);
    var next := s.(permits := s.permits + 1, stages := s.stages - {id});
    assert next.stages == map[];
  }

  /**
   * In every interleaving of requests on one lane at most one mutation is open, every level a result
   * vouches for is the level the device has, and every request captured the level the results before
   * it vouched for.
   */
  lemma {:induction false} EveryRunKeepsTheChain(s: Lane, actions: seq<Action>, initial: map<StreamName, Status>)
    requires Invariant(s, initial)
    ensures Invariant(Run(s, actions), initial)
    decreases actions
  {
    if actions != [] {
      StepKeeps(s, actions[0], initial);
      EveryRunKeepsTheChain(Step(s, actions[0]), actions[1..], initial);
    }
  }

  lemma NewLaneIsChained(device: map<StreamName, Status>)
    ensures Invariant(NewLane(device), device)
  {
  }

  /** A request that ended well or was rolled back had captured a level. */
  predicate Captured(history: seq<Record>) {
    forall i :: 0 <= i < |history| && (history[i].result.Ok? || Restores(history[i].result)) ==> history[i].before.Some?
  }

  lemma {:induction false} EveryRunCaptures(s: Lane, actions: seq<Action>)
    requires Captured(s.history)
    ensures Captured(Run(s, actions).history)
    decreases actions
  {
    if actions != [] {
      assert Captured(Step(s, actions[0]).history);
      EveryRunCaptures(Step(s, actions[0]), actions[1..]);
    }
  }

  /** Right after a mutation ends well or is rolled back, the stream is where its result says. */
  lemma LastResultIsTrue(device: map<StreamName, Status>, actions: seq<Action>)
    requires var s := Run(NewLane(device), actions); s.history != [] && s.stages == map[]
    ensures var s := Run(NewLane(device), actions);
      var last := s.history[|s.history| - 1];
      && (last.result.Ok? ==> last.stream in s.device && s.device[last.stream].volume == last.requested)
      && (Restores(last.result) ==>
            && last.before.Some? && last.stream in s.device
            && s.device[last.stream].volume == last.before.value.volume)
  {
    NewLaneIsChained(device);
    EveryRunKeepsTheChain(NewLane(device), actions, device);
    EveryRunCaptures(NewLane(device), actions);
    var s := Run(NewLane(device), actions);
    assert !InFlux(s, s.history[|s.history| - 1].stream);
  }

  /**
   * A request for the lane: refused at once while another holds it; otherwise refused without a
   * truthful reading or outside the range just read; otherwise prepared with the level just read.
   */
  lemma PreparationIsDecided(s: Lane, id: nat, stream: StreamName, requested: int, readOk: bool)
    requires Exclusive(s) && id !in s.stages
    ensures Run(s, [TryPrepare(id, stream, requested), Capture(id, readOk)]) ==
      if s.permits == 0 then
        s.(history := s.history + [Record(stream, requested, None, Err(ConcurrencyLimitExceeded))])
      else if !readOk || stream !in s.device then
        s.(history := s.history + [Record(stream, requested, None, Err(StatusUnavailable))])
      else if requested < 0 || requested > s.device[stream].maxVolume then
        s.(history := s.history + [Record(stream, requested, Some(s.device[stream]), Err(LevelOutOfRange))])
      else s.(permits := 0, stages := map[id := Prepared(stream, requested, s.device[stream])])
  {
    var actions := [TryPrepare(id, stream, requested), Capture(id, readOk)];
    assert actions[1..] == [Capture(id, readOk)] && actions[1..][1..] == [];
    var first := Step(s, actions[0]);
    assert Run(first, actions[1..]) == Run(Step(first, actions[1]), []);
    if s.permits > 0 {
      assert s.stages == map[];
      assert first.stages == map[id := Capturing(stream, requested)] && first.stages - {id} == s.stages;
    }
  }

  // ---------------------------------------------------------------- the sequential code

  /** The providers' answers to one `execute`. */
  datatype Providers = Providers(
    setOk: bool, setLevel: int, verifyReadOk: bool, restoreOk: bool, restoreLevel: int, confirmReadOk: bool)

  function ExecuteActions(id: nat, e: Providers): seq<Action> {
    [Set(id, e.setOk, e.setLevel), Verify(id, e.verifyReadOk),
     Restore(id, e.restoreOk, e.restoreLevel), Confirm(id, e.confirmReadOk)]
  }

  /** A lane whose one request is at the given stage, or, with none, has just finished. */
  function At(id: nat, stage: Stage, device: map<StreamName, Status>): Lane {
    Lane(0, map[id := stage], device, [])
  }

  function Ended(device: map<StreamName, Status>, record: Record): Lane {
    Lane(1, map[], device, [record])
  }

  function Written(device: map<StreamName, Status>, stream: StreamName, level: int): map<StreamName, Status> {
    if stream in device then device[stream := device[stream].(volume := level)] else device
  }

  predicate Reports(device: map<StreamName, Status>, stream: StreamName, readOk: bool, level: int) {
    readOk && stream in device && device[stream].volume == level
  }

  lemma SetStep(id: nat, stream: StreamName, requested: int, before: Status, device: map<StreamName, Status>,
                ok: bool, level: int)
    ensures Step(At(id, Prepared(stream, requested, before), device), Set(id, ok, level))
            == At(id, if ok then Verifying(stream, requested, before) else Restoring(stream, requested, before, true),
                  Written(device, stream, level))
  {
  }

  lemma VerifyStep(id: nat, stream: StreamName, requested: int, before: Status, device: map<StreamName, Status>,
                   readOk: bool)
    ensures Step(At(id, Verifying(stream, requested, before), device), Verify(id, readOk))
            == if Reports(device, stream, readOk, requested)
               then Ended(device, Record(stream, requested, Some(before), Ok(Unit)))
               else At(id, Restoring(stream, requested, before, false), device)
  {
    assert map[id := Verifying(stream, requested, before)] - {id} == map[];
  }

  lemma RestoreStep(id: nat, stream: StreamName, requested: int, before: Status, commandFailed: bool,
                    device: map<StreamName, Status>, ok: bool, level: int)
    ensures Step(At(id, Restoring(stream, requested, before, commandFailed), device), Restore(id, ok, level))
            == if ok then At(id, Confirming(stream, requested, before, commandFailed), Written(device, stream, level))
               else Ended(Written(device, stream, level),
                          Record(stream, requested, Some(before), Err(RecoveryError(commandFailed, false))))
  {
    assert map[id := Restoring(stream, requested, before, commandFailed)] - {id} == map[];
  }

  lemma ConfirmStep(id: nat, stream: StreamName, requested: int, before: Status, commandFailed: bool,
                    device: map<StreamName, Status>, readOk: bool)
    ensures Step(At(id, Confirming(stream, requested, before, commandFailed), device), Confirm(id, readOk))
            == Ended(device, Record(stream, requested, Some(before),
                                    Err(RecoveryError(commandFailed, Reports(device, stream, readOk, before.volume)))))
  {
    assert map[id := Confirming(stream, requested, before, commandFailed)] - {id} == map[];
  }

  lemma EndedStays(device: map<StreamName, Status>, record: Record, a: Action)
    requires !a.TryPrepare?
    ensures Step(Ended(device, record), a) == Ended(device, record)
  {
  }

  lemma VerifyWaits(id: nat, stage: Stage, device: map<StreamName, Status>, readOk: bool)
    requires stage.Restoring?
    ensures Step(At(id, stage, device), Verify(id, readOk)) == At(id, stage, device)
  {
  }

  lemma WrittenLevel(device: map<StreamName, Status>, stream: StreamName, level: int)
    ensures Written(device, stream, level).Keys == device.Keys
    ensures stream in device ==> Written(device, stream, level)[stream].volume == level
    ensures forall other :: other in device && other != stream ==> Written(device, stream, level)[other] == device[other]
    ensures forall readOk, asked :: Reports(Written(device, stream, level), stream, readOk, asked) <==>
      readOk && stream in device && level == asked
  {
  }

  lemma WrittenTwice(device: map<StreamName, Status>, stream: StreamName, first: int, second: int)
    ensures Written(Written(device, stream, first), stream, second) == Written(device, stream, second)
  {
  }

  /** What failed, and whether the captured level is known to be back. */
  function Recovered(commandFailed: bool, restored: bool): (error: ControlError)
    ensures commandFailed && restored ==> error == SetFailedRollbackConfirmed
    ensures commandFailed && !restored ==> error == SetFailedRollbackUnconfirmed
    ensures !commandFailed && restored ==> error == VerificationFailedRollbackConfirmed
    ensures !commandFailed && !restored ==> error == VerificationFailedRollbackUnconfirmed
  {
    RecoveryError(commandFailed, restored)
  }

  /** A client and the device it drives. */
  class VolumeClient {
    var device: map<StreamName, Status>

    constructor (device: map<StreamName, Status>)
      ensures this.device == device
    {
      this.device := device;
    }

    method SetLevel(stream: StreamName, ok: bool, level: int) returns (success: bool)
      modifies this
      ensures success == ok && device == Written(old(device), stream, level)
    {
      if stream in device {
        device := device[stream := device[stream].(volume := level)];
      }
      return ok;
    }

    method ReadsAs(stream: StreamName, readOk: bool, level: int) returns (agrees: bool)
      ensures agrees == Reports(device, stream, readOk, level)
    {
      if !readOk || stream !in device {
        return false;
      }
      return device[stream].volume == level;
    }

    /**
     * `execute` of a prepared mutation does exactly what the steps of the lane do, and its result is
     * the one they record.
     */
    method Execute(id: nat, stream: StreamName, requested: int, before: Status, e: Providers)
      returns (result: Result<Unit, ControlError>)
      modifies this
      ensures Run(At(id, Prepared(stream, requested, before), old(device)), ExecuteActions(id, e))
              == Ended(device, Record(stream, requested, Some(before), result))
      ensures result ==
        if e.setOk && e.verifyReadOk && stream in old(device) && e.setLevel == requested then Ok(Unit)
        else Err(Recovered(!e.setOk, e.restoreOk && e.confirmReadOk && stream in old(device)
                                     && e.restoreLevel == before.volume))
      ensures device == Written(old(device), stream, if result.Ok? then e.setLevel else e.restoreLevel)
      ensures result.Ok? ==> stream in device && device[stream].volume == requested
      ensures Restores(result) ==> stream in device && device[stream].volume == before.volume
      ensures forall other :: other in old(device) && other != stream ==> other in device && device[other] == old(device[other])
    {
      ghost var start := device;
      RunFour(At(id, Prepared(stream, requested, before), device), ExecuteActions(id, e));
      SetStep(id, stream, requested, before, device, e.setOk, e.setLevel);
      WrittenLevel(start, stream, e.setLevel);
      WrittenLevel(start, stream, e.restoreLevel);
      WrittenTwice(start, stream, e.setLevel, e.restoreLevel);
      hide Step, Run, Ended, At, Written, Reports, Recovered;
      var accepted := SetLevel(stream, e.setOk, e.setLevel);
      if !accepted {
        VerifyWaits(id, Restoring(stream, requested, before, true), device, e.verifyReadOk);
        var error := Recover(id, stream, requested, before, true, e);
        return Err(error);
      }
      VerifyStep(id, stream, requested, before, device, e.verifyReadOk);
      var verified := ReadsAs(stream, e.verifyReadOk, requested);
      if !verified {
        var error := Recover(id, stream, requested, before, false, e);
        return Err(error);
      }
      ghost var record := Record(stream, requested, Some(before), Ok(Unit));
      EndedStays(device, record, Restore(id, e.restoreOk, e.restoreLevel));
      EndedStays(device, record, Confirm(id, e.confirmReadOk));
      return Ok(Unit);
    }

    /** `recover`. */
    method Recover(id: nat, stream: StreamName, requested: int, before: Status, commandFailed: bool, e: Providers)
      returns (error: ControlError)
      modifies this
      ensures Step(Step(At(id, Restoring(stream, requested, before, commandFailed), old(device)),
                        Restore(id, e.restoreOk, e.restoreLevel)),
                   Confirm(id, e.confirmReadOk))
              == Ended(device, Record(stream, requested, Some(before), Err(error)))
      ensures error == Recovered(commandFailed, e.restoreOk && e.confirmReadOk && stream in old(device)
                                                && e.restoreLevel == before.volume)
      ensures device == Written(old(device), stream, e.restoreLevel)
      ensures Restores(Err(error)) <==>
        e.restoreOk && e.confirmReadOk && stream in device && device[stream].volume == before.volume
      ensures forall other :: other in old(device) && other != stream ==> other in device && device[other] == old(device[other])
      ensures error.SetFailedRollbackConfirmed? || error.SetFailedRollbackUnconfirmed? <==> commandFailed
    {
      RestoreStep(id, stream, requested, before, commandFailed, device, e.restoreOk, e.restoreLevel);
      WrittenLevel(device, stream, e.restoreLevel);
      hide Step, Ended, At, Written, Reports;
      var restored := SetLevel(stream, e.restoreOk, e.restoreLevel);
      if restored {
        ConfirmStep(id, stream, requested, before, commandFailed, device, e.confirmReadOk);
        restored := ReadsAs(stream, e.confirmReadOk, before.volume);
      } else {
        EndedStays(device, Record(stream, requested, Some(before), Err(RecoveryError(commandFailed, false))),
                   Confirm(id, e.confirmReadOk));
      }
      return RecoveryError(commandFailed, restored);
    }
  }

  lemma RunFour(s: Lane, actions: seq<Action>)
    requires |actions| == 4
    ensures Run(s, actions) == Step(Step(Step(Step(s, actions[0]), actions[1]), actions[2]), actions[3])
  {
    hide Step;
    var s1 := Step(s, actions[0]);
    var s2 := Step(s1, actions[1]);
    var s3 := Step(s2, actions[2]);
    assert actions[1..][0] == actions[1] && actions[1..][1..] == actions[2..];
    assert actions[2..][0] == actions[2] && actions[2..][1..] == actions[3..];
    assert actions[3..][0] == actions[3] && actions[3..][1..] == [];
    assert Run(s3, actions[3..]) == Run(Step(s3, actions[3]), []);
    assert Run(s2, actions[2..]) == Run(s3, actions[3..]);
    assert Run(s1, actions[1..]) == Run(s2, actions[2..]);
  }
}
