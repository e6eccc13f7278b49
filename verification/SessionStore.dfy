/**
 * The bounded MCP session store: idle expiry by pruning, and per session a window of recorded
 * response streams bounded by count and by bytes. It is proved to answer exactly as a store that
 * prunes nothing and evicts nothing.
 */
module SessionStore {
  import opened Common
  import opened SseWire

  const MAX_STREAMS := 8
  const MAX_EVENT_DATA_BYTES := 128 * 1024
  const MAX_REPLAY_BYTES := 256 * 1024

  predicate UuidByte(b: byte) {
    '0' as int <= b <= '9' as int || 'a' as int <= b <= 'f' as int || b == '-' as int
  }

  /** A printed version-4 UUID: 36 lowercase hexadecimal digits and dashes. */
  type Uuid = text: Bytes | |text| == 36 && forall i :: 0 <= i < |text| ==> UuidByte(text[i])
    witness seq(36, _ => '0' as int)

  datatype Phase = AwaitingInitialized | Active

  datatype SseStream = SseStream(events: seq<SseEvent>, retainedBytes: nat)

  datatype SessionRecord = SessionRecord(
    phase: Phase, lastActivity: nat, sseStreams: seq<SseStream>, sseReplayBytes: nat)

  datatype StoreError = CapacityExhausted | NotFound | SessionNotFound | CursorNotFound | EventDataTooLarge

  /**
   * The random source is a list of the UUIDs the operating system will hand out; `StillDrawing`
   * stands for a list that ends before an unused one, where the source would keep drawing.
   */
  datatype Call =
    | Create(draws: seq<Uuid>)
    | PhaseOf(id: Bytes)
    | Activate(id: Bytes)
    | Terminate(id: Bytes)
    | Record(id: Bytes, data: Bytes, draws: seq<Uuid>)
    | Replay(id: Bytes, cursor: Bytes)

  datatype Answer =
    | Created(id: Bytes)
    | PhaseIs(phase: Phase)
    | Done
    | Events(events: seq<SseEvent>)
    | Refused(error: StoreError)
    | StillDrawing

  // ---------------------------------------------------------------- streams

  const ZERO: byte := '0' as int
  const ONE: byte := '1' as int

  /** A priming event and the response, under one stream id. */
  function StreamEvents(streamId: Bytes, data: Bytes): seq<SseEvent> {
    [SseEvent(streamId + [COLON, ZERO], [], true), SseEvent(streamId + [COLON, ONE], data, false)]
  }

  function NewStream(streamId: Bytes, data: Bytes): SseStream {
    SseStream(StreamEvents(streamId, data), TotalLength(StreamEvents(streamId, data)))
  }

  /** `split_once(':')` of the first event's id. */
  function StreamIdOf(stream: SseStream): Option<Bytes> {
    if stream.events == [] then None
    else
      var id := stream.events[0].id;
      if IndexOf(id, COLON) < |id| then Some(id[..IndexOf(id, COLON)]) else None
  }

  function StreamIds(streams: seq<SseStream>): set<Bytes> {
    set s | s in streams && StreamIdOf(s).Some? :: StreamIdOf(s).value
  }

  /** The redraw loop: the first drawn UUID that is not taken. */
  function FirstOutside(draws: seq<Uuid>, taken: set<Bytes>): (drawn: Option<Uuid>)
    ensures drawn.Some? ==> drawn.value !in taken
  {
    if draws == [] then None
    else if draws[0] !in taken then Some(draws[0])
    else FirstOutside(draws[1..], taken)
  }

  function TotalBytes(streams: seq<SseStream>): nat {
    if streams == [] then 0 else streams[0].retainedBytes + TotalBytes(streams[1..])
  }

  predicate Fits(streams: seq<SseStream>) {
    |streams| <= MAX_STREAMS && TotalBytes(streams) <= MAX_REPLAY_BYTES
  }

  /** The eviction loop: drop from the front until the incoming stream has room. */
  function Evict(streams: seq<SseStream>, incoming: nat): (kept: seq<SseStream>)
    ensures |kept| <= |streams| && kept == streams[|streams| - |kept|..]
  {
    if streams == [] || (|streams| < MAX_STREAMS && TotalBytes(streams) + incoming <= MAX_REPLAY_BYTES) then streams
    else Evict(streams[1..], incoming)
  }

  /** The tail of the first stream that holds the cursor. */
  function Lookup(streams: seq<SseStream>, cursor: Bytes): Option<seq<SseEvent>> {
    if streams == [] then None
    else if PositionOf(streams[0].events, cursor) < |streams[0].events| then
      Some(streams[0].events[PositionOf(streams[0].events, cursor) + 1..])
    else Lookup(streams[1..], cursor)
  }

  function PositionOf(events: seq<SseEvent>, cursor: Bytes): (n: nat)
    ensures n <= |events|
    ensures forall k :: 0 <= k < n ==> events[k].id != cursor
    ensures n < |events| ==> events[n].id == cursor
  {
    if events == [] || events[0].id == cursor then 0 else 1 + PositionOf(events[1..], cursor)
  }

  // ---------------------------------------------------------------- the bounded store

  datatype Store = Store(sessions: map<Bytes, SessionRecord>, maxSessions: nat, idleTimeout: nat)

  /** `checked_duration_since(..).is_none_or(|idle| idle < timeout)`. */
  predicate Fresh(lastActivity: nat, now: nat, idleTimeout: nat) {
    now < lastActivity || now - lastActivity < idleTimeout
  }

  function Prune(sessions: map<Bytes, SessionRecord>, now: nat, idleTimeout: nat): map<Bytes, SessionRecord> {
    map id | id in sessions && Fresh(sessions[id].lastActivity, now, idleTimeout) :: sessions[id]
  }

  /** One locked call on the store: the size check, then pruning, then the call on what is live. */
  function StoreStep(s: Store, call: Call, now: nat): (Store, Answer) {
    if call.Record? && |call.data| > MAX_EVENT_DATA_BYTES then (s, Refused(EventDataTooLarge))
    else LiveStep(Pruned(s, now), call, now)
  }

  function Pruned(s: Store, now: nat): Store {
    s.(sessions := Prune(s.sessions, now, s.idleTimeout))
  }

  function LiveStep(s: Store, call: Call, now: nat): (Store, Answer) {
    match call
    case Create(draws) =>
      if |s.sessions| >= s.maxSessions then (s, Refused(CapacityExhausted))
      else
        match FirstOutside(draws, s.sessions.Keys) {
          case None => (s, StillDrawing)
          case Some(id) => (Put(s, id, SessionRecord(AwaitingInitialized, now, [], 0)), Created(id))
        }
    case PhaseOf(id) =>
      if id !in s.sessions then (s, Refused(NotFound))
      else (Put(s, id, s.sessions[id].(lastActivity := now)), PhaseIs(s.sessions[id].phase))
    case Activate(id) =>
      if id !in s.sessions then (s, Refused(NotFound))
      else (Put(s, id, s.sessions[id].(phase := Active, lastActivity := now)), Done)
    case Terminate(id) =>
      if id !in s.sessions then (s, Refused(NotFound)) else (s.(sessions := s.sessions - {id}), Done)
    case Record(id, data, draws) =>
      if id !in s.sessions then (s, Refused(SessionNotFound)) else RecordStep(s, id, data, draws, now)
    case Replay(id, cursor) =>
      if id !in s.sessions then (s, Refused(SessionNotFound))
      else
        match Lookup(s.sessions[id].sseStreams, cursor) {
          case None => (s, Refused(CursorNotFound))
          case Some(events) => (Put(s, id, s.sessions[id].(lastActivity := now)), Events(events))
        }
  }

  function Put(s: Store, id: Bytes, record: SessionRecord): Store {
    s.(sessions := s.sessions[id := record])
  }

  function RecordStep(s: Store, id: Bytes, data: Bytes, draws: seq<Uuid>, now: nat): (Store, Answer)
    requires id in s.sessions
  {
    match FirstOutside(draws, StreamIds(s.sessions[id].sseStreams))
    case None => (s, StillDrawing)
    case Some(streamId) =>
      var stream := NewStream(streamId, data);
      if stream.retainedBytes > MAX_REPLAY_BYTES then (s, Refused(EventDataTooLarge))
      else (Put(s, id, WithStream(s.sessions[id], stream, now)), Events(stream.events))
  }

  /** The record after eviction, the append and the new byte count. */
  function WithStream(record: SessionRecord, stream: SseStream, now: nat): SessionRecord {
    var streams := Evict(record.sseStreams, stream.retainedBytes) + [stream];
    SessionRecord(record.phase, now, streams, TotalBytes(streams))
  }

  // ---------------------------------------------------------------- invariants

  predicate RecordedStream(stream: SseStream) {
    && |stream.events| == 2
    && StreamIdOf(stream).Some?
    && stream.events[0].id == StreamIdOf(stream).value + [COLON, ZERO]
    && stream.events[1].id == StreamIdOf(stream).value + [COLON, ONE]
    && COLON !in StreamIdOf(stream).value
    && stream.events[0].data == [] && stream.events[0].retry && !stream.events[1].retry
    && stream.retainedBytes == TotalLength(stream.events)
  }

  predicate DistinctIds(streams: seq<SseStream>) {
    forall i, j :: 0 <= i < j < |streams| ==> StreamIdOf(streams[i]) != StreamIdOf(streams[j])
  }

  predicate ValidRecord(r: SessionRecord) {
    && Fits(r.sseStreams)
    && r.sseReplayBytes == TotalBytes(r.sseStreams)
    && (forall i :: 0 <= i < |r.sseStreams| ==> RecordedStream(r.sseStreams[i]))
    && DistinctIds(r.sseStreams)
  }

  predicate ValidStore(s: Store) {
    && |s.sessions| <= s.maxSessions
    && forall id :: id in s.sessions ==> ValidRecord(s.sessions[id])
  }

  lemma UuidHasNoColon(id: Uuid)
    ensures COLON !in id
  {
    forall i | 0 <= i < |id| ensures id[i] != COLON {
      assert UuidByte(id[i]);
    }
  }

  lemma NewStreamIsRecorded(id: Uuid, data: Bytes)
    ensures RecordedStream(NewStream(id, data)) && StreamIdOf(NewStream(id, data)) == Some(id)
    ensures NewStream(id, data).retainedBytes == 114 + |data|
  {
    UuidHasNoColon(id);
    var events := StreamEvents(id, data);
    var first := events[0].id;
    assert forall i :: 0 <= i < |id| ==> first[i] == id[i] && id[i] in id;
    assert first[|id|] == COLON && first[..|id|] == id;
    assert events[1..] == [events[1]] && events[1..][1..] == [];
    assert TotalLength(events) == WireLength(events[0]) + (WireLength(events[1]) + TotalLength([]));
  }

  /** The source's second size check can never fail: the first one already bounds both events. */
  lemma SecondSizeCheckNeverFails(id: Uuid, data: Bytes)
    requires |data| <= MAX_EVENT_DATA_BYTES
    ensures NewStream(id, data).retainedBytes <= MAX_REPLAY_BYTES
  {
    NewStreamIsRecorded(id, data);
  }

  lemma {:induction false} BytesAppend(a: seq<SseStream>, b: seq<SseStream>)
    ensures TotalBytes(a + b) == TotalBytes(a) + TotalBytes(b)
  {
    if a == [] {
      assert a + b == b;
    } else {
      BytesAppend(a[1..], b);
      assert (a + b)[1..] == a[1..] + b;
    }
  }

  lemma {:induction false} EvictMakesRoom(streams: seq<SseStream>, incoming: nat)
    requires incoming <= MAX_REPLAY_BYTES
    ensures |Evict(streams, incoming)| < MAX_STREAMS
    ensures TotalBytes(Evict(streams, incoming)) + incoming <= MAX_REPLAY_BYTES
  {
    if streams != [] {
      EvictMakesRoom(streams[1..], incoming);
    }
  }

  lemma KeptIdsDiffer(streams: seq<SseStream>, kept: seq<SseStream>, stream: SseStream)
    requires DistinctIds(streams) && (forall i :: 0 <= i < |streams| ==> RecordedStream(streams[i]))
    requires |kept| <= |streams| && kept == streams[|streams| - |kept|..]
    requires RecordedStream(stream) && StreamIdOf(stream).value !in StreamIds(streams)
    ensures DistinctIds(kept + [stream])
    ensures forall i :: 0 <= i < |kept + [stream]| ==> RecordedStream((kept + [stream])[i])
  {
    assert StreamIdOf(stream).Some?;
    hide RecordedStream, StreamIdOf;
    var all := kept + [stream];
    assert forall i :: 0 <= i < |kept| ==> all[i] == streams[|streams| - |kept| + i];
    forall i, j | 0 <= i < j < |all| ensures StreamIdOf(all[i]) != StreamIdOf(all[j]) {
      if j == |kept| && StreamIdOf(all[i]).Some? {
        assert StreamIdOf(streams[|streams| - |kept| + i]).value in StreamIds(streams);
      }
    }
  }

  lemma RecordingKeepsValid(r: SessionRecord, id: Uuid, data: Bytes, now: nat)
    requires ValidRecord(r) && id !in StreamIds(r.sseStreams) && |data| <= MAX_EVENT_DATA_BYTES
    ensures ValidRecord(WithStream(r, NewStream(id, data), now))
  {
    SecondSizeCheckNeverFails(id, data);
    NewStreamIsRecorded(id, data);
    hide RecordedStream, StreamIdOf, StreamIds, NewStream, DistinctIds, TotalBytes, Evict;
    var stream := NewStream(id, data);
    var kept := Evict(r.sseStreams, stream.retainedBytes);
    EvictMakesRoom(r.sseStreams, stream.retainedBytes);
    FitsWith(kept, stream);
    KeptIdsDiffer(r.sseStreams, kept, stream);
  }

  lemma KeysShrink(a: map<Bytes, SessionRecord>, b: map<Bytes, SessionRecord>)
    requires a.Keys <= b.Keys
    ensures |a| <= |b|
  {
    SubsetSize(a.Keys, b.Keys);
    assert |a| == |a.Keys| && |b| == |b.Keys|;
  }

  lemma PutKeepsValid(s: Store, id: Bytes, r: SessionRecord)
    requires ValidStore(s) && ValidRecord(r)
    requires id in s.sessions || |s.sessions| < s.maxSessions
    ensures ValidStore(Put(s, id, r))
  {
    hide ValidRecord;
    var live := s.sessions;
    assert live[id := r].Keys == live.Keys + {id};
    if id in live {
      KeysShrink(live[id := r], live);
    }
  }

  lemma PruneKeepsValid(s: Store, now: nat)
    requires ValidStore(s)
    ensures ValidStore(Pruned(s, now))
  {
    KeysShrink(Prune(s.sessions, now, s.idleTimeout), s.sessions);
  }

  lemma TerminationKeepsValid(s: Store, id: Bytes)
    requires ValidStore(s)
    ensures ValidStore(s.(sessions := s.sessions - {id}))
  {
    KeysShrink(s.sessions - {id}, s.sessions);
  }

  lemma TouchingKeepsValid(s: Store, id: Bytes, phase: Phase, now: nat)
    requires ValidStore(s) && id in s.sessions
    ensures ValidStore(Put(s, id, s.sessions[id].(phase := phase, lastActivity := now)))
  {
    PutKeepsValid(s, id, s.sessions[id].(phase := phase, lastActivity := now));
  }

  lemma RecordStepKeepsValid(s: Store, id: Bytes, data: Bytes, draws: seq<Uuid>, now: nat)
    requires ValidStore(s) && id in s.sessions && |data| <= MAX_EVENT_DATA_BYTES
    ensures ValidStore(RecordStep(s, id, data, draws, now).0)
  {
    var streamId := FirstOutside(draws, StreamIds(s.sessions[id].sseStreams));
    if streamId.Some? {
      RecordingKeepsValid(s.sessions[id], streamId.value, data, now);
      hide ValidRecord, WithStream, NewStream;
      PutKeepsValid(s, id, WithStream(s.sessions[id], NewStream(streamId.value, data), now));
    }
  }

  lemma CreationKeepsValid(s: Store, draws: seq<Uuid>, now: nat)
    requires ValidStore(s)
    ensures ValidStore(LiveStep(s, Create(draws), now).0)
  {
    var id := FirstOutside(draws, s.sessions.Keys);
    if |s.sessions| < s.maxSessions && id.Some? {
      assert ValidRecord(SessionRecord(AwaitingInitialized, now, [], 0));
      hide ValidRecord;
      PutKeepsValid(s, id.value, SessionRecord(AwaitingInitialized, now, [], 0));
    }
  }

  lemma LiveStepKeepsValid(s: Store, call: Call, now: nat)
    requires ValidStore(s)
    requires call.Record? ==> |call.data| <= MAX_EVENT_DATA_BYTES
    ensures ValidStore(LiveStep(s, call, now).0)
  {
    if call.Create? {
      CreationKeepsValid(s, call.draws, now);
    } else if call.id in s.sessions {
      hide ValidStore, Put, RecordStep, Lookup;
      TouchingKeepsValid(s, call.id, s.sessions[call.id].phase, now);
      TouchingKeepsValid(s, call.id, Active, now);
      TerminationKeepsValid(s, call.id);
      if call.Record? {
        RecordStepKeepsValid(s, call.id, call.data, call.draws, now);
      }
    }
  }

  /** Every call keeps every bound: sessions, streams, two events a stream, distinct ids, exact bytes. */
  lemma StepKeepsValid(s: Store, call: Call, now: nat)
    requires ValidStore(s)
    ensures ValidStore(StoreStep(s, call, now).0)
  {
    PruneKeepsValid(s, now);
    hide ValidStore, Pruned, LiveStep;
    if !(call.Record? && |call.data| > MAX_EVENT_DATA_BYTES) {
      LiveStepKeepsValid(Pruned(s, now), call, now);
    }
  }

  lemma CreationStep(s: Store, draws: seq<Uuid>, now: nat)
    ensures var live := Pruned(s, now);
      var id := FirstOutside(draws, live.sessions.Keys);
      StoreStep(s, Create(draws), now) ==
        if |live.sessions| >= s.maxSessions then (live, Refused(CapacityExhausted))
        else if id.None? then (live, StillDrawing)
        else (Put(live, id.value, SessionRecord(AwaitingInitialized, now, [], 0)), Created(id.value))
  {
  }

  lemma ReplayStep(s: Store, id: Bytes, cursor: Bytes, now: nat)
    ensures var live := Pruned(s, now);
      StoreStep(s, Replay(id, cursor), now) ==
        if id !in live.sessions then (live, Refused(SessionNotFound))
        else if Lookup(live.sessions[id].sseStreams, cursor).None? then (live, Refused(CursorNotFound))
        else (Put(live, id, live.sessions[id].(lastActivity := now)),
              Events(Lookup(live.sessions[id].sseStreams, cursor).value))
  {
    hide Lookup;
  }

  lemma RecordingStep(s: Store, id: Bytes, data: Bytes, draws: seq<Uuid>, now: nat)
    ensures var live := Pruned(s, now);
      StoreStep(s, Record(id, data, draws), now) ==
        if |data| > MAX_EVENT_DATA_BYTES then (s, Refused(EventDataTooLarge))
        else if id !in live.sessions then (live, Refused(SessionNotFound))
        else RecordStep(live, id, data, draws, now)
  {
    hide RecordStep;
  }

  lemma TerminationStep(s: Store, id: Bytes, now: nat)
    ensures var live := Pruned(s, now);
      StoreStep(s, Terminate(id), now) ==
        if id in live.sessions then (live.(sessions := live.sessions - {id}), Done) else (live, Refused(NotFound))
  {
  }

  /** The session an answered call is about: the one it names, or the one it created. */
  predicate Concerns(call: Call, answer: Answer, id: Bytes) {
    answer == Created(id) || (!call.Create? && call.id == id)
  }

  /** A refused call extends no session, and an answered one touches no session but its own. */
  lemma RefusalsExtendNothing(s: Store, call: Call, now: nat, other: Bytes)
    requires other in StoreStep(s, call, now).0.sessions
    requires var answer := StoreStep(s, call, now).1;
      answer.Refused? || answer.StillDrawing? || !Concerns(call, answer, other)
    ensures other in s.sessions && StoreStep(s, call, now).0.sessions[other] == s.sessions[other]
  {
    hide WithStream, Lookup, FirstOutside, NewStream, StreamIds;
  }

  /** Replay looks at no session but its own. */
  lemma ReplayIsIsolated(s: Store, t: Store, id: Bytes, cursor: Bytes, now: nat)
    requires s.idleTimeout == t.idleTimeout
    requires id in s.sessions <==> id in t.sessions
    requires id in s.sessions ==> s.sessions[id] == t.sessions[id]
    ensures StoreStep(s, Replay(id, cursor), now).1 == StoreStep(t, Replay(id, cursor), now).1
  {
    hide Lookup;
  }

  datatype Op = Op(call: Call, now: nat)

  function RunStore(s: Store, ops: seq<Op>): (answers: seq<Answer>)
    ensures |answers| == |ops|
    decreases ops
  {
    if ops == [] then []
    else [StoreStep(s, ops[0].call, ops[0].now).1] + RunStore(StoreStep(s, ops[0].call, ops[0].now).0, ops[1..])
  }

  function StoreAfter(s: Store, ops: seq<Op>): Store
    decreases ops
  {
    if ops == [] then s else StoreAfter(StoreStep(s, ops[0].call, ops[0].now).0, ops[1..])
  }

  lemma {:induction false} EveryReachableStoreIsValid(s: Store, ops: seq<Op>)
    requires ValidStore(s)
    ensures ValidStore(StoreAfter(s, ops))
    decreases ops
  {
    if ops != [] {
      StepKeepsValid(s, ops[0].call, ops[0].now);
      EveryReachableStoreIsValid(StoreStep(s, ops[0].call, ops[0].now).0, ops[1..]);
    }
  }

  // ---------------------------------------------------------------- the longest window

  /** The longest suffix of everything recorded that fits both bounds. */
  predicate LongestFittingSuffix(window: seq<SseStream>, all: seq<SseStream>) {
    && |window| <= |all|
    && window == all[|all| - |window|..]
    && Fits(window)
    && forall k :: 0 <= k < |all| - |window| ==> !Fits(all[k..])
  }

  function Window(all: seq<SseStream>): seq<SseStream> {
    if Fits(all) || all == [] then all else Window(all[1..])
  }

  lemma {:induction false} WindowIsLongest(all: seq<SseStream>)
    ensures LongestFittingSuffix(Window(all), all)
  {
    if !Fits(all) && all != [] {
      var rest := all[1..];
      WindowIsLongest(rest);
      forall k | 0 <= k < |all| - |Window(all)| ensures !Fits(all[k..]) {
        if k > 0 {
          assert all[k..] == rest[k - 1..];
        } else {
          assert all[0..] == all;
        }
      }
    }
  }

  lemma LongestIsUnique(a: seq<SseStream>, b: seq<SseStream>, all: seq<SseStream>)
    requires LongestFittingSuffix(a, all) && LongestFittingSuffix(b, all)
    ensures a == b
  {
    assert a == all[|all| - |a|..] && b == all[|all| - |b|..];
  }

  lemma FitsWith(kept: seq<SseStream>, stream: SseStream)
    ensures Fits(kept + [stream]) <==>
      |kept| < MAX_STREAMS && TotalBytes(kept) + stream.retainedBytes <= MAX_REPLAY_BYTES
    ensures Fits(kept + [stream]) ==> Fits(kept)
  {
    BytesAppend(kept, [stream]);
    assert TotalBytes([stream]) == stream.retainedBytes;
  }

  lemma WindowDrops(all: seq<SseStream>)
    ensures all != [] && !Fits(all) ==> Window(all) == Window(all[1..])
    ensures Fits(all) ==> Window(all) == all
  {
    hide Fits;
  }

  lemma EvictDrops(streams: seq<SseStream>, incoming: nat)
    ensures var room := |streams| < MAX_STREAMS && TotalBytes(streams) + incoming <= MAX_REPLAY_BYTES;
      && (streams != [] && !room ==> Evict(streams, incoming) == Evict(streams[1..], incoming))
      && (streams == [] || room ==> Evict(streams, incoming) == streams)
  {
    hide TotalBytes;
  }

  lemma {:induction false} GreedyIsWindow(streams: seq<SseStream>, stream: SseStream)
    requires stream.retainedBytes <= MAX_REPLAY_BYTES
    ensures Evict(streams, stream.retainedBytes) + [stream] == Window(streams + [stream])
  {
    FitsWith(streams, stream);
    WindowDrops(streams + [stream]);
    EvictDrops(streams, stream.retainedBytes);
    assert TotalBytes([]) == 0;
    hide Fits, TotalBytes, Evict, Window;
    if !Fits(streams + [stream]) {
      GreedyIsWindow(streams[1..], stream);
      assert (streams + [stream])[1..] == streams[1..] + [stream];
    }
  }

  /** Greedy front eviction of the window, one stream at a time, is the optimal window of everything. */
  lemma {:induction false} EvictionIsOptimal(all: seq<SseStream>, stream: SseStream)
    requires stream.retainedBytes <= MAX_REPLAY_BYTES
    ensures Evict(Window(all), stream.retainedBytes) + [stream] == Window(all + [stream])
  {
    WindowDrops(all);
    assert Fits([]);
    if Fits(all) {
      GreedyIsWindow(all, stream);
    } else {
      EvictionIsOptimal(all[1..], stream);
      FitsWith(all, stream);
      WindowDrops(all + [stream]);
      hide Fits, Evict, Window;
      assert (all + [stream])[1..] == all[1..] + [stream];
    }
  }

  // ---------------------------------------------------------------- nothing pruned, nothing evicted

  datatype LazySession = LazySession(phase: Phase, lastTouch: nat, recorded: seq<SseStream>)

  datatype Lazy = Lazy(sessions: map<Bytes, LazySession>, maxSessions: nat, idleTimeout: nat)

  /** The accessed session is judged by the time since its own last successful touch. */
  predicate Alive(z: Lazy, id: Bytes, now: nat) {
    id in z.sessions && Fresh(z.sessions[id].lastTouch, now, z.idleTimeout)
  }

  function AliveIds(z: Lazy, now: nat): set<Bytes> {
    set id | id in z.sessions && Alive(z, id, now)
  }

  /** The reference store: it forgets a session only when told to, and a recorded stream never. */
  function LazyStep(z: Lazy, call: Call, now: nat): (Lazy, Answer) {
    match call
    case Create(draws) =>
      if |AliveIds(z, now)| >= z.maxSessions then (z, Refused(CapacityExhausted))
      else
        match FirstOutside(draws, AliveIds(z, now)) {
          case None => (z, StillDrawing)
          case Some(id) =>
            (z.(sessions := z.sessions[id := LazySession(AwaitingInitialized, now, [])]), Created(id))
        }
    case PhaseOf(id) =>
      if !Alive(z, id, now) then (z, Refused(NotFound))
      else (z.(sessions := z.sessions[id := z.sessions[id].(lastTouch := now)]), PhaseIs(z.sessions[id].phase))
    case Activate(id) =>
      if !Alive(z, id, now) then (z, Refused(NotFound))
      else (z.(sessions := z.sessions[id := z.sessions[id].(phase := Active, lastTouch := now)]), Done)
    case Terminate(id) =>
      if !Alive(z, id, now) then (z, Refused(NotFound)) else (z.(sessions := z.sessions - {id}), Done)
    case Record(id, data, draws) =>
      if |data| > MAX_EVENT_DATA_BYTES then (z, Refused(EventDataTooLarge))
      else if !Alive(z, id, now) then (z, Refused(SessionNotFound))
      else LazyRecord(z, id, data, draws, now)
    case Replay(id, cursor) =>
      if !Alive(z, id, now) then (z, Refused(SessionNotFound))
      else
        match Lookup(Window(z.sessions[id].recorded), cursor) {
          case None => (z, Refused(CursorNotFound))
          case Some(events) => (z.(sessions := z.sessions[id := z.sessions[id].(lastTouch := now)]), Events(events))
        }
  }

  function LazyRecord(z: Lazy, id: Bytes, data: Bytes, draws: seq<Uuid>, now: nat): (Lazy, Answer)
    requires id in z.sessions
  {
    var session := z.sessions[id];
    match FirstOutside(draws, StreamIds(Window(session.recorded)))
    case None => (z, StillDrawing)
    case Some(streamId) =>
      var stream := NewStream(streamId, data);
      (z.(sessions := z.sessions[id := session.(lastTouch := now, recorded := session.recorded + [stream])]),
       Events(stream.events))
  }

  predicate SameSession(r: SessionRecord, l: LazySession) {
    r.phase == l.phase && r.lastActivity == l.lastTouch && r.sseStreams == Window(l.recorded)
  }

  /** Everything the bounded store holds, the reference holds alike. */
  predicate Holds(s: Store, z: Lazy) {
    && s.maxSessions == z.maxSessions && s.idleTimeout == z.idleTimeout
    && forall id :: id in s.sessions ==> id in z.sessions && SameSession(s.sessions[id], z.sessions[id])
  }

  /** No touch is later than `clock`, and what the bounded store lacks had expired by then. */
  predicate Covers(s: Store, z: Lazy, clock: nat) {
    && (forall id :: id in z.sessions ==> z.sessions[id].lastTouch <= clock)
    && (forall id :: id in z.sessions && id !in s.sessions ==> !Alive(z, id, clock))
  }

  /**
   * The call runs into a session that was pruned and is alive by the clock of this call: it names
   * one, or it creates and the pruned sessions take the room or hold the identifier it draws.
   */
  predicate Misses(s: Store, z: Lazy, call: Call, now: nat) {
    if call.Create? then
      var live := Pruned(s, now).sessions;
      var drawn := FirstOutside(call.draws, live.Keys);
      && |live| < s.maxSessions
      && (|AliveIds(z, now)| >= z.maxSessions || (drawn.Some? && drawn.value in AliveIds(z, now)))
    else
      && !(call.Record? && |call.data| > MAX_EVENT_DATA_BYTES)
      && call.id !in s.sessions && Alive(z, call.id, now)
  }

  predicate Carries(s: Store, z: Lazy, s': Store, z': Lazy, now: nat) {
    Holds(s', z') && (Covers(s, z, now) ==> Covers(s', z', now))
  }

  predicate StepsAgree(s: Store, z: Lazy, a: (Store, Answer), b: (Lazy, Answer), now: nat) {
    a.1 == b.1 && Carries(s, z, a.0, b.0, now)
  }

  function PutLazy(z: Lazy, id: Bytes, session: LazySession): Lazy {
    z.(sessions := z.sessions[id := session])
  }

  lemma PutCarries(s: Store, z: Lazy, id: Bytes, r: SessionRecord, l: LazySession, now: nat)
    requires Holds(s, z) && SameSession(r, l) && l.lastTouch <= now
    ensures Carries(s, z, Put(s, id, r), PutLazy(z, id, l), now)
  {
    hide SameSession;
    var z' := PutLazy(z, id, l);
    assert forall k :: k in z.sessions && k != id ==> z'.sessions[k] == z.sessions[k];
  }

  lemma TerminationCarries(s: Store, z: Lazy, id: Bytes, now: nat)
    requires Holds(s, z)
    ensures Carries(s, z, s.(sessions := s.sessions - {id}), z.(sessions := z.sessions - {id}), now)
  {
    hide SameSession;
    var z' := z.(sessions := z.sessions - {id});
    assert forall k :: k in z'.sessions ==> z'.sessions[k] == z.sessions[k];
  }

  lemma TouchingCarries(s: Store, z: Lazy, id: Bytes, phase: Phase, now: nat)
    requires Holds(s, z) && id in s.sessions
    ensures id in z.sessions
    ensures Carries(s, z, Put(s, id, s.sessions[id].(phase := phase, lastActivity := now)),
                    PutLazy(z, id, z.sessions[id].(phase := phase, lastTouch := now)), now)
  {
    assert SameSession(s.sessions[id], z.sessions[id]);
    PutCarries(s, z, id, s.sessions[id].(phase := phase, lastActivity := now),
               z.sessions[id].(phase := phase, lastTouch := now), now);
  }

  lemma RecordingAgrees(s: Store, z: Lazy, id: Bytes, data: Bytes, draws: seq<Uuid>, now: nat)
    requires Holds(s, z) && id in s.sessions && id in z.sessions && |data| <= MAX_EVENT_DATA_BYTES
    ensures StepsAgree(s, z, RecordStep(s, id, data, draws, now), LazyRecord(z, id, data, draws, now), now)
  {
    var record, session := s.sessions[id], z.sessions[id];
    assert SameSession(record, session);
    hide Holds, Covers, FirstOutside, StreamIds, NewStream, Evict, Window, TotalBytes;
    var streamId := FirstOutside(draws, StreamIds(record.sseStreams));
    if streamId.Some? {
      var stream := NewStream(streamId.value, data);
      SecondSizeCheckNeverFails(streamId.value, data);
      EvictionIsOptimal(session.recorded, stream);
      PutCarries(s, z, id, WithStream(record, stream, now),
                 session.(lastTouch := now, recorded := session.recorded + [stream]), now);
    }
  }

  /** A call that names a session, on a store that holds nothing expired. */
  lemma NamedStepAgrees(s: Store, z: Lazy, call: Call, now: nat)
    requires Holds(s, z) && !call.Create? && (call.Record? ==> |call.data| <= MAX_EVENT_DATA_BYTES)
    requires call.id in s.sessions && Alive(z, call.id, now)
    ensures StepsAgree(s, z, LiveStep(s, call, now), LazyStep(z, call, now), now)
  {
    assert SameSession(s.sessions[call.id], z.sessions[call.id]);
    hide Carries, Holds, Alive, Put, RecordStep, LazyRecord, Lookup, Window;
    TouchingCarries(s, z, call.id, s.sessions[call.id].phase, now);
    TouchingCarries(s, z, call.id, Active, now);
    TerminationCarries(s, z, call.id, now);
    Unchanged(s, z, now);
    if call.Record? {
      RecordingAgrees(s, z, call.id, call.data, call.draws, now);
    }
  }

  lemma Unchanged(s: Store, z: Lazy, now: nat)
    requires Holds(s, z)
    ensures Carries(s, z, s, z, now)
  {
  }

  /** The reference answers for a live session with something other than that it is not there. */
  lemma MissingAnswersDiffer(s: Store, z: Lazy, call: Call, now: nat)
    requires !call.Create? && (call.Record? ==> |call.data| <= MAX_EVENT_DATA_BYTES)
    requires call.id !in s.sessions
    ensures LiveStep(s, call, now).1 == LazyStep(z, call, now).1 <==> !Alive(z, call.id, now)
    ensures LiveStep(s, call, now).0 == s
    ensures !Alive(z, call.id, now) ==> LazyStep(z, call, now).0 == z
  {
    hide Lookup, FirstOutside, StreamIds, NewStream, Window;
  }

  /** With more identifiers taken the first free draw is the same unless it is one of those. */
  lemma {:induction false} DrawsAgree(draws: seq<Uuid>, few: set<Bytes>, many: set<Bytes>)
    requires few <= many
    ensures var drawn := FirstOutside(draws, few);
      drawn == FirstOutside(draws, many) <==> !(drawn.Some? && drawn.value in many)
  {
    if draws != [] {
      DrawsAgree(draws[1..], few, many);
    }
  }

  lemma CreationAgrees(s: Store, z: Lazy, draws: seq<Uuid>, now: nat)
    requires Holds(s, z) && s.sessions.Keys <= AliveIds(z, now)
    ensures var drawn := FirstOutside(draws, s.sessions.Keys);
      var missed := |s.sessions| < s.maxSessions
                && (|AliveIds(z, now)| >= z.maxSessions || (drawn.Some? && drawn.value in AliveIds(z, now)));
      && (LiveStep(s, Create(draws), now).1 == LazyStep(z, Create(draws), now).1 <==> !missed)
      && (!missed ==> StepsAgree(s, z, LiveStep(s, Create(draws), now), LazyStep(z, Create(draws), now), now))
  {
    SubsetSize(s.sessions.Keys, AliveIds(z, now));
    DrawsAgree(draws, s.sessions.Keys, AliveIds(z, now));
    assert |s.sessions| == |s.sessions.Keys| && s.maxSessions == z.maxSessions;
    Unchanged(s, z, now);
    assert SameSession(SessionRecord(AwaitingInitialized, now, [], 0), LazySession(AwaitingInitialized, now, []));
    hide Holds, Carries, AliveIds, FirstOutside, SameSession;
    var id := FirstOutside(draws, s.sessions.Keys);
    if id.Some? {
      PutCarries(s, z, id.value, SessionRecord(AwaitingInitialized, now, [], 0),
                 LazySession(AwaitingInitialized, now, []), now);
    }
  }

  lemma PruningHolds(s: Store, z: Lazy, now: nat)
    requires Holds(s, z)
    ensures Holds(Pruned(s, now), z)
    ensures Pruned(s, now).sessions.Keys <= AliveIds(z, now)
    ensures forall id :: id in Pruned(s, now).sessions <==> id in s.sessions && Alive(z, id, now)
    ensures Covers(s, z, now) ==> Covers(Pruned(s, now), z, now)
  {
  }

  /** One call: the two stores part exactly when the call misses, and stay related when it does not. */
  lemma StepAgreesUnlessMissed(s: Store, z: Lazy, call: Call, now: nat)
    requires Holds(s, z)
    ensures StoreStep(s, call, now).1 == LazyStep(z, call, now).1 <==> !Misses(s, z, call, now)
    ensures !Misses(s, z, call, now) ==> Carries(s, z, StoreStep(s, call, now).0, LazyStep(z, call, now).0, now)
  {
    PruningHolds(s, z, now);
    Unchanged(s, z, now);
    var pruned := Pruned(s, now);
    if call.Create? {
      CreationAgrees(pruned, z, call.draws, now);
      hide Holds, Covers, Pruned, LiveStep, LazyStep, AliveIds, FirstOutside;
    } else if !(call.Record? && |call.data| > MAX_EVENT_DATA_BYTES) {
      Unchanged(pruned, z, now);
      hide Holds, Covers, Pruned, LiveStep, LazyStep, Alive, AliveIds;
      if call.id in pruned.sessions {
        NamedStepAgrees(pruned, z, call, now);
      } else {
        MissingAnswersDiffer(pruned, z, call, now);
      }
    }
  }

  function RunLazy(z: Lazy, ops: seq<Op>): (answers: seq<Answer>)
    ensures |answers| == |ops|
    decreases ops
  {
    if ops == [] then []
    else [LazyStep(z, ops[0].call, ops[0].now).1] + RunLazy(LazyStep(z, ops[0].call, ops[0].now).0, ops[1..])
  }

  /** Some call of the run misses, all before it having gone alike in both stores. */
  predicate RunMisses(s: Store, z: Lazy, ops: seq<Op>)
    decreases ops
  {
    ops != [] &&
    (Misses(s, z, ops[0].call, ops[0].now)
     || RunMisses(StoreStep(s, ops[0].call, ops[0].now).0, LazyStep(z, ops[0].call, ops[0].now).0, ops[1..]))
  }

  /**
   * Over every run with arbitrary clocks, eager pruning and eviction answer call by call as the
   * store that prunes and evicts nothing, if and only if no call runs into a session that was pruned
   * and is alive again by the clock of that call.
   */
  lemma {:induction false} StoreMatchesReferenceIff(s: Store, z: Lazy, ops: seq<Op>)
    requires Holds(s, z)
    ensures RunStore(s, ops) == RunLazy(z, ops) <==> !RunMisses(s, z, ops)
    decreases ops
  {
    if ops != [] {
      StepAgreesUnlessMissed(s, z, ops[0].call, ops[0].now);
      hide StoreStep, LazyStep, Holds, Misses, Covers;
      var x, y := RunStore(s, ops), RunLazy(z, ops);
      assert x[1..] == RunStore(StoreStep(s, ops[0].call, ops[0].now).0, ops[1..]);
      assert y[1..] == RunLazy(LazyStep(z, ops[0].call, ops[0].now).0, ops[1..]);
      assert x == y ==> x[0] == y[0] && x[1..] == y[1..];
      if !Misses(s, z, ops[0].call, ops[0].now) {
        StoreMatchesReferenceIff(StoreStep(s, ops[0].call, ops[0].now).0, LazyStep(z, ops[0].call, ops[0].now).0,
                                 ops[1..]);
      }
    }
  }

  predicate ClockRuns(clock: nat, ops: seq<Op>) {
    && (forall i :: 0 <= i < |ops| ==> clock <= ops[i].now)
    && (forall i, j :: 0 <= i < j < |ops| ==> ops[i].now <= ops[j].now)
  }

  lemma CoveredNeverMisses(s: Store, z: Lazy, clock: nat, call: Call, now: nat)
    requires Holds(s, z) && Covers(s, z, clock) && clock <= now
    ensures !Misses(s, z, call, now) && Covers(s, z, now)
  {
    var live := Pruned(s, now).sessions;
    assert live.Keys == AliveIds(z, now);
    assert |live| == |live.Keys|;
  }

  lemma {:induction false} CoveredRunNeverMisses(s: Store, z: Lazy, clock: nat, ops: seq<Op>)
    requires Holds(s, z) && Covers(s, z, clock) && ClockRuns(clock, ops)
    ensures !RunMisses(s, z, ops)
    decreases ops
  {
    hide StoreStep, LazyStep, Holds, Covers, Misses;
    if ops != [] {
      CoveredNeverMisses(s, z, clock, ops[0].call, ops[0].now);
      StepAgreesUnlessMissed(s, z, ops[0].call, ops[0].now);
      assert forall i :: 0 <= i < |ops| - 1 ==> ops[1..][i] == ops[i + 1];
      CoveredRunNeverMisses(StoreStep(s, ops[0].call, ops[0].now).0, LazyStep(z, ops[0].call, ops[0].now).0,
                            ops[0].now, ops[1..]);
    }
  }

  /** In particular, while the clock never runs backwards no answer differs, capacity included. */
  lemma StoreRefinesReference(s: Store, z: Lazy, clock: nat, ops: seq<Op>)
    requires Holds(s, z) && Covers(s, z, clock) && ClockRuns(clock, ops)
    ensures RunStore(s, ops) == RunLazy(z, ops)
  {
    CoveredRunNeverMisses(s, z, clock, ops);
    StoreMatchesReferenceIff(s, z, ops);
  }

  /** From a new store on, every run under such a clock gives exactly the reference's answers. */
  lemma StoreIsTheReference(maxSessions: nat, idleTimeout: nat, ops: seq<Op>)
    requires ClockRuns(0, ops)
    ensures RunStore(Store(map[], maxSessions, idleTimeout), ops) == RunLazy(Lazy(map[], maxSessions, idleTimeout), ops)
  {
    StoreRefinesReference(Store(map[], maxSessions, idleTimeout), Lazy(map[], maxSessions, idleTimeout), 0, ops);
  }

  /** A clock that runs backwards between calls can break the agreement: pruning cannot be undone. */
  lemma BackwardClockExample(id: Uuid)
    ensures var ops := [Op(Create([id]), 0), Op(PhaseOf([]), 10), Op(PhaseOf(id), 9)];
      && RunStore(Store(map[], 1, 10), ops)[2] == Refused(NotFound)
      && RunLazy(Lazy(map[], 1, 10), ops)[2] == PhaseIs(AwaitingInitialized)
  {
    var a, b, c := Op(Create([id]), 0), Op(PhaseOf([]), 10), Op(PhaseOf(id), 9);
    var ops := [a, b, c];
    assert ops[1..] == [b, c] && [b, c][1..] == [c];
    var s0, z0 := Store(map[], 1, 10), Lazy(map[], 1, 10);
    assert Prune(map[], 0, 10) == map[] && AliveIds(z0, 0) == {};
    var s1, z1 := StoreStep(s0, a.call, 0).0, LazyStep(z0, a.call, 0).0;
    assert s1.sessions == map[id := SessionRecord(AwaitingInitialized, 0, [], 0)];
    assert z1.sessions == map[id := LazySession(AwaitingInitialized, 0, [])];
    assert StoreStep(s1, b.call, 10).0.sessions == map[] && LazyStep(z1, b.call, 10).0 == z1;
    var s2 := StoreStep(s1, b.call, 10).0;
    assert StoreStep(s2, c.call, 9).1 == Refused(NotFound);
    assert LazyStep(z1, c.call, 9).1 == PhaseIs(AwaitingInitialized);
    hide StoreStep, LazyStep;
    assert RunStore(s0, ops)[2] == RunStore(s1, [b, c])[1] == RunStore(s2, [c])[0];
    assert RunLazy(z0, ops)[2] == RunLazy(z1, [b, c])[1] == RunLazy(z1, [c])[0];
  }

  // ---------------------------------------------------------------- everything recorded

  /** Every stream recorded in each session since it was created, as far as the answers tell. */
  type Recordings = map<Bytes, seq<SseStream>>

  function Remember(h: Recordings, call: Call, answer: Answer): Recordings {
    if answer.Created? then h[answer.id := []]
    else if call.Record? && answer.Events? then
      h[call.id := (if call.id in h then h[call.id] else []) + [SseStream(answer.events, TotalLength(answer.events))]]
    else h
  }

  function Remembered(h: Recordings, ops: seq<Op>, answers: seq<Answer>): Recordings
    requires |ops| == |answers|
    decreases ops
  {
    if ops == [] then h else Remembered(Remember(h, ops[0].call, answers[0]), ops[1..], answers[1..])
  }

  /** Everything recorded in a run of a new store. */
  function RecordedIn(maxSessions: nat, idleTimeout: nat, ops: seq<Op>): Recordings {
    Remembered(map[], ops, RunStore(Store(map[], maxSessions, idleTimeout), ops))
  }

  predicate Retains(s: Store, h: Recordings) {
    forall id :: id in s.sessions ==> id in h && s.sessions[id].sseStreams == Window(h[id])
  }

  lemma RecordStepRetains(s: Store, h: Recordings, id: Bytes, data: Bytes, draws: seq<Uuid>, now: nat)
    requires Retains(s, h) && id in s.sessions && |data| <= MAX_EVENT_DATA_BYTES
    ensures var (next, answer) := RecordStep(s, id, data, draws, now);
      Retains(next, Remember(h, Record(id, data, draws), answer))
  {
    hide FirstOutside, StreamIds, Evict, Window, TotalBytes, TotalLength;
    var streamId := FirstOutside(draws, StreamIds(s.sessions[id].sseStreams));
    if streamId.Some? {
      SecondSizeCheckNeverFails(streamId.value, data);
      EvictionIsOptimal(h[id], NewStream(streamId.value, data));
    }
  }

  lemma LiveStepRetains(s: Store, h: Recordings, call: Call, now: nat)
    requires Retains(s, h) && (call.Record? ==> |call.data| <= MAX_EVENT_DATA_BYTES)
    ensures Retains(LiveStep(s, call, now).0, Remember(h, call, LiveStep(s, call, now).1))
  {
    if call.Record? {
      if call.id in s.sessions {
        RecordStepRetains(s, h, call.id, call.data, call.draws, now);
        hide Retains, RecordStep;
      }
    } else {
      assert Window([]) == [];
      hide Window, FirstOutside, Lookup;
    }
  }

  lemma StepRetains(s: Store, h: Recordings, call: Call, now: nat)
    requires Retains(s, h)
    ensures Retains(StoreStep(s, call, now).0, Remember(h, call, StoreStep(s, call, now).1))
  {
    if !(call.Record? && |call.data| > MAX_EVENT_DATA_BYTES) {
      hide Window, LiveStep;
      assert Retains(Pruned(s, now), h);
      LiveStepRetains(Pruned(s, now), h, call, now);
    }
  }

  lemma {:induction false} RunRetains(s: Store, h: Recordings, ops: seq<Op>)
    requires Retains(s, h)
    ensures Retains(StoreAfter(s, ops), Remembered(h, ops, RunStore(s, ops)))
    decreases ops
  {
    if ops != [] {
      var (next, answer) := StoreStep(s, ops[0].call, ops[0].now);
      StepRetains(s, h, ops[0].call, ops[0].now);
      hide StoreStep, Retains, Remember;
      assert RunStore(s, ops)[0] == answer && RunStore(s, ops)[1..] == RunStore(next, ops[1..]);
      RunRetains(next, Remember(h, ops[0].call, answer), ops[1..]);
    }
  }

  /** The bytes a list of streams takes on the wire, really printed. */
  function PrintedBytes(streams: seq<SseStream>): nat {
    if streams == [] then 0 else |StreamBytes(streams[0].events)| + PrintedBytes(streams[1..])
  }

  /** The longest suffix of at most 8 streams and 256 KiB in print. */
  predicate LongestPrintable(window: seq<SseStream>, all: seq<SseStream>) {
    && |window| <= |all|
    && window == all[|all| - |window|..]
    && |window| <= 8 && PrintedBytes(window) <= 262144
    && forall k :: 0 <= k < |all| - |window| ==> |all[k..]| > 8 || PrintedBytes(all[k..]) > 262144
  }

  predicate CountsItsPrint(stream: SseStream) {
    stream.retainedBytes == TotalLength(stream.events)
  }

  predicate AllCount(h: Recordings) {
    forall id, i :: id in h && 0 <= i < |h[id]| ==> CountsItsPrint(h[id][i])
  }

  lemma {:induction false} RememberedCount(h: Recordings, ops: seq<Op>, answers: seq<Answer>)
    requires |ops| == |answers| && AllCount(h)
    ensures AllCount(Remembered(h, ops, answers))
    decreases ops
  {
    if ops != [] {
      hide TotalLength;
      RememberedCount(Remember(h, ops[0].call, answers[0]), ops[1..], answers[1..]);
    }
  }

  lemma {:induction false} CountedIsPrinted(streams: seq<SseStream>)
    requires forall i :: 0 <= i < |streams| ==> CountsItsPrint(streams[i])
    ensures TotalBytes(streams) == PrintedBytes(streams)
    ensures Fits(streams) <==> |streams| <= 8 && PrintedBytes(streams) <= 262144
  {
    if streams != [] {
      assert CountsItsPrint(streams[0]);
      StreamLength(streams[0].events);
      assert forall i :: 0 <= i < |streams| - 1 ==> streams[1..][i] == streams[i + 1];
      CountedIsPrinted(streams[1..]);
    }
  }

  lemma LongestIsPrintable(window: seq<SseStream>, all: seq<SseStream>)
    requires forall i :: 0 <= i < |all| ==> CountsItsPrint(all[i])
    ensures LongestFittingSuffix(window, all) <==> LongestPrintable(window, all)
  {
    hide Fits, PrintedBytes, CountsItsPrint;
    forall k | 0 <= k <= |all| ensures Fits(all[k..]) <==> |all[k..]| <= 8 && PrintedBytes(all[k..]) <= 262144 {
      assert forall i :: 0 <= i < |all| - k ==> all[k..][i] == all[k + i];
      CountedIsPrinted(all[k..]);
    }
  }

  /**
   * After any run, whatever its clocks, the streams a session retains are exactly the longest suffix
   * of everything recorded in that session that is at most 8 streams and 256 KiB in print.
   */
  lemma RetainedStreamsAreLongestSuffix(maxSessions: nat, idleTimeout: nat, ops: seq<Op>, id: Bytes)
    requires id in StoreAfter(Store(map[], maxSessions, idleTimeout), ops).sessions
    ensures id in RecordedIn(maxSessions, idleTimeout, ops)
    ensures forall window :: LongestPrintable(window, RecordedIn(maxSessions, idleTimeout, ops)[id]) <==>
      window == StoreAfter(Store(map[], maxSessions, idleTimeout), ops).sessions[id].sseStreams
  {
    var start := Store(map[], maxSessions, idleTimeout);
    RunRetains(start, map[], ops);
    RememberedCount(map[], ops, RunStore(start, ops));
    var all := RecordedIn(maxSessions, idleTimeout, ops)[id];
    WindowIsLongest(all);
    hide LongestFittingSuffix, LongestPrintable, CountsItsPrint;
    forall window
      ensures LongestPrintable(window, all) <==> window == Window(all)
    {
      LongestIsPrintable(window, all);
      if LongestFittingSuffix(window, all) {
        LongestIsUnique(window, Window(all), all);
      }
    }
  }

  /** In every reachable store every bound holds as printed bytes, and the counter is exact. */
  lemma ReachableBounds(maxSessions: nat, idleTimeout: nat, ops: seq<Op>)
    ensures var s := StoreAfter(Store(map[], maxSessions, idleTimeout), ops);
      && |s.sessions| <= maxSessions
      && forall id :: id in s.sessions ==>
           && |s.sessions[id].sseStreams| <= 8
           && s.sessions[id].sseReplayBytes == PrintedBytes(s.sessions[id].sseStreams) <= 262144
  {
    var start := Store(map[], maxSessions, idleTimeout);
    EveryReachableStoreIsValid(start, ops);
    StoreKeepsLimits(start, ops);
    var s := StoreAfter(start, ops);
    forall id | id in s.sessions
      ensures |s.sessions[id].sseStreams| <= 8
      ensures s.sessions[id].sseReplayBytes == PrintedBytes(s.sessions[id].sseStreams) <= 262144
    {
      var streams := s.sessions[id].sseStreams;
      assert forall i :: 0 <= i < |streams| ==> RecordedStream(streams[i]);
      CountedIsPrinted(streams);
    }
  }

  lemma {:induction false} StoreKeepsLimits(s: Store, ops: seq<Op>)
    ensures StoreAfter(s, ops).maxSessions == s.maxSessions && StoreAfter(s, ops).idleTimeout == s.idleTimeout
    decreases ops
  {
    if ops != [] {
      StoreKeepsLimits(StoreStep(s, ops[0].call, ops[0].now).0, ops[1..]);
    }
  }

  // ---------------------------------------------------------------- what was recorded

  /** The stream identifier is the first draw that is not taken, if there is one. */
  ghost predicate FirstFree(draws: seq<Uuid>, taken: set<Bytes>, drawn: Option<Uuid>) {
    match drawn
    case None => forall i :: 0 <= i < |draws| ==> draws[i] in taken
    case Some(id) => id !in taken && exists k :: IsFirst(draws, taken, id, k)
  }

  ghost predicate IsFirst(draws: seq<Uuid>, taken: set<Bytes>, id: Uuid, k: int) {
    0 <= k < |draws| && draws[k] == id && forall i :: 0 <= i < k ==> draws[i] in taken
  }

  lemma {:induction false} DrawIsFirstFree(draws: seq<Uuid>, taken: set<Bytes>)
    ensures FirstFree(draws, taken, FirstOutside(draws, taken))
  {
    if draws != [] {
      if draws[0] !in taken {
        assert IsFirst(draws, taken, draws[0], 0);
      } else {
        DrawIsFirstFree(draws[1..], taken);
        var drawn := FirstOutside(draws[1..], taken);
        if drawn.Some? {
          var k :| IsFirst(draws[1..], taken, drawn.value, k);
          assert IsFirst(draws, taken, drawn.value, k + 1);
        }
      }
    }
  }

  /** A priming event and the response itself, under one stream identifier. */
  predicate IsResponse(events: seq<SseEvent>, streamId: Bytes, data: Bytes) {
    && |events| == 2
    && events[0].id == streamId + [':' as int, '0' as int] && events[0].data == [] && events[0].retry
    && events[1].id == streamId + [':' as int, '1' as int] && events[1].data == data && !events[1].retry
  }

  lemma RecordStepAnswers(s: Store, id: Bytes, data: Bytes, draws: seq<Uuid>, now: nat)
    requires id in s.sessions && |data| <= MAX_EVENT_DATA_BYTES
    ensures var taken := StreamIds(s.sessions[id].sseStreams);
      match RecordStep(s, id, data, draws, now).1
      case Events(events) => exists u: Uuid :: FirstFree(draws, taken, Some(u)) && IsResponse(events, u, data)
      case StillDrawing => FirstFree(draws, taken, None)
      case _ => false
  {
    var taken := StreamIds(s.sessions[id].sseStreams);
    DrawIsFirstFree(draws, taken);
    var drawn := FirstOutside(draws, taken);
    if drawn.Some? {
      SecondSizeCheckNeverFails(drawn.value, data);
      assert IsResponse(StreamEvents(drawn.value, data), drawn.value, data);
      hide IsResponse, FirstFree;
    }
  }

  /** What is answered, retained and later replayed is the very response that was recorded. */
  lemma RecordedResponseIsTheResponse(s: Store, id: Bytes, data: Bytes, draws: seq<Uuid>, now: nat,
                                      events: seq<SseEvent>)
    requires StoreStep(s, Record(id, data, draws), now).1 == Events(events)
    ensures |events| == 2 && exists u: Uuid :: u in draws && IsResponse(events, u, data)
    ensures var next := StoreStep(s, Record(id, data, draws), now).0;
      && id in next.sessions && next.sessions[id].sseStreams != []
      && next.sessions[id].sseStreams[|next.sessions[id].sseStreams| - 1].events == events
    ensures OneLine(data) ==> forall lastId :: Interpret(Reader([], lastId), StreamBytes(events)) == ReadAs(events, data)
  {
    RecordingStep(s, id, data, draws, now);
    hide StoreStep, Interpret, IsResponse, OneLine;
    var live := Pruned(s, now);
    hide Pruned;
    RecordStepAnswers(live, id, data, draws, now);
    RecordStepAppends(live, id, data, draws, now);
    hide RecordStep;
    var taken := StreamIds(live.sessions[id].sseStreams);
    var u: Uuid :| FirstFree(draws, taken, Some(u)) && IsResponse(events, u, data);
    FreeIsDrawn(draws, taken, u);
    if OneLine(data) {
      ResponsesAreRead(events, u, data);
    }
  }

  lemma FreeIsDrawn(draws: seq<Uuid>, taken: set<Bytes>, u: Uuid)
    requires FirstFree(draws, taken, Some(u))
    ensures u in draws
  {
    var k :| IsFirst(draws, taken, u, k);
  }

  /** The reader is told to wait 1000 ms, and is given the priming event and the response. */
  function ReadAs(events: seq<SseEvent>, data: Bytes): seq<Action>
    requires |events| == 2
  {
    [Reconnect(['1' as int, '0' as int, '0' as int, '0' as int]), Dispatch(events[0].id, []),
     Dispatch(events[1].id, data)]
  }

  lemma RecordStepAppends(s: Store, id: Bytes, data: Bytes, draws: seq<Uuid>, now: nat)
    requires id in s.sessions && RecordStep(s, id, data, draws, now).1.Events?
    ensures var (next, answer) := RecordStep(s, id, data, draws, now);
      && id in next.sessions && next.sessions[id].sseStreams != []
      && next.sessions[id].sseStreams[|next.sessions[id].sseStreams| - 1].events == answer.events
  {
    hide Evict, TotalBytes, StreamIds, FirstOutside, StreamEvents;
  }

  lemma ResponsesAreRead(events: seq<SseEvent>, u: Uuid, data: Bytes)
    requires IsResponse(events, u, data) && OneLine(data)
    ensures forall lastId :: Interpret(Reader([], lastId), StreamBytes(events)) == ReadAs(events, data)
  {
    MintedEventsAreSafe(u, data);
    assert events == StreamEvents(u, data);
    assert events[1..] == [events[1]] && events[1..][1..] == [];
    assert ExpectedActions(events[1..]) == [Dispatch(events[1].id, data)];
    assert ExpectedActions(events) ==
      [Reconnect(RETRY_MILLISECONDS)] + [Dispatch(events[0].id, [])] + [Dispatch(events[1].id, data)];
    assert RETRY_MILLISECONDS == ['1' as int, '0' as int, '0' as int, '0' as int];
    forall lastId ensures Interpret(Reader([], lastId), StreamBytes(events)) == ExpectedActions(events) {
      PrintedEventsAreRecovered(events, lastId);
    }
  }

  // ---------------------------------------------------------------- the life of one session

  /** One session as its own calls and the clocks tell it, with no other session in sight. */
  datatype Life = Gone | Living(phase: Phase, touched: nat)

  predicate LivesAt(life: Life, now: nat, idleTimeout: nat) {
    life.Living? && (now < life.touched || now - life.touched < idleTimeout)
  }

  /** What one answered call, of any session, means for this one. */
  function LifeAfter(life: Life, id: Bytes, op: Op, answer: Answer, idleTimeout: nat): Life {
    if op.call.Record? && |op.call.data| > 131072 then life
    else if answer == Created(id) then Living(AwaitingInitialized, op.now)
    else if !LivesAt(life, op.now, idleTimeout) then Gone
    else if op.call.Create? || op.call.id != id then life
    else
      match answer
      case PhaseIs(_) => Living(life.phase, op.now)
      case Events(_) => Living(life.phase, op.now)
      case Done => if op.call.Activate? then Living(Active, op.now) else Gone
      case _ => life
  }

  function LifeOver(life: Life, id: Bytes, ops: seq<Op>, answers: seq<Answer>, idleTimeout: nat): Life
    requires |ops| == |answers|
    decreases ops
  {
    if ops == [] then life
    else LifeOver(LifeAfter(life, id, ops[0], answers[0], idleTimeout), id, ops[1..], answers[1..], idleTimeout)
  }

  function LifeIn(s: Store, id: Bytes): Life {
    if id in s.sessions then Living(s.sessions[id].phase, s.sessions[id].lastActivity) else Gone
  }

  lemma PrunedLife(s: Store, id: Bytes, now: nat)
    ensures LifeIn(Pruned(s, now), id) == if LivesAt(LifeIn(s, id), now, s.idleTimeout) then LifeIn(s, id) else Gone
    ensures id in Pruned(s, now).sessions <==> LivesAt(LifeIn(s, id), now, s.idleTimeout)
  {
  }

  lemma StepLives(s: Store, id: Bytes, op: Op)
    ensures var (next, answer) := StoreStep(s, op.call, op.now);
      LifeIn(next, id) == LifeAfter(LifeIn(s, id), id, op, answer, s.idleTimeout)
  {
    if !(op.call.Record? && |op.call.data| > MAX_EVENT_DATA_BYTES) {
      PrunedLife(s, id, op.now);
      LiveStepLives(Pruned(s, op.now), id, op);
      hide Pruned, LiveStep;
    }
  }

  lemma LiveStepLives(s: Store, id: Bytes, op: Op)
    requires op.call.Record? ==> |op.call.data| <= MAX_EVENT_DATA_BYTES
    ensures var (next, answer) := LiveStep(s, op.call, op.now);
      LifeIn(next, id) ==
        if answer == Created(id) then Living(AwaitingInitialized, op.now)
        else if id !in s.sessions then Gone
        else if op.call.Create? || op.call.id != id then LifeIn(s, id)
        else
          match answer
          case PhaseIs(_) => Living(s.sessions[id].phase, op.now)
          case Events(_) => Living(s.sessions[id].phase, op.now)
          case Done => if op.call.Activate? then Living(Active, op.now) else Gone
          case _ => LifeIn(s, id)
  {
    hide Evict, TotalBytes, StreamIds, FirstOutside, NewStream, Lookup;
  }

  lemma {:induction false} RunLives(s: Store, id: Bytes, ops: seq<Op>)
    ensures LifeIn(StoreAfter(s, ops), id) == LifeOver(LifeIn(s, id), id, ops, RunStore(s, ops), s.idleTimeout)
    decreases ops
  {
    if ops != [] {
      var (next, answer) := StoreStep(s, ops[0].call, ops[0].now);
      StepLives(s, id, ops[0]);
      StoreKeepsLimits(s, ops[..1]);
      assert ops[..1][0] == ops[0] && ops[..1][1..] == [];
      assert next.idleTimeout == s.idleTimeout;
      hide StoreStep, LifeAfter, LifeIn;
      assert RunStore(s, ops)[1..] == RunStore(next, ops[1..]);
      RunLives(next, id, ops[1..]);
    }
  }

  /** A session's life in a run of a new store. */
  function LifeAt(maxSessions: nat, idleTimeout: nat, ops: seq<Op>, id: Bytes): Life {
    LifeOver(Gone, id, ops, RunStore(Store(map[], maxSessions, idleTimeout), ops), idleTimeout)
  }

  function LivingIds(maxSessions: nat, idleTimeout: nat, ops: seq<Op>, now: nat): set<Bytes> {
    set id | id in RecordedIn(maxSessions, idleTimeout, ops)
             && LivesAt(LifeAt(maxSessions, idleTimeout, ops, id), now, idleTimeout)
  }

  /**
   * What the next call of a run has to be answered: by the life of the session it names, by what was
   * recorded in it, and, to create one, by which sessions are living.
   */
  ghost predicate Answers(maxSessions: nat, idleTimeout: nat, ops: seq<Op>, op: Op, answer: Answer) {
    match op.call
    case Create(draws) =>
      var living := LivingIds(maxSessions, idleTimeout, ops, op.now);
      if |living| >= maxSessions then answer == Refused(CapacityExhausted)
      else if answer.Created? then |answer.id| == 36 && (forall i :: 0 <= i < 36 ==> UuidByte(answer.id[i]))
                                   && FirstFree(draws, living, Some(answer.id))
      else answer == StillDrawing && FirstFree(draws, living, None)
    case PhaseOf(id) =>
      var life := LifeAt(maxSessions, idleTimeout, ops, id);
      answer == if LivesAt(life, op.now, idleTimeout) then PhaseIs(life.phase) else Refused(NotFound)
    case Activate(id) =>
      answer == if LivesAt(LifeAt(maxSessions, idleTimeout, ops, id), op.now, idleTimeout) then Done else Refused(NotFound)
    case Terminate(id) =>
      answer == if LivesAt(LifeAt(maxSessions, idleTimeout, ops, id), op.now, idleTimeout) then Done else Refused(NotFound)
    case Record(id, data, draws) =>
      if |data| > 131072 then answer == Refused(EventDataTooLarge)
      else if !LivesAt(LifeAt(maxSessions, idleTimeout, ops, id), op.now, idleTimeout) then answer == Refused(SessionNotFound)
      else AnswersRecord(RecordedIn(maxSessions, idleTimeout, ops), id, data, draws, answer)
    case Replay(id, cursor) =>
      if !LivesAt(LifeAt(maxSessions, idleTimeout, ops, id), op.now, idleTimeout) then answer == Refused(SessionNotFound)
      else AnswersReplay(RecordedIn(maxSessions, idleTimeout, ops), id, cursor, answer)
  }

  ghost predicate AnswersRecord(h: Recordings, id: Bytes, data: Bytes, draws: seq<Uuid>, answer: Answer) {
    id in h &&
    match answer
    case Events(events) =>
      exists u: Uuid :: FirstFree(draws, StreamIds(Window(h[id])), Some(u)) && IsResponse(events, u, data)
    case _ => answer == StillDrawing && FirstFree(draws, StreamIds(Window(h[id])), None)
  }

  ghost predicate AnswersReplay(h: Recordings, id: Bytes, cursor: Bytes, answer: Answer) {
    id in h &&
    match answer
    case Events(rest) =>
      exists i: nat, k: nat :: HoldsCursor(Window(h[id]), i, k, cursor) && rest == Window(h[id])[i].events[k + 1..]
    case _ =>
      answer == Refused(CursorNotFound) && !exists i: nat, k: nat :: HoldsCursor(Window(h[id]), i, k, cursor)
  }

  lemma ReplayAnswers(h: Recordings, id: Bytes, cursor: Bytes)
    requires id in h
    ensures var found := Lookup(Window(h[id]), cursor);
      AnswersReplay(h, id, cursor, if found.Some? then Events(found.value) else Refused(CursorNotFound))
  {
    var streams := Window(h[id]);
    CursorFoundIffRetained(streams, cursor);
    hide Lookup, HoldsCursor;
    if Lookup(streams, cursor).Some? {
      var (i, k) := FoundAt(streams, cursor);
      assert HoldsCursor(streams, i, k, cursor);
    }
  }

  lemma AliveIsPruned(maxSessions: nat, idleTimeout: nat, ops: seq<Op>, now: nat, id: Bytes)
    ensures var s := StoreAfter(Store(map[], maxSessions, idleTimeout), ops);
      && (id in Pruned(s, now).sessions <==> LivesAt(LifeAt(maxSessions, idleTimeout, ops, id), now, idleTimeout))
      && (id in s.sessions ==> LifeAt(maxSessions, idleTimeout, ops, id) == Living(s.sessions[id].phase, s.sessions[id].lastActivity))
      && (id in Pruned(s, now).sessions ==> Pruned(s, now).sessions[id] == s.sessions[id])
      && (id in Pruned(s, now).sessions ==>
            && id in s.sessions && id in RecordedIn(maxSessions, idleTimeout, ops)
            && s.sessions[id].sseStreams == Window(RecordedIn(maxSessions, idleTimeout, ops)[id]))
  {
    var start := Store(map[], maxSessions, idleTimeout);
    RunLives(start, id, ops);
    StoreKeepsLimits(start, ops);
    PrunedLife(StoreAfter(start, ops), id, now);
    RunRetains(start, map[], ops);
  }

  lemma LivingAreLive(maxSessions: nat, idleTimeout: nat, ops: seq<Op>, now: nat)
    ensures var live := Pruned(StoreAfter(Store(map[], maxSessions, idleTimeout), ops), now).sessions;
      live.Keys == LivingIds(maxSessions, idleTimeout, ops, now) && |live| == |LivingIds(maxSessions, idleTimeout, ops, now)|
  {
    var live := Pruned(StoreAfter(Store(map[], maxSessions, idleTimeout), ops), now).sessions;
    var living := LivingIds(maxSessions, idleTimeout, ops, now);
    hide StoreAfter, Pruned, LifeAt, RecordedIn, LivesAt;
    forall id ensures id in live <==> id in living {
      AliveIsPruned(maxSessions, idleTimeout, ops, now, id);
    }
    assert live.Keys == living;
    assert |live| == |live.Keys|;
  }

  lemma CreationAnswers(maxSessions: nat, idleTimeout: nat, ops: seq<Op>, draws: seq<Uuid>, now: nat)
    ensures Answers(maxSessions, idleTimeout, ops, Op(Create(draws), now),
                    StoreStep(StoreAfter(Store(map[], maxSessions, idleTimeout), ops), Create(draws), now).1)
  {
    var start := Store(map[], maxSessions, idleTimeout);
    var s := StoreAfter(start, ops);
    var living := LivingIds(maxSessions, idleTimeout, ops, now);
    CreationStep(s, draws, now);
    StoreKeepsLimits(start, ops);
    LivingAreLive(maxSessions, idleTimeout, ops, now);
    DrawIsFirstFree(draws, living);
    hide StoreAfter, StoreStep, Pruned, LivingIds, FirstFree, FirstOutside, UuidByte;
  }

  /** Every answer of every run of a new store is the one its history calls for. */
  lemma EveryAnswerIsDecided(maxSessions: nat, idleTimeout: nat, ops: seq<Op>, op: Op)
    ensures Answers(maxSessions, idleTimeout, ops, op,
                    StoreStep(StoreAfter(Store(map[], maxSessions, idleTimeout), ops), op.call, op.now).1)
  {
    if op.call.Create? {
      CreationAnswers(maxSessions, idleTimeout, ops, op.call.draws, op.now);
      assert op == Op(Create(op.call.draws), op.now);
    } else {
      var s := StoreAfter(Store(map[], maxSessions, idleTimeout), ops);
      AliveIsPruned(maxSessions, idleTimeout, ops, op.now, op.call.id);
      hide StoreAfter, Pruned, LifeAt, LivesAt, RecordedIn, Window, FirstFree, IsResponse, AnswersReplay;
      match op.call {
        case Record(id, data, draws) =>
          RecordingStep(s, id, data, draws, op.now);
          if |data| <= 131072 && id in Pruned(s, op.now).sessions {
            RecordStepAnswers(Pruned(s, op.now), id, data, draws, op.now);
          }
          hide RecordStep;
        case Replay(id, cursor) =>
          ReplayStep(s, id, cursor, op.now);
          if id in Pruned(s, op.now).sessions {
            ReplayAnswers(RecordedIn(maxSessions, idleTimeout, ops), id, cursor);
          }
        case _ =>
      }
    }
  }

  // ---------------------------------------------------------------- cursors

  lemma CursorsAreDistinct(streams: seq<SseStream>, i: nat, k: nat, j: nat, m: nat)
    requires DistinctIds(streams)
    requires forall n :: 0 <= n < |streams| ==> RecordedStream(streams[n])
    requires i < |streams| && k < 2 && j < |streams| && m < 2
    requires k < |streams[i].events| && m < |streams[j].events|
    requires streams[i].events[k].id == streams[j].events[m].id
    ensures i == j && k == m
  {
    var x, y := StreamIdOf(streams[i]).value, StreamIdOf(streams[j]).value;
    var a, b := streams[i].events[k].id, streams[j].events[m].id;
    assert a[..|a| - 2] == x && b[..|b| - 2] == y;
    assert a[|a| - 1] == b[|b| - 1];
  }

  predicate HoldsCursor(streams: seq<SseStream>, i: nat, k: nat, cursor: Bytes) {
    i < |streams| && k < |streams[i].events| && streams[i].events[k].id == cursor
  }

  lemma {:induction false} LookupFindsFirst(streams: seq<SseStream>, cursor: Bytes, i: nat, k: nat)
    requires HoldsCursor(streams, i, k, cursor)
    requires forall j: nat, m: nat :: HoldsCursor(streams, j, m, cursor) ==> j == i && m == k
    ensures Lookup(streams, cursor) == Some(streams[i].events[k + 1..])
  {
    var n := PositionOf(streams[0].events, cursor);
    if n < |streams[0].events| {
      assert HoldsCursor(streams, 0, n, cursor);
    } else {
      forall j: nat, m: nat | HoldsCursor(streams[1..], j, m, cursor) ensures j == i - 1 && m == k {
        assert HoldsCursor(streams, j + 1, m, cursor);
      }
      LookupFindsFirst(streams[1..], cursor, i - 1, k);
    }
  }

  /** A retained cursor has one place only, and replay from it is the rest of that place's stream. */
  lemma RetainedCursorReplays(r: SessionRecord, i: nat, k: nat, cursor: Bytes)
    requires ValidRecord(r) && HoldsCursor(r.sseStreams, i, k, cursor)
    ensures Lookup(r.sseStreams, cursor) == Some(r.sseStreams[i].events[k + 1..])
    ensures forall j: nat, m: nat :: HoldsCursor(r.sseStreams, j, m, cursor) ==> j == i && m == k
  {
    forall j: nat, m: nat | HoldsCursor(r.sseStreams, j, m, cursor) ensures j == i && m == k {
      CursorsAreDistinct(r.sseStreams, i, k, j, m);
    }
    LookupFindsFirst(r.sseStreams, cursor, i, k);
  }

  /** The `n`-th call recorded these events in the session and answered with them. */
  predicate Delivered(ops: seq<Op>, answers: seq<Answer>, n: nat, id: Bytes, events: seq<SseEvent>) {
    n < |ops| == |answers| && ops[n].call.Record? && ops[n].call.id == id && answers[n] == Events(events)
  }

  predicate InBefore(h: Recordings, id: Bytes, stream: SseStream) {
    id in h && stream in h[id]
  }

  lemma {:induction false} RecordingsWereDelivered(h: Recordings, ops: seq<Op>, answers: seq<Answer>, id: Bytes,
                                                   stream: SseStream)
    requires |ops| == |answers|
    requires InBefore(Remembered(h, ops, answers), id, stream)
    ensures InBefore(h, id, stream) || exists n: nat :: Delivered(ops, answers, n, id, stream.events)
    decreases ops
  {
    if ops != [] {
      var next := Remember(h, ops[0].call, answers[0]);
      RecordingsWereDelivered(next, ops[1..], answers[1..], id, stream);
      if InBefore(next, id, stream) {
        assert InBefore(h, id, stream) || Delivered(ops, answers, 0, id, stream.events);
      } else {
        var n: nat :| Delivered(ops[1..], answers[1..], n, id, stream.events);
        assert Delivered(ops, answers, n + 1, id, stream.events);
      }
    }
  }

  /** The replay is the rest, after the cursor, of the events delivered by an earlier call. */
  predicate Completes(ops: seq<Op>, answers: seq<Answer>, n: nat, k: nat, id: Bytes, cursor: Bytes,
                      events: seq<SseEvent>, replay: seq<SseEvent>) {
    && Delivered(ops, answers, n, id, events)
    && k < |events| && events[k].id == cursor && events[..k + 1] + replay == events
  }

  lemma ReplayedIsRecorded(all: seq<SseStream>, cursor: Bytes) returns (stream: SseStream, k: nat)
    requires Lookup(Window(all), cursor).Some?
    ensures stream in all && k < |stream.events| && stream.events[k].id == cursor
    ensures Lookup(Window(all), cursor).value == stream.events[k + 1..]
  {
    WindowIsLongest(all);
    var (i, n) := FoundAt(Window(all), cursor);
    stream, k := Window(all)[i], n;
  }

  /**
   * After any run, whatever its clocks, a replay is answered with the rest of a stream of that very
   * session exactly as it was first delivered: the delivered prefix up to the cursor plus the replay
   * is the whole stream.
   */
  lemma ReplayCompletesTheStream(maxSessions: nat, idleTimeout: nat, ops: seq<Op>, id: Bytes, cursor: Bytes, now: nat,
                                 replay: seq<SseEvent>)
    requires StoreStep(StoreAfter(Store(map[], maxSessions, idleTimeout), ops), Replay(id, cursor), now).1
             == Events(replay)
    ensures exists n: nat, k: nat, events ::
      Completes(ops, RunStore(Store(map[], maxSessions, idleTimeout), ops), n, k, id, cursor, events, replay)
  {
    var start := Store(map[], maxSessions, idleTimeout);
    var s := StoreAfter(start, ops);
    ReplayStep(s, id, cursor, now);
    RunRetains(start, map[], ops);
    var all := RecordedIn(maxSessions, idleTimeout, ops)[id];
    assert s.sessions[id].sseStreams == Window(all);
    var stream, k := ReplayedIsRecorded(all, cursor);
    RecordingsWereDelivered(map[], ops, RunStore(start, ops), id, stream);
    var n: nat :| Delivered(ops, RunStore(start, ops), n, id, stream.events);
    assert Completes(ops, RunStore(start, ops), n, k, id, cursor, stream.events, replay);
  }

  /** A cursor is found exactly when some retained stream holds it; evicted ones are not found. */
  lemma CursorFoundIffRetained(streams: seq<SseStream>, cursor: Bytes)
    ensures Lookup(streams, cursor).Some? <==> exists i: nat, k: nat :: HoldsCursor(streams, i, k, cursor)
  {
    if Lookup(streams, cursor).Some? {
      var (i, k) := FoundAt(streams, cursor);
    } else if i: nat, k: nat :| HoldsCursor(streams, i, k, cursor) {
      HeldIsFound(streams, cursor, i, k);
    }
  }

  function FoundAt(streams: seq<SseStream>, cursor: Bytes): (at: (nat, nat))
    requires Lookup(streams, cursor).Some?
    ensures HoldsCursor(streams, at.0, at.1, cursor)
    ensures Lookup(streams, cursor).value == streams[at.0].events[at.1 + 1..]
  {
    var n := PositionOf(streams[0].events, cursor);
    if n < |streams[0].events| then (0, n)
    else
      var (i, k) := FoundAt(streams[1..], cursor);
      (i + 1, k)
  }

  lemma {:induction false} HeldIsFound(streams: seq<SseStream>, cursor: Bytes, i: nat, k: nat)
    requires HoldsCursor(streams, i, k, cursor)
    ensures Lookup(streams, cursor).Some?
  {
    if PositionOf(streams[0].events, cursor) == |streams[0].events| {
      HeldIsFound(streams[1..], cursor, i - 1, k);
    }
  }

  // ---------------------------------------------------------------- phases and printing

  /** A session's phase never goes back from Active while the session lives. */
  lemma {:induction false} ActiveStaysActive(s: Store, ops: seq<Op>, id: Bytes)
    requires id in s.sessions && s.sessions[id].phase == Active
    requires forall i :: 0 <= i < |ops| ==> RunStore(s, ops)[i] != Created(id)
    ensures id in StoreAfter(s, ops).sessions ==> StoreAfter(s, ops).sessions[id].phase == Active
    decreases ops
  {
    if ops != [] {
      var next := StoreStep(s, ops[0].call, ops[0].now).0;
      assert RunStore(s, ops)[0] != Created(id);
      forall i | 0 <= i < |ops| - 1 ensures RunStore(next, ops[1..])[i] != Created(id) {
        assert RunStore(s, ops)[i + 1] == RunStore(next, ops[1..])[i];
      }
      if id in next.sessions {
        ActiveStaysActive(next, ops[1..], id);
      } else {
        GoneStaysGone(next, ops[1..], id);
      }
    }
  }

  lemma {:induction false} GoneStaysGone(s: Store, ops: seq<Op>, id: Bytes)
    requires id !in s.sessions
    requires forall i :: 0 <= i < |ops| ==> RunStore(s, ops)[i] != Created(id)
    ensures id !in StoreAfter(s, ops).sessions
    decreases ops
  {
    if ops != [] {
      var next := StoreStep(s, ops[0].call, ops[0].now).0;
      assert RunStore(s, ops)[0] != Created(id);
      forall i | 0 <= i < |ops| - 1 ensures RunStore(next, ops[1..])[i] != Created(id) {
        assert RunStore(s, ops)[i + 1] == RunStore(next, ops[1..])[i];
      }
      GoneStaysGone(next, ops[1..], id);
    }
  }

  /** The ids the store mints always survive the wire, so its output is read back when its data is one line. */
  lemma MintedEventsAreSafe(id: Uuid, data: Bytes)
    requires OneLine(data)
    ensures forall e :: e in StreamEvents(id, data) ==> SafeEvent(e)
  {
    forall i | 0 <= i < |id| ensures id[i] != LF && id[i] != CR && id[i] != NUL {
      assert UuidByte(id[i]);
    }
  }

  // ---------------------------------------------------------------- the locked object

  /** `McpSessionStore`; each method is one locked call and does exactly one `StoreStep`. */
  class McpSessionStore {
    var sessions: map<Bytes, SessionRecord>
    const maxSessions: nat
    const idleTimeout: nat

    ghost function View(): Store
      reads this
    {
      Store(sessions, maxSessions, idleTimeout)
    }

    constructor (maxSessions: nat, idleTimeout: nat)
      ensures View() == Store(map[], maxSessions, idleTimeout) && ValidStore(View())
    {
      this.maxSessions, this.idleTimeout := maxSessions, idleTimeout;
      sessions := map[];
    }

    method PruneExpired(now: nat)
      modifies this
      ensures View() == Pruned(old(View()), now)
    {
      sessions := map id | id in sessions
        && (now < sessions[id].lastActivity || now - sessions[id].lastActivity < idleTimeout) :: sessions[id];
    }

    method CreateAt(draws: seq<Uuid>, now: nat) returns (answer: Answer)
      requires ValidStore(View())
      modifies this
      ensures ValidStore(View())
      ensures (View(), answer) == StoreStep(old(View()), Create(draws), now)
    {
      StepKeepsValid(View(), Create(draws), now);
      CreationStep(View(), draws, now);
      hide ValidStore, StoreStep, Pruned;
      PruneExpired(now);
      if |sessions| >= maxSessions {
        return Refused(CapacityExhausted);
      }
      var i := 0;
      while i < |draws| && draws[i] in sessions
        invariant i <= |draws|
        invariant FirstOutside(draws[i..], sessions.Keys) == FirstOutside(draws, sessions.Keys)
      {
        assert draws[i..][1..] == draws[i + 1..];
        i := i + 1;
      }
      if i == |draws| {
        return StillDrawing;
      }
      assert draws[i..][0] == draws[i];
      sessions := sessions[draws[i] := SessionRecord(AwaitingInitialized, now, [], 0)];
      return Created(draws[i]);
    }

    method PhaseAt(id: Bytes, now: nat) returns (answer: Answer)
      requires ValidStore(View())
      modifies this
      ensures ValidStore(View())
      ensures (View(), answer) == StoreStep(old(View()), PhaseOf(id), now)
    {
      StepKeepsValid(View(), PhaseOf(id), now);
      hide ValidStore, Prune, Lookup, RecordStep, StreamIds;
      PruneExpired(now);
      if id !in sessions {
        return Refused(NotFound);
      }
      sessions := sessions[id := sessions[id].(lastActivity := now)];
      return PhaseIs(sessions[id].phase);
    }

    method ActivateAt(id: Bytes, now: nat) returns (answer: Answer)
      requires ValidStore(View())
      modifies this
      ensures ValidStore(View())
      ensures (View(), answer) == StoreStep(old(View()), Activate(id), now)
    {
      StepKeepsValid(View(), Activate(id), now);
      hide ValidStore, Prune, Lookup, RecordStep, StreamIds;
      PruneExpired(now);
      if id !in sessions {
        return Refused(NotFound);
      }
      var session := sessions[id];
      session := session.(phase := Active);
      session := session.(lastActivity := now);
      sessions := sessions[id := session];
      return Done;
    }

    method TerminateAt(id: Bytes, now: nat) returns (answer: Answer)
      requires ValidStore(View())
      modifies this
      ensures ValidStore(View())
      ensures (View(), answer) == StoreStep(old(View()), Terminate(id), now)
    {
      StepKeepsValid(View(), Terminate(id), now);
      TerminationStep(View(), id, now);
      hide ValidStore, StoreStep, Pruned;
      PruneExpired(now);
      if id !in sessions {
        return Refused(NotFound);
      }
      sessions := sessions - {id};
      return Done;
    }

    /**
     * `record_sse_response_at`. The eviction loop terminates, never pops an empty queue, and its
     * byte counter never underflows: the counter is always the exact sum of what is retained.
     */
    method RecordSseResponseAt(id: Bytes, data: Bytes, draws: seq<Uuid>, now: nat) returns (answer: Answer)
      requires ValidStore(View())
      modifies this
      ensures ValidStore(View())
      ensures (View(), answer) == StoreStep(old(View()), Record(id, data, draws), now)
    {
      ghost var before := View();
      StepKeepsValid(before, Record(id, data, draws), now);
      PruneKeepsValid(before, now);
      RecordingStep(before, id, data, draws, now);
      hide StoreStep, LiveStep, Pruned, StreamIds, ValidStore, ValidRecord, NewStream, Evict, FirstOutside, TotalBytes;
      if |data| > MAX_EVENT_DATA_BYTES {
        return Refused(EventDataTooLarge);
      }
      PruneExpired(now);
      if id !in sessions {
        return Refused(SessionNotFound);
      }
      var record := sessions[id];
      ValidStoreHas(View(), id);
      var draw := DrawStreamId(draws, record.sseStreams);
      if draw.None? {
        return StillDrawing;
      }
      var stream := NewStream(draw.value, data);
      if stream.retainedBytes > MAX_REPLAY_BYTES {
        return Refused(EventDataTooLarge);
      }
      var streams, replayBytes := MakeRoom(record.sseStreams, record.sseReplayBytes, stream.retainedBytes);
      OneMore(streams, stream);
      replayBytes := replayBytes + stream.retainedBytes;
      streams := streams + [stream];
      sessions := sessions[id := SessionRecord(record.phase, now, streams, replayBytes)];
      return Events(stream.events);
    }

    method ReplaySseAfterAt(id: Bytes, cursor: Bytes, now: nat) returns (answer: Answer)
      requires ValidStore(View())
      modifies this
      ensures ValidStore(View())
      ensures (View(), answer) == StoreStep(old(View()), Replay(id, cursor), now)
    {
      StepKeepsValid(View(), Replay(id, cursor), now);
      ReplayStep(View(), id, cursor, now);
      hide ValidStore, StoreStep, Pruned, Lookup;
      PruneExpired(now);
      if id !in sessions {
        return Refused(SessionNotFound);
      }
      var replay := FindAfter(sessions[id].sseStreams, cursor);
      if replay.None? {
        return Refused(CursorNotFound);
      }
      sessions := sessions[id := sessions[id].(lastActivity := now)];
      return Events(replay.value);
    }
  }

  lemma ValidStoreHas(s: Store, id: Bytes)
    requires ValidStore(s) && id in s.sessions
    ensures s.sessions[id].sseReplayBytes == TotalBytes(s.sessions[id].sseStreams)
  {
  }

  lemma OneMore(streams: seq<SseStream>, stream: SseStream)
    ensures TotalBytes(streams + [stream]) == TotalBytes(streams) + stream.retainedBytes
  {
    BytesAppend(streams, [stream]);
    assert TotalBytes([stream]) == stream.retainedBytes;
  }

  /** The eviction loop, over the queue and its running byte counter. */
  method MakeRoom(retained: seq<SseStream>, retainedBytes: nat, incoming: nat)
    returns (streams: seq<SseStream>, replayBytes: nat)
    requires retainedBytes == TotalBytes(retained) && incoming <= MAX_REPLAY_BYTES
    ensures streams == Evict(retained, incoming) && replayBytes == TotalBytes(streams)
  {
    streams, replayBytes := retained, retainedBytes;
    while |streams| >= MAX_STREAMS || replayBytes + incoming > MAX_REPLAY_BYTES
      invariant replayBytes == TotalBytes(streams)
      invariant Evict(streams, incoming) == Evict(retained, incoming)
      decreases |streams|
    {
      var evicted := streams[0];
      streams := streams[1..];
      replayBytes := replayBytes - evicted.retainedBytes;
    }
  }

  /** `find_map` over the queue with `position` over a stream's events. */
  method FindAfter(streams: seq<SseStream>, cursor: Bytes) returns (replay: Option<seq<SseEvent>>)
    ensures replay == Lookup(streams, cursor)
  {
    for i := 0 to |streams|
      invariant Lookup(streams[i..], cursor) == Lookup(streams, cursor)
    {
      assert streams[i..][0] == streams[i] && streams[i..][1..] == streams[i + 1..];
      var position := PositionOf(streams[i].events, cursor);
      if position < |streams[i].events| {
        return Some(streams[i].events[position + 1..]);
      }
    }
    return None;
  }

  /** Draws until no retained stream's first event carries the candidate before its colon. */
  method DrawStreamId(draws: seq<Uuid>, streams: seq<SseStream>) returns (drawn: Option<Uuid>)
    ensures drawn == FirstOutside(draws, StreamIds(streams))
  {
    for i := 0 to |draws|
      invariant FirstOutside(draws[i..], StreamIds(streams)) == FirstOutside(draws, StreamIds(streams))
    {
      assert draws[i..][0] == draws[i] && draws[i..][1..] == draws[i + 1..];
      var unused := forall stream | stream in streams :: StreamIdOf(stream).None? || StreamIdOf(stream).value != draws[i];
      assert unused <==> draws[i] !in StreamIds(streams);
      if unused {
        return Some(draws[i]);
      }
    }
    return None;
  }
}
