/**
 * Server-sent events: the printer the session store uses, and the reader that sections 9.2.5 and
 * 9.2.6 of the WHATWG HTML Living Standard prescribe for the bytes it prints.
 */
module SseWire {
  import opened Common

  datatype SseEvent = SseEvent(id: Bytes, data: Bytes, retry: bool)

  const LF: byte := 10
  const CR: byte := 13
  const COLON: byte := ':' as int
  const SPACE: byte := ' ' as int
  const NUL: byte := 0

  const ID_FIELD: Bytes := ['i' as int, 'd' as int]
  const DATA_FIELD: Bytes := ['d' as int, 'a' as int, 't' as int, 'a' as int]
  const RETRY_FIELD: Bytes := ['r' as int, 'e' as int, 't' as int, 'r' as int, 'y' as int]
  const RETRY_MILLISECONDS: Bytes := ['1' as int, '0' as int, '0' as int, '0' as int]

  // ---------------------------------------------------------------- printing

  /** `<name>: <value>`. */
  function FieldLine(name: Bytes, value: Bytes): Bytes {
    name + [COLON, SPACE] + value
  }

  /** The lines of one event, each without its terminator; the last line is blank. */
  function EventLines(e: SseEvent): seq<Bytes> {
    [FieldLine(ID_FIELD, e.id)]
    + (if e.retry then [FieldLine(RETRY_FIELD, RETRY_MILLISECONDS)] else [])
    + [FieldLine(DATA_FIELD, e.data), []]
  }

  function Terminated(lines: seq<Bytes>): Bytes {
    if lines == [] then [] else lines[0] + [LF] + Terminated(lines[1..])
  }

  function EventBytes(e: SseEvent): Bytes {
    Terminated(EventLines(e))
  }

  function StreamBytes(events: seq<SseEvent>): Bytes {
    if events == [] then [] else EventBytes(events[0]) + StreamBytes(events[1..])
  }

  /** `wire_len`. */
  function WireLength(e: SseEvent): nat {
    4 + |e.id| + (if e.retry then 12 else 0) + 7 + |e.data| + 2
  }

  function TotalLength(events: seq<SseEvent>): nat {
    if events == [] then 0 else WireLength(events[0]) + TotalLength(events[1..])
  }

  /** The growing output of `append_wire_bytes`. */
  class OutputBuffer {
    var bytes: Bytes

    constructor ()
      ensures bytes == []
    {
      bytes := [];
    }

    method Extend(more: Bytes)
      modifies this
      ensures bytes == old(bytes) + more
    {
      bytes := bytes + more;
    }

    /** `append_wire_bytes`, chunk by chunk as the source writes it. */
    method AppendEvent(e: SseEvent)
      modifies this
      ensures bytes == old(bytes) + EventBytes(e) && |bytes| == |old(bytes)| + WireLength(e)
    {
      EventBytesLayout(e);
      EventLength(e);
      hide EventBytes;
      Extend(ID_FIELD + [COLON, SPACE]);
      Extend(e.id);
      if e.retry {
        Extend([LF] + RETRY_FIELD + [COLON, SPACE] + RETRY_MILLISECONDS);
      }
      Extend([LF] + DATA_FIELD + [COLON, SPACE]);
      Extend(e.data);
      Extend([LF, LF]);
      assert bytes == old(bytes) + (
        (ID_FIELD + [COLON, SPACE]) + e.id
        + (if e.retry then [LF] + RETRY_FIELD + [COLON, SPACE] + RETRY_MILLISECONDS else [])
        + ([LF] + DATA_FIELD + [COLON, SPACE]) + e.data + [LF, LF]);
    }
  }

  lemma EventBytesLayout(e: SseEvent)
    ensures EventBytes(e) ==
      (ID_FIELD + [COLON, SPACE]) + e.id
      + (if e.retry then [LF] + RETRY_FIELD + [COLON, SPACE] + RETRY_MILLISECONDS else [])
      + ([LF] + DATA_FIELD + [COLON, SPACE]) + e.data + [LF, LF]
  {
    EventBytesNested(e);
    hide EventBytes;
    var a, d := FieldLine(ID_FIELD, e.id), DATA_FIELD + [COLON, SPACE];
    assert [LF] + d == [LF] + DATA_FIELD + [COLON, SPACE];
    if e.retry {
      var r := FieldLine(RETRY_FIELD, RETRY_MILLISECONDS);
      assert [LF] + r == [LF] + RETRY_FIELD + [COLON, SPACE] + RETRY_MILLISECONDS;
      RegroupTwo(a, r, d, e.data);
    } else {
      RegroupOne(a, d, e.data);
    }
  }

  lemma TerminatedCons(line: Bytes, lines: seq<Bytes>)
    ensures Terminated([line] + lines) == line + [LF] + Terminated(lines)
  {
    assert ([line] + lines)[1..] == lines;
  }

  lemma TerminatedTail(line: Bytes)
    ensures Terminated([line, []]) == line + [LF] + [LF]
  {
    var blank: seq<Bytes> := [[]];
    TerminatedCons(line, blank);
    TerminatedCons([], []);
    assert [line] + blank == [line, []] && [[]] + [] == blank;
  }

  lemma RegroupOne(a: Bytes, d: Bytes, x: Bytes)
    ensures a + [LF] + ([] + (d + x + [LF] + [LF])) == a + [] + ([LF] + d) + x + [LF, LF]
  {
  }

  lemma RegroupTwo(a: Bytes, r: Bytes, d: Bytes, x: Bytes)
    ensures a + [LF] + (r + [LF] + (d + x + [LF] + [LF])) == a + ([LF] + r) + ([LF] + d) + x + [LF, LF]
  {
  }

  lemma EventLength(e: SseEvent)
    ensures |EventBytes(e)| == WireLength(e)
  {
    EventBytesLayout(e);
  }

  /** The printed length of a list of events is the sum of `wire_len`. */
  lemma {:induction false} StreamLength(events: seq<SseEvent>)
    ensures |StreamBytes(events)| == TotalLength(events)
  {
    if events != [] {
      EventLength(events[0]);
      StreamLength(events[1..]);
    }
  }

  // ---------------------------------------------------------------- interpreting

  /** What the standard's reader does for an application. */
  datatype Action = Reconnect(milliseconds: Bytes) | Dispatch(lastEventId: Bytes, data: Bytes)

  /** The data buffer and the last event ID buffer. */
  datatype Reader = Reader(data: Bytes, lastEventId: Bytes)

  /** Length of the text before the first line terminator. */
  function LineLength(bytes: Bytes): (n: nat)
    ensures n <= |bytes|
    ensures forall i :: 0 <= i < n ==> bytes[i] != LF && bytes[i] != CR
    ensures n < |bytes| ==> bytes[n] == LF || bytes[n] == CR
  {
    if bytes == [] || bytes[0] == LF || bytes[0] == CR then 0 else 1 + LineLength(bytes[1..])
  }

  /** Section 9.2.6, "process the field". */
  function ProcessField(r: Reader, name: Bytes, value: Bytes): (Reader, seq<Action>) {
    if name == DATA_FIELD then (r.(data := r.data + value + [LF]), [])
    else if name == ID_FIELD then (if NUL in value then r else r.(lastEventId := value), [])
    else if name == RETRY_FIELD then (r, if AllDigits(value) then [Reconnect(value)] else [])
    else (r, [])
  }

  /** Section 9.2.6, one line: blank lines dispatch, comments are skipped, one leading space drops. */
  function ProcessLine(r: Reader, line: Bytes): (Reader, seq<Action>) {
    if line == [] then
      (r.(data := []), if r.data == [] then [] else [Dispatch(r.lastEventId, r.data[..|r.data| - 1])])
    else
      var n := IndexOf(line, COLON);
      if n == 0 then (r, [])
      else if n == |line| then ProcessField(r, line, [])
      else
        var value := line[n + 1..];
        ProcessField(r, line[..n], if value != [] && value[0] == SPACE then value[1..] else value)
  }

  /** The bytes after the first line and its terminator, a CRLF counting as one. */
  function AfterLine(bytes: Bytes): (rest: Bytes)
    requires LineLength(bytes) < |bytes|
    ensures |rest| + LineLength(bytes) < |bytes|
  {
    var n := LineLength(bytes);
    if bytes[n] == CR && n + 1 < |bytes| && bytes[n + 1] == LF then bytes[n + 2..] else bytes[n + 1..]
  }

  /** Section 9.2.5: lines end in LF, CR or CRLF; an unfinished last line is discarded. */
  function Interpret(r: Reader, bytes: Bytes): seq<Action>
    decreases |bytes|
  {
    var n := LineLength(bytes);
    if n == |bytes| then []
    else
      var (r', actions) := ProcessLine(r, bytes[..n]);
      actions + Interpret(r', AfterLine(bytes))
  }

  // ---------------------------------------------------------------- round trip

  predicate OneLine(text: Bytes) {
    LF !in text && CR !in text
  }

  predicate SafeEvent(e: SseEvent) {
    OneLine(e.id) && NUL !in e.id && OneLine(e.data)
  }

  function ExpectedActions(events: seq<SseEvent>): seq<Action> {
    if events == [] then []
    else
      (if events[0].retry then [Reconnect(RETRY_MILLISECONDS)] else [])
      + [Dispatch(events[0].id, events[0].data)] + ExpectedActions(events[1..])
  }

  lemma {:induction false} LineLengthOf(line: Bytes, rest: Bytes)
    requires OneLine(line)
    ensures LineLength(line + [LF] + rest) == |line|
  {
    var whole := line + [LF] + rest;
    assert forall i :: 0 <= i < |line| ==> whole[i] == line[i] && line[i] in line;
    assert whole[|line|] == LF;
  }

  lemma InterpretLine(r: Reader, line: Bytes, rest: Bytes)
    requires OneLine(line)
    ensures Interpret(r, line + [LF] + rest) == ProcessLine(r, line).1 + Interpret(ProcessLine(r, line).0, rest)
  {
    var whole := line + [LF] + rest;
    LineLengthOf(line, rest);
    assert whole[..|line|] == line && whole[|line| + 1..] == rest;
    assert whole[|line|] == LF;
  }

  lemma ProcessFieldLine(r: Reader, name: Bytes, value: Bytes)
    requires name != [] && COLON !in name
    ensures ProcessLine(r, FieldLine(name, value)) == ProcessField(r, name, value)
  {
    var line := FieldLine(name, value);
    assert forall i :: 0 <= i < |name| ==> line[i] == name[i] && name[i] in name;
    assert line[|name|] == COLON;
    assert line[..|name|] == name && line[|name| + 1..] == [SPACE] + value;
    assert ([SPACE] + value)[1..] == value;
  }

  lemma FieldLineIsOneLine(name: Bytes, value: Bytes)
    requires OneLine(name) && OneLine(value)
    ensures OneLine(FieldLine(name, value))
  {
  }

  lemma InterpretFieldLine(r: Reader, name: Bytes, value: Bytes, rest: Bytes)
    requires name != [] && COLON !in name && OneLine(name) && OneLine(value)
    ensures Interpret(r, FieldLine(name, value) + [LF] + rest)
            == ProcessField(r, name, value).1 + Interpret(ProcessField(r, name, value).0, rest)
  {
    FieldLineIsOneLine(name, value);
    ProcessFieldLine(r, name, value);
    InterpretLine(r, FieldLine(name, value), rest);
  }

  /** The data line and the blank line dispatch the event, empty data included. */
  lemma InterpretTail(id: Bytes, data: Bytes, rest: Bytes)
    requires OneLine(data)
    ensures Interpret(Reader([], id), Terminated([FieldLine(DATA_FIELD, data), []]) + rest)
            == [Dispatch(id, data)] + Interpret(Reader([], id), rest)
  {
    var lines := [FieldLine(DATA_FIELD, data), []];
    var blank: seq<Bytes> := [[]];
    assert lines[1..] == blank && blank[1..] == [];
    assert Terminated(blank) == [] + [LF] + [];
    assert Terminated(lines) + rest == FieldLine(DATA_FIELD, data) + [LF] + ([] + [LF] + rest);
    var r := Reader([] + data + [LF], id);
    assert ProcessField(Reader([], id), DATA_FIELD, data) == (r, []);
    InterpretFieldLine(Reader([], id), DATA_FIELD, data, [] + [LF] + rest);
    InterpretLine(r, [], rest);
    assert r.data[..|r.data| - 1] == data;
    assert ProcessLine(r, []) == (Reader([], id), [Dispatch(id, data)]);
  }

  lemma InterpretRetry(id: Bytes, rest: Bytes)
    ensures Interpret(Reader([], id), FieldLine(RETRY_FIELD, RETRY_MILLISECONDS) + [LF] + rest)
            == [Reconnect(RETRY_MILLISECONDS)] + Interpret(Reader([], id), rest)
  {
    var r := Reader([], id);
    assert ProcessField(r, RETRY_FIELD, RETRY_MILLISECONDS) == (r, [Reconnect(RETRY_MILLISECONDS)]);
    assert OneLine(RETRY_FIELD) && COLON !in RETRY_FIELD && OneLine(RETRY_MILLISECONDS);
    hide *;
    InterpretFieldLine(r, RETRY_FIELD, RETRY_MILLISECONDS, rest);
  }

  lemma InterpretEvent(e: SseEvent, previousId: Bytes, rest: Bytes)
    requires SafeEvent(e)
    ensures Interpret(Reader([], previousId), EventBytes(e) + rest)
            == (if e.retry then [Reconnect(RETRY_MILLISECONDS)] else []) + [Dispatch(e.id, e.data)]
               + Interpret(Reader([], e.id), rest)
  {
    hide Interpret, FieldLine;
    var tail := [FieldLine(DATA_FIELD, e.data), []];
    var lines := EventLines(e);
    var after := Terminated(lines[1..]) + rest;
    assert EventBytes(e) + rest == FieldLine(ID_FIELD, e.id) + [LF] + after;
    InterpretFieldLine(Reader([], previousId), ID_FIELD, e.id, after);
    if e.retry {
      assert lines[1..][1..] == tail;
      assert after == FieldLine(RETRY_FIELD, RETRY_MILLISECONDS) + [LF] + (Terminated(tail) + rest);
      InterpretRetry(e.id, Terminated(tail) + rest);
    } else {
      assert lines[1..] == tail;
    }
    InterpretTail(e.id, e.data, rest);
  }

  /**
   * Printing any list of safe events and reading it back as the standard prescribes recovers
   * exactly their ids, data and retry marks, including the empty priming event.
   */
  lemma {:induction false} PrintedEventsAreRecovered(events: seq<SseEvent>, previousId: Bytes)
    requires forall e :: e in events ==> SafeEvent(e)
    ensures Interpret(Reader([], previousId), StreamBytes(events)) == ExpectedActions(events)
  {
    if events != [] {
      PrintedEventsAreRecovered(events[1..], events[0].id);
      InterpretEvent(events[0], previousId, StreamBytes(events[1..]));
    }
  }

  // ---------------------------------------------------------------- data that is not one line

  /** A line that is not blank dispatches nothing and adds no more data than it has characters. */
  lemma LineKeepsData(r: Reader, line: Bytes)
    requires line != [] && r.data != []
    ensures var (next, actions) := ProcessLine(r, line);
      && next.data != [] && |next.data| <= |r.data| + |line|
      && (actions != [] ==> actions[0].Reconnect?)
  {
  }

  predicate EndsBlank(bytes: Bytes) {
    |bytes| >= 2 && bytes[|bytes| - 1] == LF && bytes[|bytes| - 2] == LF
  }

  lemma LineLengthIs(bytes: Bytes, n: nat)
    requires n < |bytes| && (bytes[n] == LF || bytes[n] == CR)
    requires forall i :: 0 <= i < n ==> bytes[i] != LF && bytes[i] != CR
    ensures LineLength(bytes) == n
  {
  }

  lemma BlankSuffix(bytes: Bytes, k: nat)
    requires EndsBlank(bytes) && k < |bytes|
    ensures EndsBlank(bytes[k..]) || bytes[k..] == [LF]
  {
  }

  lemma FirstLineEndsEarly(bytes: Bytes)
    requires EndsBlank(bytes)
    ensures LineLength(bytes) + 1 < |bytes|
    ensures bytes[LineLength(bytes)] == CR ==> LineLength(bytes) + 2 < |bytes|
  {
    hide LineLength;
    assert bytes[|bytes| - 2] == LF;
  }

  lemma AfterLineStarts(bytes: Bytes) returns (k: nat)
    requires EndsBlank(bytes)
    ensures LineLength(bytes) < k < |bytes| && AfterLine(bytes) == bytes[k..]
  {
    FirstLineEndsEarly(bytes);
    hide LineLength, EndsBlank;
    var n := LineLength(bytes);
    k := if bytes[n] == CR && bytes[n + 1] == LF then n + 2 else n + 1;
  }

  lemma AfterLineEndsBlank(bytes: Bytes)
    requires EndsBlank(bytes)
    ensures LineLength(bytes) < |bytes|
    ensures EndsBlank(AfterLine(bytes)) || AfterLine(bytes) == [LF]
  {
    var k := AfterLineStarts(bytes);
    BlankSuffix(bytes, k);
    hide *;
  }

  /** The first line of a text that ends blank is there whatever follows the text. */
  lemma FirstLine(bytes: Bytes, rest: Bytes)
    requires EndsBlank(bytes) || bytes == [LF]
    ensures LineLength(bytes) < |bytes| && LineLength(bytes + rest) == LineLength(bytes)
    ensures (bytes + rest)[..LineLength(bytes)] == bytes[..LineLength(bytes)]
    ensures AfterLine(bytes + rest) == AfterLine(bytes) + rest
  {
    var n := LineLength(bytes);
    if EndsBlank(bytes) {
      FirstLineEndsEarly(bytes);
    }
    hide LineLength, EndsBlank;
    assert forall i :: 0 <= i <= n ==> (bytes + rest)[i] == bytes[i];
    LineLengthIs(bytes + rest, n);
    Cut(bytes, rest, n);
    RestAfterLine(bytes, rest, n);
  }

  lemma RestAfterLine(bytes: Bytes, rest: Bytes, n: nat)
    requires n < |bytes| && LineLength(bytes) == n == LineLength(bytes + rest)
    requires bytes[n] == CR ==> n + 1 < |bytes|
    ensures AfterLine(bytes + rest) == AfterLine(bytes) + rest
  {
    hide LineLength;
    Cut(bytes, rest, n + 1);
    if n + 1 < |bytes| {
      Cut(bytes, rest, n + 2);
      assert (bytes + rest)[n + 1] == bytes[n + 1];
    }
    assert (bytes + rest)[n] == bytes[n];
  }

  lemma Cut(bytes: Bytes, rest: Bytes, k: nat)
    requires k <= |bytes|
    ensures (bytes + rest)[..k] == bytes[..k] && (bytes + rest)[k..] == bytes[k..] + rest
  {
  }

  lemma InterpretFirst(r: Reader, bytes: Bytes, rest: Bytes)
    requires EndsBlank(bytes) || bytes == [LF]
    ensures LineLength(bytes) < |bytes|
    ensures var (next, actions) := ProcessLine(r, bytes[..LineLength(bytes)]);
      Interpret(r, bytes + rest) == actions + Interpret(next, AfterLine(bytes) + rest)
  {
    FirstLine(bytes, rest);
    hide LineLength, ProcessLine, AfterLine, EndsBlank;
  }

  predicate StartsSmall(actions: seq<Action>, bound: int) {
    actions != [] && (actions[0].Dispatch? ==> |actions[0].data| <= bound)
  }

  /**
   * Once some data is held, a text that ends blank makes the reader act, and what it dispatches first
   * is no more than the data held and the characters left, whatever follows the text.
   */
  lemma {:induction false} FirstDispatchIsSmall(r: Reader, bytes: Bytes, rest: Bytes)
    requires r.data != [] && (EndsBlank(bytes) || bytes == [LF])
    ensures StartsSmall(Interpret(r, bytes + rest), |r.data| + |bytes| - if bytes == [LF] then 2 else 3)
    decreases |bytes|
  {
    InterpretFirst(r, bytes, rest);
    var n := LineLength(bytes);
    if n == 0 {
      BlankDispatches(r, AfterLine(bytes) + rest);
      assert bytes[..0] == [];
    } else {
      var (next, actions) := ProcessLine(r, bytes[..n]);
      LineKeepsData(r, bytes[..n]);
      AfterLineEndsBlank(bytes);
      hide LineLength, ProcessLine, Interpret, EndsBlank;
      FirstDispatchIsSmall(next, AfterLine(bytes), rest);
    }
  }

  lemma BlankDispatches(r: Reader, rest: Bytes)
    requires r.data != []
    ensures ProcessLine(r, []).1 == [Dispatch(r.lastEventId, r.data[..|r.data| - 1])]
  {
  }

  lemma BrokenLineEnds(data: Bytes)
    requires !OneLine(data)
    ensures var bytes := FieldLine(DATA_FIELD, data) + [LF, LF];
      var n := LineLength(data);
      && n < |data| && LineLength(bytes) == 6 + n < |bytes|
      && bytes[..6 + n] == FieldLine(DATA_FIELD, data[..n])
  {
    hide LineLength;
    var head := DATA_FIELD + [COLON, SPACE];
    var bytes := FieldLine(DATA_FIELD, data) + [LF, LF];
    var n := LineLength(data);
    assert n < |data|;
    assert bytes == head + data + [LF, LF];
    forall i | 0 <= i < 6 + n ensures bytes[i] != LF && bytes[i] != CR {
      if i < 6 { assert bytes[i] == head[i]; } else { assert bytes[i] == data[i - 6]; }
    }
    assert bytes[6 + n] == data[n];
    assert bytes[..6 + n] == head + data[..n];
  }

  lemma BrokenLine(id: Bytes, data: Bytes)
    requires !OneLine(data)
    ensures var bytes := FieldLine(DATA_FIELD, data) + [LF, LF];
      var n := LineLength(data);
      && LineLength(bytes) == 6 + n < |bytes| && n < |data|
      && ProcessLine(Reader([], id), bytes[..6 + n]) == (Reader(data[..n] + [LF], id), [])
      && EndsBlank(bytes)
  {
    BrokenLineEnds(data);
    var n := LineLength(data);
    ProcessFieldLine(Reader([], id), DATA_FIELD, data[..n]);
    FirstData(id, data[..n]);
    hide LineLength, ProcessLine, ProcessField, OneLine;
    assert EndsBlank(FieldLine(DATA_FIELD, data) + [LF, LF]);
  }

  /** What follows a line terminator inside the data can never restore it, whatever is printed next. */
  lemma BrokenDataIsNotDispatched(id: Bytes, data: Bytes, rest: Bytes)
    requires !OneLine(data)
    ensures var actions := Interpret(Reader([], id), FieldLine(DATA_FIELD, data) + [LF, LF] + rest);
      actions != [] && actions[0] != Dispatch(id, data)
  {
    var bytes := FieldLine(DATA_FIELD, data) + [LF, LF];
    BrokenLine(id, data);
    AfterLineEndsBlank(bytes);
    InterpretFirst(Reader([], id), bytes, rest);
    hide LineLength, ProcessLine, EndsBlank, Interpret;
    var n := LineLength(data);
    var r := Reader(data[..n] + [LF], id);
    FirstDispatchIsSmall(r, AfterLine(bytes), rest);
    assert |AfterLine(bytes)| <= |data| - n + 1;
  }

  function ExpectedEvent(e: SseEvent): seq<Action> {
    (if e.retry then [Reconnect(RETRY_MILLISECONDS)] else []) + [Dispatch(e.id, e.data)]
  }

  predicate Begins(actions: seq<Action>, start: seq<Action>) {
    |start| <= |actions| && actions[..|start|] == start
  }

  /** Up to its data an event with a safe id is read as intended, whatever its data is. */
  lemma InterpretHead(e: SseEvent, previousId: Bytes, rest: Bytes)
    requires OneLine(e.id) && NUL !in e.id
    ensures Interpret(Reader([], previousId), EventBytes(e) + rest)
            == (if e.retry then [Reconnect(RETRY_MILLISECONDS)] else [])
               + Interpret(Reader([], e.id), FieldLine(DATA_FIELD, e.data) + [LF, LF] + rest)
  {
    var data := FieldLine(DATA_FIELD, e.data) + [LF, LF] + rest;
    var retry := FieldLine(RETRY_FIELD, RETRY_MILLISECONDS) + [LF];
    EventBytesLayout(e);
    HeadLayout(e, rest);
    hide Interpret, EventBytes, FieldLine;
    InterpretFieldLine(Reader([], previousId), ID_FIELD, e.id, (if e.retry then retry else []) + data);
    if e.retry {
      InterpretRetry(e.id, data);
    } else {
      assert [] + data == data;
    }
  }

  lemma HeadLayout(e: SseEvent, rest: Bytes)
    ensures EventBytes(e) + rest == FieldLine(ID_FIELD, e.id) + [LF]
      + ((if e.retry then FieldLine(RETRY_FIELD, RETRY_MILLISECONDS) + [LF] else [])
         + (FieldLine(DATA_FIELD, e.data) + [LF, LF] + rest))
  {
    EventBytesNested(e);
    hide EventBytes, FieldLine;
    RegroupRest(FieldLine(ID_FIELD, e.id), if e.retry then FieldLine(RETRY_FIELD, RETRY_MILLISECONDS) + [LF] else [],
                FieldLine(DATA_FIELD, e.data), rest);
  }

  lemma EventBytesNested(e: SseEvent)
    ensures EventBytes(e) == FieldLine(ID_FIELD, e.id) + [LF]
      + ((if e.retry then FieldLine(RETRY_FIELD, RETRY_MILLISECONDS) + [LF] else [])
         + (FieldLine(DATA_FIELD, e.data) + [LF] + [LF]))
  {
    var a, d := FieldLine(ID_FIELD, e.id), FieldLine(DATA_FIELD, e.data);
    TerminatedTail(d);
    hide Terminated, FieldLine;
    if e.retry {
      var r := FieldLine(RETRY_FIELD, RETRY_MILLISECONDS);
      TerminatedCons(a, [r, d, []]);
      TerminatedCons(r, [d, []]);
      assert EventLines(e) == [a] + [r, d, []];
      assert [r] + [d, []] == [r, d, []];
    } else {
      TerminatedCons(a, [d, []]);
      assert EventLines(e) == [a] + [d, []];
      assert [] + (d + [LF] + [LF]) == d + [LF] + [LF];
    }
  }

  lemma RegroupRest(a: Bytes, m: Bytes, d: Bytes, rest: Bytes)
    ensures a + [LF] + (m + (d + [LF] + [LF])) + rest == a + [LF] + (m + (d + [LF, LF] + rest))
  {
    assert d + [LF] + [LF] + rest == d + [LF, LF] + rest;
  }

  lemma BrokenEventDiffers(e: SseEvent, previousId: Bytes, rest: Bytes)
    requires OneLine(e.id) && NUL !in e.id && !OneLine(e.data)
    ensures !Begins(Interpret(Reader([], previousId), EventBytes(e) + rest), ExpectedEvent(e))
  {
    InterpretHead(e, previousId, rest);
    BrokenDataIsNotDispatched(e.id, e.data, rest);
    hide Interpret, EventBytes;
    var all := Interpret(Reader([], previousId), EventBytes(e) + rest);
    var tail := Interpret(Reader([], e.id), FieldLine(DATA_FIELD, e.data) + [LF, LF] + rest);
    var head := |ExpectedEvent(e)| - 1;
    assert all[head] == tail[0];
    assert ExpectedEvent(e)[head] == Dispatch(e.id, e.data);
  }

  /**
   * The round trip of a whole stream holds exactly when every event's data is one line: with safe
   * ids, the standard's reader recovers the printed list if and only if no data has a CR or LF.
   */
  lemma {:induction false} RecoveredIffAllOneLine(events: seq<SseEvent>, previousId: Bytes)
    requires forall e :: e in events ==> OneLine(e.id) && NUL !in e.id
    ensures Interpret(Reader([], previousId), StreamBytes(events)) == ExpectedActions(events)
            <==> forall e :: e in events ==> OneLine(e.data)
  {
    if events != [] {
      var e, rest := events[0], StreamBytes(events[1..]);
      var tail := ExpectedActions(events[1..]);
      RecoveredIffAllOneLine(events[1..], e.id);
      assert forall x :: x in events <==> x == e || x in events[1..];
      assert ExpectedActions(events) == ExpectedEvent(e) + tail;
      hide Interpret, ExpectedActions, EventBytes, OneLine;
      if OneLine(e.data) {
        InterpretEvent(e, previousId, rest);
        SamePrefix(ExpectedEvent(e), Interpret(Reader([], e.id), rest), tail);
      } else {
        BrokenEventDiffers(e, previousId, rest);
        assert Begins(ExpectedEvent(e) + tail, ExpectedEvent(e));
      }
    }
  }

  lemma SamePrefix(start: seq<Action>, a: seq<Action>, b: seq<Action>)
    ensures start + a == start + b <==> a == b
  {
    assert (start + a)[|start|..] == a && (start + b)[|start|..] == b;
  }

  /** For one event: it is recovered if and only if its data has no carriage return or line feed. */
  lemma RecoveredIffOneLine(e: SseEvent, previousId: Bytes)
    requires OneLine(e.id) && NUL !in e.id
    ensures Interpret(Reader([], previousId), EventBytes(e)) == ExpectedActions([e]) <==> OneLine(e.data)
  {
    RecoveredIffAllOneLine([e], previousId);
    assert e in [e];
    assert StreamBytes([e]) == EventBytes(e) + StreamBytes([]) == EventBytes(e);
  }

  /** A line feed in the data loses everything after it: the reader gets `a` for `a`, LF, `b`. */
  lemma LineFeedInDataIsLost(id: Bytes)
    requires OneLine(id) && NUL !in id
    ensures var e := SseEvent(id, ['a' as int, LF, 'b' as int], false);
      && !OneLine(e.data)
      && Interpret(Reader([], []), EventBytes(e)) == [Dispatch(id, ['a' as int])]
  {
    var a: Bytes, b: Bytes := ['a' as int], ['b' as int];
    var e := SseEvent(id, a + [LF] + b, false);
    assert e.data[1] == LF && e.data == ['a' as int, LF, 'b' as int];
    EventBytesLayout(e);
    var data := FieldLine(DATA_FIELD, e.data) + [LF, LF];
    assert data == FieldLine(DATA_FIELD, a) + [LF] + (b + [LF] + [LF]);
    assert EventBytes(e) == FieldLine(ID_FIELD, id) + [LF] + data;
    InterpretFieldLine(Reader([], []), ID_FIELD, id, data);
    hide Interpret, EventBytes;
    TruncatedData(id, a, b);
  }

  lemma TruncatedData(id: Bytes, a: Bytes, b: Bytes)
    requires OneLine(a) && OneLine(b) && b != [] && COLON !in b && UnknownField(b)
    ensures Interpret(Reader([], id), FieldLine(DATA_FIELD, a) + [LF] + (b + [LF] + [LF])) == [Dispatch(id, a)]
  {
    var r := Reader(a + [LF], id);
    FirstData(id, a);
    hide Interpret, ProcessField, ProcessLine, FieldLine;
    InterpretFieldLine(Reader([], id), DATA_FIELD, a, b + [LF] + [LF]);
    SkipUnknown(r, b, [LF]);
    DispatchOnBlank(id, a);
  }

  lemma FirstData(id: Bytes, data: Bytes)
    ensures ProcessField(Reader([], id), DATA_FIELD, data) == (Reader(data + [LF], id), [])
  {
    assert [] + data + [LF] == data + [LF];
  }

  lemma SkipUnknown(r: Reader, line: Bytes, rest: Bytes)
    requires line != [] && COLON !in line && UnknownField(line) && OneLine(line)
    ensures Interpret(r, line + [LF] + rest) == Interpret(r, rest)
  {
    InterpretLine(r, line, rest);
    assert IndexOf(line, COLON) == |line|;
    assert ProcessLine(r, line) == (r, []);
  }

  lemma DispatchOnBlank(id: Bytes, data: Bytes)
    ensures Interpret(Reader(data + [LF], id), [LF]) == [Dispatch(id, data)]
  {
    var r := Reader(data + [LF], id);
    assert (data + [LF])[..|data + [LF]| - 1] == data;
    assert ProcessLine(r, []) == (Reader([], id), [Dispatch(id, data)]);
    assert Interpret(Reader([], id), []) == [];
    assert [LF] == [] + [LF] + [];
    InterpretLine(r, [], []);
  }

  predicate UnknownField(name: Bytes) {
    name != DATA_FIELD && name != ID_FIELD && name != RETRY_FIELD
  }
}
