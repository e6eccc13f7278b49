/**
 * Process-global replay protection: a bounded, pruned, clock-guarded table of consumed grants,
 * and the registry that gives every equivalent authority the same table.
 */
module GrantReplay {
  import opened Common

  datatype ReplayError =
    | Expired
    | FutureIssued
    | LifetimeExceeded
    | Replayed
    | ClockRollback
    | CapacityExhausted
    | StateUnavailable

  type Outcome = Result<Unit, ReplayError>

  /** The arguments of one `consume` call. */
  datatype Request = Request(
    grantId: Id16, issued: u64, expires: u64, now: u64, maxLifetime: u64, maxSkew: u64)
  {
    /** The checks that look at nothing but the request. */
    function Timely(): Outcome {
      if expires < issued || expires == issued || expires - issued > maxLifetime then Err(LifetimeExceeded)
      else if issued > SaturatingAdd(now, maxSkew) then Err(FutureIssued)
      else if now >= expires then Err(Expired)
      else Ok(Unit)
    }
  }

  // ---------------------------------------------------------------- the bounded table

  /** `ReplayState`. */
  datatype Table = Table(consumed: map<Id16, u64>, lastObserved: Option<u64>, capacity: nat)

  predicate RollsBack(lastObserved: Option<u64>, now: u64) {
    lastObserved.Some? && now < lastObserved.value
  }

  function Unexpired(entries: map<Id16, u64>, now: u64): map<Id16, u64> {
    map id | id in entries && entries[id] > now :: entries[id]
  }

  /** One locked `consume`. */
  function Step(t: Table, q: Request): (Table, Outcome) {
    if RollsBack(t.lastObserved, q.now) then (t, Err(ClockRollback))
    else
      var seen := t.(lastObserved := Some(q.now));
      if q.Timely().Err? then (seen, q.Timely())
      else
        var live := Unexpired(t.consumed, q.now);
        var pruned := seen.(consumed := live);
        if q.grantId in live then (pruned, Err(Replayed))
        else if |live| >= t.capacity then (pruned, Err(CapacityExhausted))
        else (pruned.(consumed := live[q.grantId := q.expires]), Ok(Unit))
  }

  function RunTable(t: Table, qs: seq<Request>): (outcomes: seq<Outcome>)
    ensures |outcomes| == |qs|
    decreases qs
  {
    if qs == [] then [] else [Step(t, qs[0]).1] + RunTable(Step(t, qs[0]).0, qs[1..])
  }

  function After(t: Table, qs: seq<Request>): Table
    decreases qs
  {
    if qs == [] then t else After(Step(t, qs[0]).0, qs[1..])
  }

  // ---------------------------------------------------------------- remembering forever

  /** The simple registry: every accepted grant is kept for good. */
  datatype History = History(accepted: map<Id16, u64>, lastObserved: Option<u64>, capacity: nat)

  /**
   * Membership is tested in the whole history and capacity counts the unexpired entries only;
   * nothing is ever forgotten.
   */
  function ForeverStep(h: History, q: Request): (History, Outcome) {
    if RollsBack(h.lastObserved, q.now) then (h, Err(ClockRollback))
    else
      var seen := h.(lastObserved := Some(q.now));
      if q.Timely().Err? then (seen, q.Timely())
      else if q.grantId in h.accepted then (seen, Err(Replayed))
      else if |Unexpired(h.accepted, q.now)| >= h.capacity then (seen, Err(CapacityExhausted))
      else (seen.(accepted := h.accepted[q.grantId := q.expires]), Ok(Unit))
  }

  function RunForever(h: History, qs: seq<Request>): (outcomes: seq<Outcome>)
    ensures |outcomes| == |qs|
    decreases qs
  {
    if qs == [] then [] else [ForeverStep(h, qs[0]).1] + RunForever(ForeverStep(h, qs[0]).0, qs[1..])
  }

  /** The table holds exactly the part of the history that has not expired by the last look. */
  predicate Tracks(t: Table, h: History) {
    && t.lastObserved == h.lastObserved
    && t.capacity == h.capacity
    && (forall id :: id in t.consumed ==> id in h.accepted && h.accepted[id] == t.consumed[id])
    && (forall id :: id in h.accepted && id !in t.consumed ==>
          h.lastObserved.Some? && h.accepted[id] <= h.lastObserved.value)
  }

  /** A request that would pass every time check for an id whose accepted grant has expired. */
  predicate Revives(h: History, q: Request) {
    && !RollsBack(h.lastObserved, q.now)
    && q.Timely().Ok?
    && q.grantId in h.accepted
    && h.accepted[q.grantId] <= q.now
  }

  predicate RunRevives(h: History, qs: seq<Request>)
    decreases qs
  {
    qs != [] && (Revives(h, qs[0]) || RunRevives(ForeverStep(h, qs[0]).0, qs[1..]))
  }

  lemma PruningAgrees(t: Table, h: History, now: u64)
    requires Tracks(t, h) && !RollsBack(t.lastObserved, now)
    ensures Unexpired(t.consumed, now) == Unexpired(h.accepted, now)
  {
  }

  lemma StepAgreesUnlessRevived(t: Table, h: History, q: Request)
    requires Tracks(t, h)
    ensures Step(t, q).1 == ForeverStep(h, q).1 <==> !Revives(h, q)
    ensures !Revives(h, q) ==> Tracks(Step(t, q).0, ForeverStep(h, q).0)
  {
    if !RollsBack(t.lastObserved, q.now) && q.Timely().Ok? {
      PruningAgrees(t, h, q.now);
    }
  }

  /**
   * Over every run with arbitrary clocks, the bounded table answers call by call exactly as the
   * registry that forgets nothing, if and only if no expired id is presented again as a fresh grant.
   */
  lemma {:induction false} TableRefinesHistory(t: Table, h: History, qs: seq<Request>)
    requires Tracks(t, h)
    ensures RunTable(t, qs) == RunForever(h, qs) <==> !RunRevives(h, qs)
    decreases qs
  {
    if qs != [] {
      StepAgreesUnlessRevived(t, h, qs[0]);
      var x, y := RunTable(t, qs), RunForever(h, qs);
      assert x[1..] == RunTable(Step(t, qs[0]).0, qs[1..]);
      assert y[1..] == RunForever(ForeverStep(h, qs[0]).0, qs[1..]);
      assert x == y ==> x[0] == y[0] && x[1..] == y[1..];
      if !Revives(h, qs[0]) {
        TableRefinesHistory(Step(t, qs[0]).0, ForeverStep(h, qs[0]).0, qs[1..]);
      }
    }
  }

  predicate SingleExpiry(h: History, qs: seq<Request>) {
    && (forall i, j :: 0 <= i < j < |qs| && qs[i].grantId == qs[j].grantId ==> qs[i].expires == qs[j].expires)
    && (forall i :: 0 <= i < |qs| && qs[i].grantId in h.accepted ==> h.accepted[qs[i].grantId] == qs[i].expires)
  }

  lemma {:induction false} SingleExpiryNeverRevives(h: History, qs: seq<Request>)
    requires SingleExpiry(h, qs)
    ensures !RunRevives(h, qs)
    decreases qs
  {
    if qs != [] {
      var h' := ForeverStep(h, qs[0]).0;
      assert SingleExpiry(h', qs[1..]) by {
        forall i | 0 <= i < |qs| - 1 && qs[1..][i].grantId in h'.accepted
          ensures h'.accepted[qs[1..][i].grantId] == qs[1..][i].expires
        {
          assert qs[1..][i] == qs[i + 1];
        }
      }
      SingleExpiryNeverRevives(h', qs[1..]);
    }
  }

  /** When each id always carries one expiry, the table is the registry that forgets nothing. */
  lemma TableIsHistoryForSingleExpiries(capacity: nat, qs: seq<Request>)
    requires forall i, j :: 0 <= i < j < |qs| && qs[i].grantId == qs[j].grantId ==> qs[i].expires == qs[j].expires
    ensures RunTable(Table(map[], None, capacity), qs) == RunForever(History(map[], None, capacity), qs)
  {
    SingleExpiryNeverRevives(History(map[], None, capacity), qs);
    TableRefinesHistory(Table(map[], None, capacity), History(map[], None, capacity), qs);
  }

  /** One id under two expiries is accepted twice by the table and once by the history. */
  lemma RevivalExample(id: Id16)
    ensures var first, second := Request(id, 0, 10, 0, 120, 5), Request(id, 10, 20, 10, 120, 5);
      && RunTable(Table(map[], None, 4), [first, second]) == [Ok(Unit), Ok(Unit)]
      && RunForever(History(map[], None, 4), [first, second]) == [Ok(Unit), Err(Replayed)]
  {
    var first, second := Request(id, 0, 10, 0, 120, 5), Request(id, 10, 20, 10, 120, 5);
    var empty := Table(map[], None, 4);
    var t1 := Step(empty, first).0;
    assert Unexpired(map[], 0) == map[];
    assert t1 == Table(map[id := 10], Some(0), 4);
    assert Unexpired(map[id := 10], 10) == map[];
    assert Step(t1, second).1 == Ok(Unit);
    var h1 := ForeverStep(History(map[], None, 4), first).0;
    assert id in h1.accepted;
    assert [first, second][1..] == [second] && [second][1..] == [];
    assert RunTable(t1, [second]) == [Ok(Unit)];
    assert RunForever(h1, [second]) == [Err(Replayed)];
  }

  // ---------------------------------------------------------------- single use

  /** The pair can never be accepted (again): its expiry was seen to pass, or it is remembered. */
  predicate Spent(t: Table, id: Id16, expires: u64) {
    t.lastObserved.Some?
    && (expires <= t.lastObserved.value || (id in t.consumed && t.consumed[id] == expires))
  }

  lemma SpentStep(t: Table, q: Request, id: Id16, expires: u64)
    ensures Step(t, q).1.Ok? ==> Spent(Step(t, q).0, q.grantId, q.expires)
    ensures Spent(t, id, expires) ==> Spent(Step(t, q).0, id, expires)
    ensures Spent(t, q.grantId, q.expires) ==> Step(t, q).1.Err?
  {
  }

  lemma {:induction false} SpentForever(t: Table, qs: seq<Request>, id: Id16, expires: u64, j: nat)
    requires Spent(t, id, expires)
    requires j < |qs| && qs[j].grantId == id && qs[j].expires == expires
    ensures RunTable(t, qs)[j].Err?
    decreases qs
  {
    SpentStep(t, qs[0], id, expires);
    if j > 0 {
      SpentForever(Step(t, qs[0]).0, qs[1..], id, expires, j - 1);
    }
  }

  /** Whatever else is requested and whatever the clock does, a grant is accepted at most once. */
  lemma {:induction false} AcceptedAtMostOnce(t: Table, qs: seq<Request>, i: nat, j: nat)
    requires i < j < |qs| && RunTable(t, qs)[i].Ok? && RunTable(t, qs)[j].Ok?
    ensures qs[i].grantId != qs[j].grantId || qs[i].expires != qs[j].expires
    decreases qs
  {
    var next := Step(t, qs[0]).0;
    if i > 0 {
      AcceptedAtMostOnce(next, qs[1..], i - 1, j - 1);
    } else {
      SpentStep(t, qs[0], qs[0].grantId, qs[0].expires);
      if qs[j].grantId == qs[0].grantId && qs[j].expires == qs[0].expires {
        SpentForever(next, qs[1..], qs[0].grantId, qs[0].expires, j - 1);
      }
    }
  }

  // ---------------------------------------------------------------- capacity

  lemma {:induction false} LiveGrantsNeverExceedCapacity(t: Table, qs: seq<Request>)
    requires |t.consumed| <= t.capacity
    ensures |After(t, qs).consumed| <= After(t, qs).capacity == t.capacity
    decreases qs
  {
    if qs != [] {
      var live := Unexpired(t.consumed, qs[0].now);
      assert live.Keys <= t.consumed.Keys;
      SubsetSize(live.Keys, t.consumed.Keys);
      assert |live| == |live.Keys| && |t.consumed| == |t.consumed.Keys|;
      LiveGrantsNeverExceedCapacity(Step(t, qs[0]).0, qs[1..]);
    }
  }

  /** The entry was made by the `i`-th request of the run and expires in time for that request. */
  predicate EnteredAt(t: Table, qs: seq<Request>, i: nat, id: Id16, expires: u64) {
    && i < |qs| && RunTable(t, qs)[i].Ok? && qs[i].grantId == id && qs[i].expires == expires
    && expires <= qs[i].now + qs[i].maxLifetime + qs[i].maxSkew
  }

  /**
   * Saturation only ever shortens an entry: each one in the table after a run was already there or
   * was accepted at some time `t`, and expires by `t` plus lifetime plus skew.
   */
  lemma {:induction false} AcceptedEntriesExpire(t: Table, qs: seq<Request>, id: Id16)
    requires id in After(t, qs).consumed
    ensures (id in t.consumed && After(t, qs).consumed[id] == t.consumed[id])
            || exists i: nat :: EnteredAt(t, qs, i, id, After(t, qs).consumed[id])
    decreases qs
  {
    if qs != [] {
      var next := Step(t, qs[0]).0;
      var expires := After(t, qs).consumed[id];
      AcceptedEntriesExpire(next, qs[1..], id);
      assert RunTable(t, qs)[0] == Step(t, qs[0]).1 && RunTable(t, qs)[1..] == RunTable(next, qs[1..]);
      if i: nat :| EnteredAt(next, qs[1..], i, id, expires) {
        assert EnteredAt(t, qs, i + 1, id, expires);
      } else if !(id in t.consumed && t.consumed[id] == expires) {
        assert EnteredAt(t, qs, 0, id, expires);
      }
    }
  }

  /** Every acceptance in the run happens no later than `last`, under limits no wider than given. */
  predicate AcceptancesEnd(t: Table, qs: seq<Request>, last: nat, lifetime: nat, skew: nat) {
    forall i :: 0 <= i < |qs| && RunTable(t, qs)[i].Ok? ==>
      qs[i].now <= last && qs[i].maxLifetime <= lifetime && qs[i].maxSkew <= skew
  }

  /**
   * Capacity always recovers: once the clock is lifetime plus skew past the last acceptance of any
   * run, every well-formed grant is accepted, whatever the table went through.
   */
  lemma CapacityRecovers(capacity: nat, qs: seq<Request>, last: nat, lifetime: nat, skew: nat, q: Request)
    requires capacity > 0
    requires AcceptancesEnd(Table(map[], None, capacity), qs, last, lifetime, skew)
    requires q.Timely().Ok? && q.now >= last + lifetime + skew
    ensures var t := After(Table(map[], None, capacity), qs);
      Step(t, q).1.Ok? <==> !RollsBack(t.lastObserved, q.now)
  {
    var start := Table(map[], None, capacity);
    LiveGrantsNeverExceedCapacity(start, qs);
    var t := After(start, qs);
    forall id | id in t.consumed ensures t.consumed[id] <= q.now {
      AcceptedEntriesExpire(start, qs, id);
    }
    assert Unexpired(t.consumed, q.now) == map[];
  }

  // ---------------------------------------------------------------- every answer, from the requests alone

  lemma {:induction false} RunSplits(t: Table, qs: seq<Request>, j: nat)
    requires j < |qs|
    ensures RunTable(t, qs)[j] == Step(After(t, qs[..j]), qs[j]).1
    ensures After(t, qs[..j + 1]) == Step(After(t, qs[..j]), qs[j]).0
    decreases qs
  {
    var next := Step(t, qs[0]).0;
    assert qs[..j + 1][1..] == qs[1..][..j];
    if j == 0 {
      assert qs[..0] == [] && qs[..1] == [qs[0]] && [qs[0]][1..] == [];
    } else {
      RunSplits(next, qs[1..], j - 1);
      assert qs[..j][1..] == qs[1..][..j - 1];
    }
  }

  /** A call is a clock rollback exactly when some earlier call, or the table, saw a later time. */
  lemma {:induction false} RollbackIff(t: Table, qs: seq<Request>, j: nat)
    requires j < |qs|
    ensures RunTable(t, qs)[j] == Err(ClockRollback) <==>
      || (exists i :: 0 <= i < j && qs[i].now > qs[j].now)
      || (t.lastObserved.Some? && t.lastObserved.value > qs[j].now)
    decreases qs
  {
    if j > 0 {
      RollbackIff(Step(t, qs[0]).0, qs[1..], j - 1);
      var earlier := exists i :: 0 <= i < j && qs[i].now > qs[j].now;
      var later := exists i :: 0 <= i < j - 1 && qs[1..][i].now > qs[1..][j - 1].now;
      if later {
        var i :| 0 <= i < j - 1 && qs[1..][i].now > qs[1..][j - 1].now;
        assert qs[i + 1].now > qs[j].now;
      }
      if earlier {
        var i :| 0 <= i < j && qs[i].now > qs[j].now;
        assert i == 0 || qs[1..][i - 1].now > qs[1..][j - 1].now;
      }
    }
  }

  /** The grants accepted before the `j`-th call that are unexpired at `now`. */
  function LiveIds(qs: seq<Request>, outcomes: seq<Outcome>, j: nat, now: nat): set<Id16>
    requires j <= |qs| == |outcomes|
  {
    set i | 0 <= i < j && outcomes[i].Ok? && qs[i].expires > now :: qs[i].grantId
  }

  /** What the `j`-th call has to be answered, from the requests so far and what they were answered. */
  function Verdict(qs: seq<Request>, outcomes: seq<Outcome>, j: nat, capacity: nat): Outcome
    requires j < |qs| == |outcomes|
  {
    var q := qs[j];
    if exists i :: 0 <= i < j && qs[i].now > q.now then Err(ClockRollback)
    else if !(q.issued < q.expires <= q.issued + q.maxLifetime) then Err(LifetimeExceeded)
    else if q.issued > q.now + q.maxSkew then Err(FutureIssued)
    else if q.expires <= q.now then Err(Expired)
    else if q.grantId in LiveIds(qs, outcomes, j, q.now) then Err(Replayed)
    else if |LiveIds(qs, outcomes, j, q.now)| >= capacity then Err(CapacityExhausted)
    else Ok(Unit)
  }

  /** The table after `j` calls remembers the latest time and every unexpired acceptance. */
  ghost predicate Reflects(t: Table, qs: seq<Request>, outcomes: seq<Outcome>, j: nat, capacity: nat)
    requires j <= |qs| == |outcomes|
  {
    && t.capacity == capacity
    && (t.lastObserved.Some? <==> j > 0)
    && (forall i :: 0 <= i < j ==> qs[i].now <= t.lastObserved.value)
    && (j > 0 ==> exists i :: 0 <= i < j && qs[i].now == t.lastObserved.value)
    && (forall id :: id in t.consumed ==> exists i :: AcceptedAs(qs, outcomes, i, j, id, t.consumed[id]))
    && (forall i :: 0 <= i < j && outcomes[i].Ok? && qs[i].expires > t.lastObserved.value ==>
          qs[i].grantId in t.consumed && t.consumed[qs[i].grantId] == qs[i].expires)
  }

  ghost predicate AcceptedAs(qs: seq<Request>, outcomes: seq<Outcome>, i: int, j: nat, id: Id16, expires: u64)
    requires j <= |qs| == |outcomes|
  {
    0 <= i < j && outcomes[i].Ok? && qs[i].grantId == id && qs[i].expires == expires
  }

  /** One call looks at the clock, and then, if the request is timely, at the unexpired entries. */
  lemma StepEntries(t: Table, q: Request)
    ensures var (next, outcome) := Step(t, q);
      && next.capacity == t.capacity
      && next.lastObserved == (if RollsBack(t.lastObserved, q.now) then t.lastObserved else Some(q.now))
      && (outcome.Ok? ==> !RollsBack(t.lastObserved, q.now) && q.grantId in next.consumed
                          && next.consumed[q.grantId] == q.expires
                          && forall id :: id in t.consumed && t.consumed[id] > q.now ==> id != q.grantId)
      && (forall id :: id in next.consumed ==>
            || (id in t.consumed && next.consumed[id] == t.consumed[id])
            || (outcome.Ok? && id == q.grantId && next.consumed[id] == q.expires))
      && (forall id :: id in t.consumed && t.consumed[id] > next.lastObserved.value ==>
            id in next.consumed && next.consumed[id] == t.consumed[id])
  {
  }

  lemma ReflectsLater(t: Table, qs: seq<Request>, outcomes: seq<Outcome>, j: nat, capacity: nat)
    requires j < |qs| == |outcomes| && Reflects(t, qs, outcomes, j, capacity)
    requires outcomes[j] == Step(t, qs[j]).1
    ensures Reflects(Step(t, qs[j]).0, qs, outcomes, j + 1, capacity)
  {
    var q, next, later := qs[j], Step(t, qs[j]).0, j + 1;
    StepEntries(t, q);
    hide Step;
    if RollsBack(t.lastObserved, q.now) {
      var i :| 0 <= i < j && qs[i].now == t.lastObserved.value;
      assert qs[i].now == next.lastObserved.value;
    } else {
      assert qs[j].now == next.lastObserved.value;
    }
    forall id | id in next.consumed
      ensures exists i :: AcceptedAs(qs, outcomes, i, later, id, next.consumed[id])
    {
      if id in t.consumed && next.consumed[id] == t.consumed[id] {
        var i :| AcceptedAs(qs, outcomes, i, j, id, t.consumed[id]);
        assert AcceptedAs(qs, outcomes, i, later, id, next.consumed[id]);
      } else {
        assert AcceptedAs(qs, outcomes, j, later, id, next.consumed[id]);
      }
    }
  }

  lemma {:induction false} RunReflects(capacity: nat, qs: seq<Request>, j: nat)
    requires j <= |qs|
    ensures Reflects(After(Table(map[], None, capacity), qs[..j]), qs, RunTable(Table(map[], None, capacity), qs), j,
                     capacity)
    decreases j
  {
    if j > 0 {
      RunReflects(capacity, qs, j - 1);
      RunSplits(Table(map[], None, capacity), qs, j - 1);
      ReflectsLater(After(Table(map[], None, capacity), qs[..j - 1]), qs, RunTable(Table(map[], None, capacity), qs),
                    j - 1, capacity);
    }
  }

  lemma LiveIdsAreTheTable(t: Table, qs: seq<Request>, outcomes: seq<Outcome>, j: nat, capacity: nat, now: u64)
    requires j <= |qs| == |outcomes| && Reflects(t, qs, outcomes, j, capacity)
    requires t.lastObserved.Some? ==> t.lastObserved.value <= now
    ensures Unexpired(t.consumed, now).Keys == LiveIds(qs, outcomes, j, now)
    ensures |Unexpired(t.consumed, now)| == |LiveIds(qs, outcomes, j, now)|
  {
    var live := LiveIds(qs, outcomes, j, now);
    forall id | id in Unexpired(t.consumed, now) ensures id in live {
      var i :| AcceptedAs(qs, outcomes, i, j, id, t.consumed[id]);
    }
    assert Unexpired(t.consumed, now).Keys == live;
    assert |Unexpired(t.consumed, now)| == |Unexpired(t.consumed, now).Keys|;
  }

  lemma StepIsVerdict(t: Table, qs: seq<Request>, outcomes: seq<Outcome>, j: nat, capacity: nat)
    requires j < |qs| == |outcomes| && Reflects(t, qs, outcomes, j, capacity)
    ensures Step(t, qs[j]).1 == Verdict(qs, outcomes, j, capacity)
  {
    if j > 0 {
      var i :| 0 <= i < j && qs[i].now == t.lastObserved.value;
    }
    if !RollsBack(t.lastObserved, qs[j].now) {
      LiveIdsAreTheTable(t, qs, outcomes, j, capacity, qs[j].now);
    }
    hide Unexpired, LiveIds;
  }

  /**
   * Every answer of every run is decided by the requests alone: the clocks seen before, the grant's
   * own three times, and the unexpired grants accepted before.
   */
  lemma EveryAnswerIsDecided(capacity: nat, qs: seq<Request>, j: nat)
    requires j < |qs|
    ensures var outcomes := RunTable(Table(map[], None, capacity), qs);
      outcomes[j] == Verdict(qs, outcomes, j, capacity)
  {
    var start := Table(map[], None, capacity);
    RunReflects(capacity, qs, j);
    RunSplits(start, qs, j);
    StepIsVerdict(After(start, qs[..j]), qs, RunTable(start, qs), j, capacity);
  }

  // ---------------------------------------------------------------- shared state and registry

  /** The mutex-protected state; each method is one locked step. */
  class SharedReplayState {
    var consumed: map<Id16, u64>
    var lastObserved: Option<u64>
    const capacity: nat
    /** Every grant this state has ever accepted. */
    ghost var accepted: set<(Id16, u64)>

    ghost function View(): Table
      reads this
    {
      Table(consumed, lastObserved, capacity)
    }

    ghost predicate Valid()
      reads this
    {
      && |consumed| <= capacity
      && forall id, expires :: (id, expires) in accepted ==> Spent(View(), id, expires)
    }

    constructor (capacity: nat)
      ensures Valid() && View() == Table(map[], None, capacity) && accepted == {}
    {
      this.capacity := capacity;
      consumed, lastObserved, accepted := map[], None, {};
    }

    method Consume(q: Request) returns (outcome: Outcome)
      requires Valid()
      modifies this
      ensures Valid()
      ensures View() == Step(old(View()), q).0 && outcome == Step(old(View()), q).1
      ensures outcome.Ok? ==> (q.grantId, q.expires) !in old(accepted)
      ensures accepted == old(accepted) + (if outcome.Ok? then {(q.grantId, q.expires)} else {})
    {
      ghost var before := View();
      forall id, expires ensures Spent(before, id, expires) ==> Spent(Step(before, q).0, id, expires) {
        SpentStep(before, q, id, expires);
      }
      SpentStep(before, q, q.grantId, q.expires);
      if lastObserved.Some? && q.now < lastObserved.value {
        return Err(ClockRollback);
      }
      lastObserved := Some(q.now);
      if q.expires < q.issued {
        return Err(LifetimeExceeded);
      }
      var lifetime := q.expires - q.issued;
      if lifetime == 0 || lifetime > q.maxLifetime {
        return Err(LifetimeExceeded);
      }
      if q.issued > SaturatingAdd(q.now, q.maxSkew) {
        return Err(FutureIssued);
      }
      if q.now >= q.expires {
        return Err(Expired);
      }
      assert |Unexpired(consumed, q.now)| <= |consumed| by {
        SubsetSize(Unexpired(consumed, q.now).Keys, consumed.Keys);
        assert |Unexpired(consumed, q.now)| == |Unexpired(consumed, q.now).Keys| && |consumed| == |consumed.Keys|;
      }
      consumed := map id | id in consumed && consumed[id] > q.now :: consumed[id];
      assert consumed == Unexpired(before.consumed, q.now);
      if q.grantId in consumed {
        return Err(Replayed);
      }
      if |consumed| >= capacity {
        return Err(CapacityExhausted);
      }
      consumed := consumed[q.grantId := q.expires];
      accepted := accepted + {(q.grantId, q.expires)};
      return Ok(Unit);
    }

    method RequireCapacity(requested: nat) returns (outcome: Outcome)
      ensures outcome == if requested == capacity then Ok(Unit) else Err(StateUnavailable)
    {
      if capacity == requested {
        return Ok(Unit);
      }
      return Err(StateUnavailable);
    }
  }

  lemma MapGrows<V>(m: map<Digest, V>, key: Digest, value: V)
    requires key !in m
    ensures |m[key := value]| == |m| + 1
  {
    assert m[key := value].Keys == m.Keys + {key};
    assert |m| == |m.Keys| && |m[key := value]| == |m[key := value].Keys|;
  }

  lemma MapsAgree(after: map<Digest, Table>, before: map<Digest, Table>, key: Digest, value: Table)
    requires after.Keys == before.Keys + {key} && after[key] == value
    requires forall k :: k in before && k != key ==> after[k] == before[k]
    ensures after == before[key := value]
  {
  }

  const MAX_SHARED_REPLAY_NAMESPACES := 256

  class ReplayRegistry {
    var states: map<Digest, SharedReplayState>
    const namespaceCapacity: nat

    /** The tables by namespace. */
    ghost function Tables(): (tables: map<Digest, Table>)
      reads this, states.Values
      ensures tables.Keys == states.Keys && |tables| == |states|
      ensures forall n :: n in states ==> tables[n] == states[n].View()
    {
      var tables := map n | n in states :: states[n].View();
      assert tables.Keys == states.Keys && |tables| == |tables.Keys| && |states| == |states.Keys|;
      tables
    }

    /** Distinct namespaces never share a state object, and the registry stays bounded. */
    ghost predicate Valid()
      reads this, states.Values
    {
      && |states| <= namespaceCapacity
      && (forall n :: n in states ==> states[n].Valid())
      && forall m, n :: m in states && n in states && m != n ==> states[m] != states[n]
    }

    constructor (namespaceCapacity: nat)
      ensures Valid() && states == map[] && Tables() == map[] && this.namespaceCapacity == namespaceCapacity
    {
      this.namespaceCapacity := namespaceCapacity;
      states := map[];
    }

    /** Known namespaces always resolve to their one retained state; only new ones can be refused. */
    method Resolve(namespace: Digest, replayCapacity: nat) returns (r: Result<SharedReplayState, ReplayError>)
      requires Valid()
      modifies this
      ensures Valid()
      ensures Tables() == if namespace !in old(states) && r.Ok?
                          then old(Tables())[namespace := Table(map[], None, replayCapacity)] else old(Tables())
      ensures namespace in old(states) ==>
        && states == old(states)
        && r == if old(states)[namespace].capacity == replayCapacity then Ok(old(states)[namespace])
                else Err(StateUnavailable)
      ensures namespace !in old(states) && |old(states)| >= namespaceCapacity ==>
        && states == old(states)
        && r == Err(StateUnavailable)
      ensures namespace !in old(states) && |old(states)| < namespaceCapacity ==>
        && r.Ok? && fresh(r.value) && r.value.Valid()
        && r.value.View() == Table(map[], None, replayCapacity)
        && states == old(states)[namespace := r.value]
    {
      hide Valid, Tables, Spent, SharedReplayState.Valid, SharedReplayState.View;
      if namespace in states {
        var checked := states[namespace].RequireCapacity(replayCapacity);
        if checked.Err? {
          return Err(checked.error);
        }
        return Ok(states[namespace]);
      }
      if |states| >= namespaceCapacity {
        return Err(StateUnavailable);
      }
      ghost var tables := Tables();
      var state := Insert(namespace, replayCapacity);
      assert forall n :: n in tables ==> states[n] == old(states)[n] && Tables()[n] == tables[n];
      MapsAgree(Tables(), tables, namespace, Table(map[], None, replayCapacity));
      return Ok(state);
    }

    /** A fresh empty state for a namespace the registry has room for. */
    method Insert(namespace: Digest, replayCapacity: nat) returns (state: SharedReplayState)
      requires Valid() && namespace !in states && |states| < namespaceCapacity
      modifies this
      ensures Valid() && fresh(state) && state.Valid()
      ensures state.View() == Table(map[], None, replayCapacity)
      ensures states == old(states)[namespace := state]
      ensures forall n :: n in old(states) ==> old(states)[n].View() == old(states[n].View())
    {
      hide Spent, Tables, SharedReplayState.Valid, SharedReplayState.View;
      ghost var before := states;
      state := new SharedReplayState(replayCapacity);
      states := states[namespace := state];
      MapGrows(before, namespace, state);
    }
  }
}
