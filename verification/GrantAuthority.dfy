/**
 * Grant authorities: issuing, admitting and consuming tokens, and whole runs of any number of
 * authorities that share one replay registry.
 */
module GrantAuthority {
  import opened Common
  import Hex
  import opened Segments
  import opened GrantCodec
  import opened Preimages
  import R = GrantReplay
  import VolumeControl

  const GRANT_TTL_SECONDS: u64 := 60
  const MAX_LIFETIME_SECONDS: u64 := 120
  const MAX_FUTURE_SKEW_SECONDS: u64 := 5
  const POSTURE: byte := 1

  /** The effective identity of an authority; equal identities are interchangeable. */
  datatype Authority = Authority(family: Family, keyId: Bytes, key: Digest, principal: Digest) {
    predicate Valid() { ValidKeyId(keyId) }
  }

  function PrincipalDigest(p: Primitives, family: Family, key: Digest, secret: Bytes): Digest {
    p.hmac(key, MacBytes(PrincipalBinding(family, secret)))
  }

  /** `from_hex_key_with_capacity`, up to resolving the replay state. */
  function FromHexKey(p: Primitives, family: Family, keyId: Bytes, keyHex: Bytes, secret: Bytes, capacity: nat)
    : (r: Result<Authority, GrantError>)
    ensures r.Ok? ==> r.value.Valid() && capacity > 0
    ensures r.Err? ==> r.error == ConfigurationInvalid
  {
    if !ValidKeyId(keyId) || |keyHex| != 64 || secret == [] || capacity == 0 then Err(ConfigurationInvalid)
    else
      match Hex.DecodeArray(keyHex, 32)
      case None => Err(ConfigurationInvalid)
      case Some(key) => Ok(Authority(family, keyId, key, PrincipalDigest(p, family, key, secret)))
  }

  /** Construction accepts exactly the lowercase spelling of a key, so one key has one spelling. */
  lemma KeyTextIsCanonical(p: Primitives, family: Family, keyId: Bytes, keyHex: Bytes, secret: Bytes, capacity: nat,
                           key: Digest)
    ensures FromHexKey(p, family, keyId, keyHex, secret, capacity)
            == Ok(Authority(family, keyId, key, p.hmac(key, MacBytes(PrincipalBinding(family, secret)))))
            <==> ValidKeyId(keyId) && secret != [] && capacity > 0 && keyHex == Hex.Encode(key)
    ensures var r := FromHexKey(p, family, keyId, keyHex, secret, capacity);
      r.Err? ==> r.error == ConfigurationInvalid
  {
    Hex.DecodeArrayIsExact(keyHex, 32, key);
    hide MacBytes, ValidKeyId;
  }

  function Namespace(p: Primitives, a: Authority): Digest
    requires a.Valid()
  {
    p.hmac(a.key, MacBytes(ReplayNamespace(a.family, a.keyId, a.principal)))
  }

  /** Two authorities share a replay state only if they are one, or by an explicit HMAC coincidence. */
  lemma SharedNamespaceIsCoincidence(p: Primitives, a: Authority, b: Authority)
    requires a.Valid() && b.Valid() && Namespace(p, a) == Namespace(p, b)
    ensures var m := MacBytes(ReplayNamespace(a.family, a.keyId, a.principal));
      var n := MacBytes(ReplayNamespace(b.family, b.keyId, b.principal));
      p.hmac(a.key, m) == p.hmac(b.key, n) && (a == b || a.key != b.key || m != n)
  {
    var m, n := ReplayNamespace(a.family, a.keyId, a.principal), ReplayNamespace(b.family, b.keyId, b.principal);
    if MacBytes(m) == MacBytes(n) {
      MacInputsAreDisjoint(m, n);
    }
  }

  /** `parse_canonical_session`: only the printed form of a UUID names a session. */
  function ParseSession(p: Primitives, text: Bytes): (r: Result<Id16, GrantError>) {
    match p.uuidParse(text)
    case Some(id) => if p.uuidPrint(id) == text then Ok(id) else Err(SessionInvalid)
    case None => Err(SessionInvalid)
  }

  function OperationMac(p: Primitives, a: Authority, grantId: Id16, session: Id16, target: Target): Digest
    requires target.Opaque()
  {
    p.hmac(a.key, MacBytes(OperationBinding(grantId, a.principal, session, target)))
  }

  // ---------------------------------------------------------------- issue

  function NewGrant(p: Primitives, a: Authority, grantId: Id16, session: Id16, target: Target, now: u64, expires: u64)
    : (g: Grant)
    requires target.Family() == a.family
  {
    match target
    case DirectoryTarget(device, inode, digest) =>
      DirectoryGrant(grantId, a.principal, session, WireCode(a.family), device, inode, digest, POSTURE, now, expires)
    case VolumeTarget(stream, level) =>
      VolumeGrant(grantId, a.principal, session, WireCode(a.family), VolumeControl.GrantCode(stream), level, POSTURE, now, expires)
    case _ =>
      OpaqueGrant(grantId, WireCode(a.family), OperationMac(p, a, grantId, session, target), now, expires)
  }

  /**
   * `issue_at` with the random grant id as an argument. The volume family checks the clock before
   * the session, the others after it.
   */
  function Issue(p: Primitives, a: Authority, session: Bytes, target: Target, now: u64, grantId: Id16)
    : Result<Bytes, GrantError>
    requires target.Family() == a.family
  {
    var overflows := now + GRANT_TTL_SECONDS > U64_MAX;
    if a.family == AndroidVolume && overflows then Err(LifetimeExceeded)
    else
      var id :- ParseSession(p, session);
      if overflows then Err(LifetimeExceeded)
      else Ok(EncodeAndSign(p, a.keyId, a.key, NewGrant(p, a, grantId, id, target, now, now + GRANT_TTL_SECONDS)))
  }

  // ---------------------------------------------------------------- consume

  /** The binding comparison of `consume_at`: structural for two families, keyed for three. */
  predicate Binds(p: Primitives, a: Authority, grant: Grant, session: Id16, target: Target)
    requires target.Family() == a.family && grant.Shape() == LayoutOf(a.family)
  {
    match grant
    case OpaqueGrant(grantId, capability, binding, _, _) =>
      capability == WireCode(a.family) && OperationMac(p, a, grantId, session, target) == binding
    case DirectoryGrant(_, principal, boundSession, capability, device, inode, digest, posture, _, _) =>
      && principal == a.principal && boundSession == session && capability == WireCode(a.family)
      && device == target.rootDevice && inode == target.rootInode && digest == target.targetDigest
      && posture == POSTURE
    case VolumeGrant(_, principal, boundSession, capability, stream, level, posture, _, _) =>
      && principal == a.principal && boundSession == session && capability == WireCode(a.family)
      && stream == VolumeControl.GrantCode(target.stream) && level == target.level
      && posture == POSTURE
  }

  /** Everything `consume_at` does before it touches the replay state. */
  function Admit(p: Primitives, a: Authority, token: Option<Bytes>, session: Bytes, target: Target)
    : (r: Result<Grant, GrantError>)
    requires target.Family() == a.family
    ensures r.Ok? ==> token.Some? && r.value.Shape() == LayoutOf(a.family)
  {
    if token.None? then Err(Missing)
    else
      var id :- ParseSession(p, session);
      var grant :- ParseAndVerify(p, LayoutOf(a.family), a.keyId, a.key, token.value);
      if Binds(p, a, grant, id, target) then Ok(grant) else Err(BindingMismatch)
  }

  function ReplayRequest(grant: Grant, now: u64): R.Request {
    R.Request(grant.grantId, grant.issued, grant.expires, now, MAX_LIFETIME_SECONDS, MAX_FUTURE_SKEW_SECONDS)
  }

  function MapReplay(outcome: R.Outcome): Result<Unit, GrantError> {
    match outcome
    case Ok(unit) => Ok(unit)
    case Err(error) =>
      match error
      case Expired => Err(Expired)
      case FutureIssued => Err(FutureIssued)
      case LifetimeExceeded => Err(LifetimeExceeded)
      case Replayed => Err(Replayed)
      case ClockRollback => Err(ClockRollback)
      case CapacityExhausted => Err(ReplayCapacityExhausted)
      case StateUnavailable => Err(StateUnavailable)
  }

  class GrantAuthority {
    const identity: Authority
    const replay: R.SharedReplayState

    constructor (identity: Authority, replay: R.SharedReplayState)
      requires identity.Valid()
      ensures this.identity == identity && this.replay == replay
    {
      this.identity, this.replay := identity, replay;
    }

    /** A refused admission leaves the replay state alone; an admitted grant is used at most once. */
    method ConsumeAt(p: Primitives, token: Option<Bytes>, session: Bytes, target: Target, now: u64)
      returns (outcome: Result<Unit, GrantError>)
      requires target.Family() == identity.family && replay.Valid()
      modifies replay
      ensures replay.Valid()
      ensures var admitted := Admit(p, identity, token, session, target);
        if admitted.Err? then
          && outcome == Err(admitted.error)
          && replay.View() == old(replay.View()) && replay.accepted == old(replay.accepted)
        else
          var (next, answer) := R.Step(old(replay.View()), ReplayRequest(admitted.value, now));
          && outcome == MapReplay(answer) && replay.View() == next
          && (outcome.Ok? ==> (admitted.value.grantId, admitted.value.expires) !in old(replay.accepted))
    {
      hide Binds, ParseSession, ParseAndVerify, R.Step;
      if token.None? {
        return Err(Missing);
      }
      var parsedSession := ParseSession(p, session);
      if parsedSession.Err? {
        return Err(parsedSession.error);
      }
      var parsed := ParseAndVerify(p, LayoutOf(identity.family), identity.keyId, identity.key, token.value);
      if parsed.Err? {
        return Err(parsed.error);
      }
      if !Binds(p, identity, parsed.value, parsedSession.value, target) {
        return Err(BindingMismatch);
      }
      var answer := replay.Consume(ReplayRequest(parsed.value, now));
      return MapReplay(answer);
    }
  }

  // ---------------------------------------------------------------- single-token results

  /** Only one text names a session, so bound session bytes stand for the exact session string. */
  lemma SessionTextIsCanonical(p: Primitives, a: Bytes, b: Bytes)
    requires ParseSession(p, a).Ok? && ParseSession(p, a) == ParseSession(p, b)
    ensures a == b
  {
    assert a == p.uuidPrint(ParseSession(p, a).value);
  }

  /** An admitted token is its own grant's encoding under the admitting authority's key. */
  lemma AdmittedTokenIsEncoding(p: Primitives, a: Authority, token: Bytes, session: Bytes, target: Target)
    requires a.Valid() && target.Family() == a.family
    requires Admit(p, a, Some(token), session, target).Ok?
    ensures var grant := Admit(p, a, Some(token), session, target).value;
      token == EncodeAndSign(p, a.keyId, a.key, grant) && grant.capability == WireCode(a.family)
  {
    var grant := Admit(p, a, Some(token), session, target).value;
    TokenIsCanonical(p, LayoutOf(a.family), a.keyId, a.key, token, grant);
  }

  /**
   * No token is admitted by two grant families, for any keys, sessions and targets: payload lengths
   * or the signed capability byte exclude it. The grant and the key id are then shared too.
   */
  lemma NoTokenServesTwoFamilies(p: Primitives, token: Bytes,
                                 a: Authority, sessionA: Bytes, targetA: Target,
                                 b: Authority, sessionB: Bytes, targetB: Target)
    requires a.Valid() && targetA.Family() == a.family && Admit(p, a, Some(token), sessionA, targetA).Ok?
    requires b.Valid() && targetB.Family() == b.family && Admit(p, b, Some(token), sessionB, targetB).Ok?
    ensures a.family == b.family && a.keyId == b.keyId
    ensures Admit(p, a, Some(token), sessionA, targetA) == Admit(p, b, Some(token), sessionB, targetB)
  {
    var ga := Admit(p, a, Some(token), sessionA, targetA).value;
    var gb := Admit(p, b, Some(token), sessionB, targetB).value;
    AdmittedTokenIsEncoding(p, a, token, sessionA, targetA);
    AdmittedTokenIsEncoding(p, b, token, sessionB, targetB);
    TokenShape(p, a.keyId, a.key, ga);
    TokenShape(p, b.keyId, b.key, gb);
    var x, y := TokenSegments(p, a.keyId, a.key, ga), TokenSegments(p, b.keyId, b.key, gb);
    assert x[1] == y[1] && x[2] == y[2];
    Hex.EncodeThenDecode(EncodePayload(ga));
    Hex.EncodeThenDecode(EncodePayload(gb));
    PayloadWidth(ga);
    PayloadWidth(gb);
    EncodePayloadInjective(ga, gb);
  }

  /** A session is named by the printed form of a UUID and by nothing else. */
  predicate IsSession(p: Primitives, text: Bytes) {
    p.uuidParse(text).Some? && p.uuidPrint(p.uuidParse(text).value) == text
  }

  function SessionOf(p: Primitives, text: Bytes): Id16
    requires IsSession(p, text)
  {
    p.uuidParse(text).value
  }

  lemma SessionIff(p: Primitives, text: Bytes)
    ensures ParseSession(p, text) == if IsSession(p, text) then Ok(SessionOf(p, text)) else Err(SessionInvalid)
  {
  }

  /** The grant is one for this authority, session and target, field by field. */
  predicate Authorises(p: Primitives, a: Authority, grant: Grant, session: Id16, target: Target)
    requires target.Family() == a.family
  {
    && grant.capability == FamilyByte(a.family)
    && match target
      case DirectoryTarget(device, inode, digest) =>
        && grant.DirectoryGrant? && grant.principal == a.principal && grant.session == session
        && grant.rootDevice == device && grant.rootInode == inode && grant.targetDigest == digest
        && grant.posture == 1
      case VolumeTarget(stream, level) =>
        && grant.VolumeGrant? && grant.principal == a.principal && grant.session == session
        && VolumeControl.FromGrantCode(grant.stream) == Some(stream) && grant.level == level && grant.posture == 1
      case _ =>
        && grant.OpaqueGrant?
        && grant.binding == p.hmac(a.key, MacBytes(OperationBinding(grant.grantId, a.principal, session, target)))
  }

  /** Issuing succeeds exactly for a session and a clock that leaves room for sixty seconds. */
  lemma IssueIff(p: Primitives, a: Authority, session: Bytes, target: Target, now: u64, grantId: Id16)
    requires target.Family() == a.family
    ensures var issued := Issue(p, a, session, target, now, grantId);
      var tooLate := now + 60 > 0xFFFF_FFFF_FFFF_FFFF;
      if IsSession(p, session) && !tooLate then issued.Ok?
      else if IsSession(p, session) || (a.family == AndroidVolume && tooLate) then issued == Err(LifetimeExceeded)
      else issued == Err(SessionInvalid)
  {
    SessionIff(p, session);
    hide ParseSession, NewGrant, EncodeAndSign;
  }

  /** An issued token reads as a grant for its authority, session and target, good for sixty seconds. */
  lemma IssuedTokenReads(p: Primitives, a: Authority, session: Bytes, target: Target, now: u64, grantId: Id16)
    requires a.Valid() && target.Family() == a.family && Issue(p, a, session, target, now, grantId).Ok?
    ensures IsSession(p, session)
    ensures var read := ParseAndVerify(p, LayoutOf(a.family), a.keyId, a.key,
                                       Issue(p, a, session, target, now, grantId).value);
      && read.Ok? && read.value.grantId == grantId && read.value.issued == now && read.value.expires == now + 60
      && Authorises(p, a, read.value, SessionOf(p, session), target)
  {
    SessionIff(p, session);
    var grant := NewGrant(p, a, grantId, ParseSession(p, session).value, target, now, now + 60);
    if target.VolumeTarget? {
      VolumeControl.StreamCodesAreInverse(target.stream, grant.stream);
    }
    EncodingParses(p, a.keyId, a.key, grant);
    hide ParseAndVerify, EncodeAndSign, MacBytes, ParseSession;
  }

  /** What is admitted is exactly a token that reads as a grant for this session and target. */
  lemma AdmissionIff(p: Primitives, a: Authority, token: Option<Bytes>, session: Bytes, target: Target, grant: Grant)
    requires target.Family() == a.family
    ensures Admit(p, a, token, session, target) == Ok(grant) <==>
      && token.Some? && IsSession(p, session)
      && ParseAndVerify(p, LayoutOf(a.family), a.keyId, a.key, token.value) == Ok(grant)
      && Authorises(p, a, grant, SessionOf(p, session), target)
  {
    SessionIff(p, session);
    if target.VolumeTarget? && grant.VolumeGrant? {
      VolumeControl.StreamCodesAreInverse(target.stream, grant.stream);
    }
    hide ParseSession, ParseAndVerify, MacBytes;
  }

  /** A refused token is refused for the first thing that is wrong with the call. */
  lemma AdmissionErrors(p: Primitives, a: Authority, token: Option<Bytes>, session: Bytes, target: Target)
    requires target.Family() == a.family && Admit(p, a, token, session, target).Err?
    ensures Admit(p, a, token, session, target).error ==
      if token.None? then Missing
      else if !IsSession(p, session) then SessionInvalid
      else
        match ParseAndVerify(p, LayoutOf(a.family), a.keyId, a.key, token.value)
        case Err(error) => error
        case Ok(_) => BindingMismatch
  {
    SessionIff(p, session);
    hide ParseSession, ParseAndVerify, Binds;
  }

  /**
   * An issued token is admitted for exactly the session and target it was issued for, up to one
   * explicit coincidence: the keyed binding of a different operation taking the same value.
   */
  lemma IssuedTokenBindsItsOperation(p: Primitives, a: Authority, session: Bytes, target: Target, now: u64,
                                     grantId: Id16, session': Bytes, target': Target)
    requires a.Valid() && target.Family() == a.family == target'.Family()
    requires Issue(p, a, session, target, now, grantId).Ok? && ParseSession(p, session').Ok?
    ensures var token := Issue(p, a, session, target, now, grantId).value;
      var id, id' := ParseSession(p, session).value, ParseSession(p, session').value;
      var grant := NewGrant(p, a, grantId, id, target, now, now + GRANT_TTL_SECONDS);
      && (session == session' && target == target' ==> Admit(p, a, Some(token), session', target') == Ok(grant))
      && (!target.Opaque() ==>
          (Admit(p, a, Some(token), session', target').Ok? <==> session == session' && target == target'))
      && (target.Opaque() ==>
          && (Admit(p, a, Some(token), session', target').Ok? <==>
              OperationMac(p, a, grantId, id, target) == OperationMac(p, a, grantId, id', target'))
          && (session == session' && target == target' <==>
              MacBytes(OperationBinding(grantId, a.principal, id, target))
              == MacBytes(OperationBinding(grantId, a.principal, id', target'))))
  {
    hide ParseAndVerify, EncodeAndSign, MacBytes;
    var id, id' := ParseSession(p, session).value, ParseSession(p, session').value;
    var grant := NewGrant(p, a, grantId, id, target, now, now + GRANT_TTL_SECONDS);
    EncodingParses(p, a.keyId, a.key, grant);
    if id == id' {
      SessionTextIsCanonical(p, session, session');
    }
    if target.Opaque() {
      var m, m' := OperationBinding(grantId, a.principal, id, target), OperationBinding(grantId, a.principal, id', target');
      if MacBytes(m) == MacBytes(m') {
        MacInputsAreDisjoint(m, m');
      }
    }
  }

  // ---------------------------------------------------------------- whole runs

  datatype Event =
    | ResolveEvent(authority: Authority, capacity: nat)
    | IssueEvent(authority: Authority, session: Bytes, target: Target, now: u64, grantId: Id16)
    | ConsumeEvent(authority: Authority, token: Option<Bytes>, session: Bytes, target: Target, now: u64)
  {
    predicate WellFormed() {
      authority.Valid() && (ResolveEvent? || target.Family() == authority.family)
    }
  }

  /** The registry's tables by namespace. */
  datatype System = System(states: map<Digest, R.Table>, namespaceCapacity: nat)

  function SystemStep(p: Primitives, s: System, e: Event): (System, Result<Unit, GrantError>)
    requires e.WellFormed()
  {
    var namespace := Namespace(p, e.authority);
    match e
    case ResolveEvent(_, capacity) =>
      if capacity == 0 then (s, Err(ConfigurationInvalid)) else ResolveIn(s, namespace, capacity)
    case IssueEvent(a, session, target, now, grantId) =>
      (s, Answer(Issue(p, a, session, target, now, grantId)))
    case ConsumeEvent(a, token, session, target, now) =>
      if namespace !in s.states then (s, Err(StateUnavailable)) // no such authority was resolved
      else
        match Admit(p, a, token, session, target)
        case Err(error) => (s, Err(error))
        case Ok(grant) => ReplayIn(s, namespace, ReplayRequest(grant, now))
  }

  /** `resolve`: a known namespace must agree on the capacity, a new one needs room. */
  function ResolveIn(s: System, namespace: Digest, capacity: nat): (System, Result<Unit, GrantError>) {
    if namespace in s.states then
      (s, if s.states[namespace].capacity == capacity then Ok(Unit) else Err(StateUnavailable))
    else if |s.states| >= s.namespaceCapacity then (s, Err(StateUnavailable))
    else (s.(states := s.states[namespace := R.Table(map[], None, capacity)]), Ok(Unit))
  }

  function ReplayIn(s: System, namespace: Digest, q: R.Request): (System, Result<Unit, GrantError>)
    requires namespace in s.states
  {
    var (table, answer) := R.Step(s.states[namespace], q);
    (s.(states := s.states[namespace := table]), MapReplay(answer))
  }

  /**
   * The process: its global registry, and the calls that any number of authorities make on it. Each
   * call is exactly one system step, so what is proved of runs of steps holds for runs of calls.
   */
  class GrantProcess {
    const registry: R.ReplayRegistry

    ghost function View(): System
      reads registry, registry.states.Values
    {
      System(registry.Tables(), registry.namespaceCapacity)
    }

    constructor ()
      ensures fresh(registry) && registry.Valid() && View() == System(map[], 256)
    {
      registry := new R.ReplayRegistry(R.MAX_SHARED_REPLAY_NAMESPACES);
    }

    /** The authority was constructed in this process. */
    ghost predicate Attached(p: Primitives, a: GrantAuthority)
      reads registry
    {
      && a.identity.Valid()
      && Namespace(p, a.identity) in registry.states
      && registry.states[Namespace(p, a.identity)] == a.replay
    }

    /** `from_hex_key_with_capacity`, replay state included. */
    method Construct(p: Primitives, family: Family, keyId: Bytes, keyHex: Bytes, secret: Bytes, capacity: nat)
      returns (r: Result<GrantAuthority, GrantError>)
      requires registry.Valid()
      modifies registry
      ensures registry.Valid()
      ensures forall n :: n in old(registry.states) ==>
        n in registry.states && registry.states[n] == old(registry.states)[n]
      ensures (View(), Answer(r))
              == ConstructStep(p, old(View()), FromHexKey(p, family, keyId, keyHex, secret, capacity), capacity)
      ensures r.Ok? ==>
        FromHexKey(p, family, keyId, keyHex, secret, capacity) == Ok(r.value.identity) && Attached(p, r.value)
      ensures r.Err? ==>
        r.error == if FromHexKey(p, family, keyId, keyHex, secret, capacity).Err? then ConfigurationInvalid
                   else StateUnavailable
    {
      hide FromHexKey, Namespace, SystemStep, ResolveIn, View, ValidKeyId, PrincipalDigest,
        R.ReplayRegistry.Valid, R.ReplayRegistry.Tables;
      var parsed := FromHexKey(p, family, keyId, keyHex, secret, capacity);
      if parsed.Err? {
        return Err(parsed.error);
      }
      ResolveStep(p, View(), parsed.value, capacity);
      var state := SharedReplayState(Namespace(p, parsed.value), capacity);
      if state.Err? {
        return Err(state.error);
      }
      var authority := new GrantAuthority(parsed.value, state.value);
      return Ok(authority);
    }

    /** `shared_replay_state` for a non-zero capacity. */
    method SharedReplayState(namespace: Digest, capacity: nat) returns (state: Result<R.SharedReplayState, GrantError>)
      requires registry.Valid()
      modifies registry
      ensures registry.Valid()
      ensures (View(), Answer(state)) == ResolveIn(old(View()), namespace, capacity)
      ensures state.Ok? ==> namespace in registry.states && registry.states[namespace] == state.value
      ensures state.Err? ==> state.error == StateUnavailable
      ensures forall n :: n in old(registry.states) ==>
        n in registry.states && registry.states[n] == old(registry.states)[n]
    {
      ghost var before := View();
      assert namespace in before.states ==> before.states[namespace].capacity == registry.states[namespace].capacity;
      var resolved := registry.Resolve(namespace, capacity);
      return if resolved.Ok? then Ok(resolved.value) else Err(StateUnavailable);
    }

    method IssueAt(p: Primitives, a: GrantAuthority, session: Bytes, target: Target, now: u64, grantId: Id16)
      returns (token: Result<Bytes, GrantError>)
      requires a.identity.Valid() && target.Family() == a.identity.family
      ensures token == Issue(p, a.identity, session, target, now, grantId)
      ensures (View(), Answer(token)) == SystemStep(p, View(), IssueEvent(a.identity, session, target, now, grantId))
    {
      hide ParseSession, EncodeAndSign, NewGrant, Namespace;
      var identity := a.identity;
      if identity.family == AndroidVolume && now + GRANT_TTL_SECONDS > U64_MAX {
        return Err(LifetimeExceeded);
      }
      var parsedSession := ParseSession(p, session);
      if parsedSession.Err? {
        return Err(parsedSession.error);
      }
      if now + GRANT_TTL_SECONDS > U64_MAX {
        return Err(LifetimeExceeded);
      }
      var grant := NewGrant(p, identity, grantId, parsedSession.value, target, now, now + GRANT_TTL_SECONDS);
      return Ok(EncodeAndSign(p, identity.keyId, identity.key, grant));
    }

    method ConsumeAt(p: Primitives, a: GrantAuthority, token: Option<Bytes>, session: Bytes, target: Target, now: u64)
      returns (outcome: Result<Unit, GrantError>)
      requires registry.Valid() && Attached(p, a) && target.Family() == a.identity.family
      modifies a.replay
      ensures registry.Valid()
      ensures (View(), outcome) == SystemStep(p, old(View()), ConsumeEvent(a.identity, token, session, target, now))
    {
      hide Admit, Namespace, R.Step, MapReplay, R.SharedReplayState.Valid;
      ghost var before, namespace := View(), Namespace(p, a.identity);
      assert before.states[namespace] == a.replay.View();
      hide SystemStep;
      ConsumeStep(p, before, a.identity, token, session, target, now);
      outcome := a.ConsumeAt(p, token, session, target, now);
      assert registry.Tables() == before.states[namespace := a.replay.View()];
      assert a.replay.View() == before.states[namespace] ==> registry.Tables() == before.states;
    }
  }

  lemma ResolveStep(p: Primitives, s: System, a: Authority, capacity: nat)
    requires a.Valid() && capacity > 0
    ensures SystemStep(p, s, ResolveEvent(a, capacity)) == ResolveIn(s, Namespace(p, a), capacity)
  {
    hide ResolveIn, Namespace;
  }

  lemma ConsumeStep(p: Primitives, s: System, a: Authority, token: Option<Bytes>, session: Bytes, target: Target, now: u64)
    requires a.Valid() && target.Family() == a.family && Namespace(p, a) in s.states
    ensures var admitted := Admit(p, a, token, session, target);
      SystemStep(p, s, ConsumeEvent(a, token, session, target, now)) ==
        if admitted.Err? then (s, Err(admitted.error))
        else ReplayIn(s, Namespace(p, a), ReplayRequest(admitted.value, now))
  {
    hide Admit, Namespace, ReplayIn;
  }

  /** Construction: a bad configuration reaches no registry, a good one resolves its replay state. */
  function ConstructStep(p: Primitives, s: System, parsed: Result<Authority, GrantError>, capacity: nat)
    : (System, Result<Unit, GrantError>)
    requires parsed.Ok? ==> parsed.value.Valid()
  {
    match parsed
    case Err(error) => (s, Err(error))
    case Ok(a) => SystemStep(p, s, ResolveEvent(a, capacity))
  }

  function Answer<T>(r: Result<T, GrantError>): Result<Unit, GrantError> {
    match r
    case Ok(_) => Ok(Unit)
    case Err(error) => Err(error)
  }

  /** The entries that are unexpired at the given time. */
  function LiveIn(t: R.Table, now: nat): set<Id16> {
    set id | id in t.consumed && t.consumed[id] > now
  }

  /** The answer to an admitted grant, from its own times, the clock, and what is live. */
  function GrantVerdict(t: R.Table, grant: Grant, now: nat): Result<Unit, GrantError> {
    if t.lastObserved.Some? && t.lastObserved.value > now then Err(ClockRollback)
    else if !(grant.issued < grant.expires <= grant.issued + 120) then Err(LifetimeExceeded)
    else if grant.issued > now + 5 then Err(FutureIssued)
    else if grant.expires <= now then Err(Expired)
    else if grant.grantId in LiveIn(t, now) then Err(Replayed)
    else if |LiveIn(t, now)| >= t.capacity then Err(ReplayCapacityExhausted)
    else Ok(Unit)
  }

  lemma ReplayIsVerdict(t: R.Table, grant: Grant, now: u64)
    ensures MapReplay(R.Step(t, ReplayRequest(grant, now)).1) == GrantVerdict(t, grant, now)
  {
    var live := R.Unexpired(t.consumed, now);
    assert live.Keys == LiveIn(t, now) && |live| == |live.Keys|;
    hide R.Unexpired, LiveIn;
  }

  /** Every answer to a presented token, error by error. */
  lemma ConsumeIsDecided(p: Primitives, s: System, a: Authority, token: Option<Bytes>, session: Bytes, target: Target,
                         now: u64)
    requires a.Valid() && target.Family() == a.family && Namespace(p, a) in s.states
    ensures var admitted := Admit(p, a, token, session, target);
      SystemStep(p, s, ConsumeEvent(a, token, session, target, now)).1 ==
        if admitted.Err? then Err(admitted.error) else GrantVerdict(s.states[Namespace(p, a)], admitted.value, now)
  {
    ConsumeStep(p, s, a, token, session, target, now);
    if Admit(p, a, token, session, target).Ok? {
      ReplayIsVerdict(s.states[Namespace(p, a)], Admit(p, a, token, session, target).value, now);
    }
    hide Admit, Namespace, SystemStep, GrantVerdict, MapReplay, R.Step;
  }

  /**
   * The life of a token: presented by its own authority for its own session and target it is accepted
   * from five seconds before its issue until sixty after it, by a clock that does not run backwards,
   * while its identifier is not live and there is room; and every refusal names the one reason.
   */
  lemma IssuedTokenIsUsable(p: Primitives, s: System, a: Authority, session: Bytes, target: Target, now: u64,
                            grantId: Id16, later: u64)
    requires a.Valid() && target.Family() == a.family && Namespace(p, a) in s.states
    requires Issue(p, a, session, target, now, grantId).Ok?
    ensures var token := Issue(p, a, session, target, now, grantId).value;
      var t := s.states[Namespace(p, a)];
      SystemStep(p, s, ConsumeEvent(a, Some(token), session, target, later)).1 ==
        if t.lastObserved.Some? && t.lastObserved.value > later then Err(ClockRollback)
        else if now > later + 5 then Err(FutureIssued)
        else if later >= now + 60 then Err(Expired)
        else if grantId in LiveIn(t, later) then Err(Replayed)
        else if |LiveIn(t, later)| >= t.capacity then Err(ReplayCapacityExhausted)
        else Ok(Unit)
  {
    var token := Issue(p, a, session, target, now, grantId).value;
    IssuedTokenReads(p, a, session, target, now, grantId);
    var grant := ParseAndVerify(p, LayoutOf(a.family), a.keyId, a.key, token).value;
    AdmissionIff(p, a, Some(token), session, target, grant);
    ConsumeIsDecided(p, s, a, Some(token), session, target, later);
    hide Admit, Namespace, SystemStep, Issue, ParseAndVerify, Authorises, LiveIn;
  }

  predicate AllWellFormed(es: seq<Event>) {
    forall i :: 0 <= i < |es| ==> es[i].WellFormed()
  }

  function Outcomes(p: Primitives, s: System, es: seq<Event>): (outcomes: seq<Result<Unit, GrantError>>)
    requires AllWellFormed(es)
    ensures |outcomes| == |es|
    decreases es
  {
    if es == [] then [] else [SystemStep(p, s, es[0]).1] + Outcomes(p, SystemStep(p, s, es[0]).0, es[1..])
  }

  function SystemAfter(p: Primitives, s: System, es: seq<Event>): System
    requires AllWellFormed(es)
    decreases es
  {
    if es == [] then s else SystemAfter(p, SystemStep(p, s, es[0]).0, es[1..])
  }

  /** The replay request an event makes of one namespace, if it gets that far. */
  function Reaches(p: Primitives, e: Event, namespace: Digest): Option<R.Request>
    requires e.WellFormed()
  {
    if e.ConsumeEvent? && Namespace(p, e.authority) == namespace then
      match Admit(p, e.authority, e.token, e.session, e.target)
      case Ok(grant) => Some(ReplayRequest(grant, e.now))
      case Err(_) => None
    else None
  }

  function Projected(p: Primitives, es: seq<Event>, namespace: Digest): seq<R.Request>
    requires AllWellFormed(es)
    decreases es
  {
    if es == [] then []
    else
      match Reaches(p, es[0], namespace)
      case Some(q) => [q] + Projected(p, es[1..], namespace)
      case None => Projected(p, es[1..], namespace)
  }

  /** The outcomes of exactly the events that reach the namespace. */
  function ProjectedOutcomes(p: Primitives, s: System, es: seq<Event>, namespace: Digest)
    : seq<Result<Unit, GrantError>>
    requires AllWellFormed(es)
    decreases es
  {
    if es == [] then []
    else
      var (next, outcome) := SystemStep(p, s, es[0]);
      var rest := ProjectedOutcomes(p, next, es[1..], namespace);
      if Reaches(p, es[0], namespace).Some? then [outcome] + rest else rest
  }

  function MapAll(outcomes: seq<R.Outcome>): seq<Result<Unit, GrantError>> {
    if outcomes == [] then [] else [MapReplay(outcomes[0])] + MapAll(outcomes[1..])
  }

  /**
   * Namespaces are isolated: in any interleaving, one namespace behaves exactly as a lone table fed
   * with the requests admitted for it. Other namespaces, issuing, resolving, and tokens refused
   * before the replay check have no influence on it at all.
   */
  lemma {:induction false} NamespacesAreIsolated(p: Primitives, s: System, es: seq<Event>, namespace: Digest)
    requires AllWellFormed(es) && namespace in s.states
    ensures namespace in SystemAfter(p, s, es).states
    ensures SystemAfter(p, s, es).states[namespace] == R.After(s.states[namespace], Projected(p, es, namespace))
    ensures ProjectedOutcomes(p, s, es, namespace)
            == MapAll(R.RunTable(s.states[namespace], Projected(p, es, namespace)))
    decreases es
  {
    hide Binds, ParseSession, ParseAndVerify, EncodeAndSign, R.Step, MapReplay;
    if es != [] {
      var next := SystemStep(p, s, es[0]).0;
      NamespacesAreIsolated(p, next, es[1..], namespace);
      if Reaches(p, es[0], namespace).Some? {
        var q := Reaches(p, es[0], namespace).value;
        var rest := Projected(p, es[1..], namespace);
        assert ([q] + rest)[1..] == rest;
        var outcomes := R.RunTable(s.states[namespace], [q] + rest);
        assert outcomes[1..] == R.RunTable(next.states[namespace], rest);
      }
    }
  }

  /** The only ways two authorities could both accept a token: an explicit HMAC coincidence. */
  predicate Coincidence(p: Primitives, token: Bytes, a: Authority, b: Authority, grant: Grant,
                        sessionA: Bytes, targetA: Target, sessionB: Bytes, targetB: Target)
    requires a.Valid() && b.Valid()
  {
    var signed := SignedText(a.keyId, EncodePayload(grant));
    || (a.key != b.key && p.hmac(a.key, signed) == p.hmac(b.key, signed))
    || (&& a.key == b.key && a.principal != b.principal && targetA.Opaque() && targetB.Opaque()
        && ParseSession(p, sessionA).Ok? && ParseSession(p, sessionB).Ok?
        && var m := MacBytes(OperationBinding(grant.grantId, a.principal, ParseSession(p, sessionA).value, targetA));
           var m' := MacBytes(OperationBinding(grant.grantId, b.principal, ParseSession(p, sessionB).value, targetB));
           m != m' && p.hmac(a.key, m) == p.hmac(a.key, m'))
  }

  predicate SpentIn(s: System, namespace: Digest, grant: Grant) {
    namespace in s.states && R.Spent(s.states[namespace], grant.grantId, grant.expires)
  }

  lemma SpentStays(p: Primitives, s: System, e: Event, namespace: Digest, grant: Grant)
    requires e.WellFormed() && SpentIn(s, namespace, grant)
    ensures SpentIn(SystemStep(p, s, e).0, namespace, grant)
  {
    hide Binds, ParseSession, ParseAndVerify, EncodeAndSign, R.Step;
    if Reaches(p, e, namespace).Some? {
      R.SpentStep(s.states[namespace], Reaches(p, e, namespace).value, grant.grantId, grant.expires);
    }
  }

  lemma {:induction false} SpentIsRefused(p: Primitives, s: System, es: seq<Event>, namespace: Digest,
                                          grant: Grant, j: nat)
    requires AllWellFormed(es) && SpentIn(s, namespace, grant)
    requires j < |es| && es[j].ConsumeEvent? && Namespace(p, es[j].authority) == namespace
    requires Admit(p, es[j].authority, es[j].token, es[j].session, es[j].target) == Ok(grant)
    ensures Outcomes(p, s, es)[j].Err?
    decreases es
  {
    hide Binds, ParseSession, ParseAndVerify, EncodeAndSign, R.Step;
    if j == 0 {
      R.SpentStep(s.states[namespace], ReplayRequest(grant, es[0].now), grant.grantId, grant.expires);
    } else {
      SpentStays(p, s, es[0], namespace, grant);
      SpentIsRefused(p, SystemStep(p, s, es[0]).0, es[1..], namespace, grant, j - 1);
    }
  }

  lemma AcceptedMeansAdmitted(p: Primitives, s: System, e: Event)
    requires e.WellFormed() && e.ConsumeEvent? && SystemStep(p, s, e).1.Ok?
    ensures e.token.Some? && Admit(p, e.authority, e.token, e.session, e.target).Ok?
    ensures SpentIn(SystemStep(p, s, e).0, Namespace(p, e.authority),
                    Admit(p, e.authority, e.token, e.session, e.target).value)
  {
    hide Binds, ParseSession, ParseAndVerify, EncodeAndSign, R.Step;
    var grant := Admit(p, e.authority, e.token, e.session, e.target).value;
    R.SpentStep(s.states[Namespace(p, e.authority)], ReplayRequest(grant, e.now), grant.grantId, grant.expires);
  }

  /** Two authorities that admit one token and differ at all exhibit the coincidence. */
  lemma DoubleAdmissionIsCoincidence(p: Primitives, token: Bytes,
                                     a: Authority, sessionA: Bytes, targetA: Target,
                                     b: Authority, sessionB: Bytes, targetB: Target)
    requires a.Valid() && targetA.Family() == a.family && Admit(p, a, Some(token), sessionA, targetA).Ok?
    requires b.Valid() && targetB.Family() == b.family && Admit(p, b, Some(token), sessionB, targetB).Ok?
    requires a != b
    ensures Coincidence(p, token, a, b, Admit(p, a, Some(token), sessionA, targetA).value,
                        sessionA, targetA, sessionB, targetB)
  {
    NoTokenServesTwoFamilies(p, token, a, sessionA, targetA, b, sessionB, targetB);
    var grant := Admit(p, a, Some(token), sessionA, targetA).value;
    AdmittedTokenIsEncoding(p, a, token, sessionA, targetA);
    AdmittedTokenIsEncoding(p, b, token, sessionB, targetB);
    if a.key != b.key {
      TokenShape(p, a.keyId, a.key, grant);
      TokenShape(p, b.keyId, b.key, grant);
      var signed := SignedText(a.keyId, EncodePayload(grant));
      assert TokenSegments(p, a.keyId, a.key, grant)[3] == TokenSegments(p, b.keyId, b.key, grant)[3];
      Hex.EncodeThenDecode(p.hmac(a.key, signed));
      Hex.EncodeThenDecode(p.hmac(b.key, signed));
    } else {
      assert a.principal != b.principal;
      var m := OperationBinding(grant.grantId, a.principal, ParseSession(p, sessionA).value, targetA);
      var m' := OperationBinding(grant.grantId, b.principal, ParseSession(p, sessionB).value, targetB);
      if MacBytes(m) == MacBytes(m') {
        MacInputsAreDisjoint(m, m');
      }
    }
  }

  /**
   * End to end: over any number of authorities resolved from one registry and any interleaving of
   * their steps, a token is accepted at most once in the whole run, whatever session, target and
   * clock it is presented with later, save for an explicit HMAC coincidence between two different
   * authorities.
   */
  lemma {:induction false} TokenAcceptedAtMostOnce(p: Primitives, s: System, es: seq<Event>, i: nat, j: nat, token: Bytes)
    requires AllWellFormed(es) && i < j < |es|
    requires es[i].ConsumeEvent? && es[i].token == Some(token) && Outcomes(p, s, es)[i].Ok?
    requires es[j].ConsumeEvent? && es[j].token == Some(token) && Outcomes(p, s, es)[j].Ok?
    ensures var a, b := es[i].authority, es[j].authority;
      && a != b
      && Admit(p, a, Some(token), es[i].session, es[i].target).Ok?
      && Coincidence(p, token, a, b, Admit(p, a, Some(token), es[i].session, es[i].target).value,
                     es[i].session, es[i].target, es[j].session, es[j].target)
    decreases es
  {
    hide Binds, ParseSession, ParseAndVerify, EncodeAndSign, Coincidence, Namespace, Issue, ReplayIn, ResolveIn;
    var next := SystemStep(p, s, es[0]).0;
    if i > 0 {
      TokenAcceptedAtMostOnce(p, next, es[1..], i - 1, j - 1, token);
    } else {
      var a, b := es[0].authority, es[j].authority;
      AcceptedMeansAdmitted(p, s, es[0]);
      AdmittedLater(p, next, es[1..], j - 1);
      NoTokenServesTwoFamilies(p, token, a, es[0].session, es[0].target, b, es[j].session, es[j].target);
      var grant := Admit(p, a, Some(token), es[0].session, es[0].target).value;
      if Namespace(p, a) == Namespace(p, b) {
        SpentIsRefused(p, next, es[1..], Namespace(p, a), grant, j - 1);
      } else {
        DoubleAdmissionIsCoincidence(p, token, a, es[0].session, es[0].target, b, es[j].session, es[j].target);
      }
    }
  }

  lemma {:induction false} AdmittedLater(p: Primitives, s: System, es: seq<Event>, j: nat)
    requires AllWellFormed(es) && j < |es| && es[j].ConsumeEvent? && Outcomes(p, s, es)[j].Ok?
    ensures Admit(p, es[j].authority, es[j].token, es[j].session, es[j].target).Ok?
    decreases es
  {
    if j == 0 {
      AcceptedMeansAdmitted(p, s, es[0]);
    } else {
      AdmittedLater(p, SystemStep(p, s, es[0]).0, es[1..], j - 1);
    }
  }

  /** In particular one authority, however often it is reconstructed, accepts a token once. */
  lemma OneAuthorityAcceptsOnce(p: Primitives, s: System, es: seq<Event>, i: nat, j: nat, token: Bytes)
    requires AllWellFormed(es) && i < j < |es|
    requires es[i].ConsumeEvent? && es[i].token == Some(token) && Outcomes(p, s, es)[i].Ok?
    requires es[j].ConsumeEvent? && es[j].token == Some(token) && es[i].authority == es[j].authority
    ensures Outcomes(p, s, es)[j].Err?
  {
    if Outcomes(p, s, es)[j].Ok? {
      TokenAcceptedAtMostOnce(p, s, es, i, j, token);
    }
  }
}
