/**
 * The wire form of a request grant: a fixed-layout payload, lowercase hexadecimal, and the
 * dotted token `v1.<key id>.<payload>.<signature>` of each of the five grant families.
 */
module GrantCodec {
  import opened Common
  import BigEndian
  import Hex
  import opened Segments
  import VolumeControl

  datatype Family = CreateDirectory | WriteFile | AndroidVolume | CopyFile | TrashFile

  function WireCode(family: Family): byte {
    match family
    case CreateDirectory => 1
    case WriteFile => 2
    case AndroidVolume => 3
    case CopyFile => 4
    case TrashFile => 5
  }

  datatype GrantError =
    | ConfigurationInvalid
    | TargetInvalid
    | SessionInvalid
    | Missing
    | Malformed
    | UnknownVersion
    | UnknownKey
    | SignatureInvalid
    | Expired
    | FutureIssued
    | LifetimeExceeded
    | BindingMismatch
    | Replayed
    | ClockRollback
    | ReplayCapacityExhausted
    | StateUnavailable

  const DOT: byte := '.' as int
  const VERSION: Bytes := ['v' as int, '1' as int]
  const MAX_HEADER_BYTES := 384
  const MAX_KEY_ID_BYTES := 32
  const MAC_BYTES := 32
  const GRANT_ID_BYTES := 16
  const DIGEST_BYTES := 32
  const SESSION_BYTES := 16

  /** The three payload layouts; the file-mutation families share the opaque one. */
  datatype Layout = Opaque | Directory | Volume

  function LayoutOf(family: Family): Layout {
    match family
    case CreateDirectory => Directory
    case AndroidVolume => Volume
    case _ => Opaque
  }

  /** Offsets at which the fields of a layout begin, and the payload's end. */
  function Cuts(layout: Layout): seq<nat> {
    match layout
    case Opaque => [0, 16, 17, 49, 57, 65]
    case Directory => [0, 16, 48, 64, 65, 73, 81, 113, 114, 122, 130]
    case Volume => [0, 16, 48, 64, 65, 66, 74, 75, 83, 91]
  }

  function PayloadBytes(layout: Layout): nat {
    match layout
    case Opaque => 65
    case Directory => 130
    case Volume => 91
  }

  /** `ParsedGrant`, one constructor a layout. */
  datatype Grant =
    | OpaqueGrant(grantId: Id16, capability: byte, binding: Digest, issued: u64, expires: u64)
    | DirectoryGrant(grantId: Id16, principal: Digest, session: Id16, capability: byte,
                     rootDevice: u64, rootInode: u64, targetDigest: Digest, posture: byte,
                     issued: u64, expires: u64)
    | VolumeGrant(grantId: Id16, principal: Digest, session: Id16, capability: byte,
                  stream: byte, level: u64, posture: byte, issued: u64, expires: u64)
  {
    function Shape(): Layout {
      match this
      case OpaqueGrant(_, _, _, _, _) => Opaque
      case DirectoryGrant(_, _, _, _, _, _, _, _, _, _) => Directory
      case VolumeGrant(_, _, _, _, _, _, _, _, _) => Volume
    }

    /** A decoder refuses unknown volume streams; every other field value is representable. */
    predicate Decodable() {
      VolumeGrant? ==> VolumeControl.FromGrantCode(stream).Some?
    }
  }

  function Fields(grant: Grant): seq<Bytes> {
    match grant
    case OpaqueGrant(grantId, capability, binding, issued, expires) =>
      [grantId, [capability], binding, BigEndian.U64(issued), BigEndian.U64(expires)]
    case DirectoryGrant(grantId, principal, session, capability, device, inode, target, posture, issued, expires) =>
      [grantId, principal, session, [capability], BigEndian.U64(device), BigEndian.U64(inode), target,
       [posture], BigEndian.U64(issued), BigEndian.U64(expires)]
    case VolumeGrant(grantId, principal, session, capability, stream, level, posture, issued, expires) =>
      [grantId, principal, session, [capability], [stream], BigEndian.U64(level), [posture],
       BigEndian.U64(issued), BigEndian.U64(expires)]
  }

  function EncodePayload(grant: Grant): Bytes {
    Concat(Fields(grant))
  }

  /** `take_array`: the next `count` bytes and the moved offset, or nothing past the end. */
  function Take(input: Bytes, offset: nat, count: nat): Option<(Bytes, nat)> {
    if offset + count <= |input| then Some((input[offset..offset + count], offset + count)) else None
  }

  function DecodePayload(layout: Layout, payload: Bytes): (grant: Option<Grant>)
    requires |payload| == PayloadBytes(layout)
    ensures grant.Some? ==> grant.value.Shape() == layout && grant.value.Decodable()
  {
    match layout
    case Opaque => DecodeOpaque(payload)
    case Directory => DecodeDirectory(payload)
    case Volume => DecodeVolume(payload)
  }

  function DecodeOpaque(payload: Bytes): Option<Grant>
    requires |payload| == 65
  {
    var (grantId, o1) :- Take(payload, 0, GRANT_ID_BYTES);
    var (capability, o2) :- Take(payload, o1, 1);
    var (binding, o3) :- Take(payload, o2, DIGEST_BYTES);
    var (issued, o4) :- Take(payload, o3, 8);
    var (expires, o5) :- Take(payload, o4, 8);
    if o5 == |payload| then
      Some(OpaqueGrant(grantId, capability[0], binding, BigEndian.ReadU64(issued), BigEndian.ReadU64(expires)))
    else None
  }

  function DecodeDirectory(payload: Bytes): Option<Grant>
    requires |payload| == 130
  {
    var (grantId, o1) :- Take(payload, 0, GRANT_ID_BYTES);
    var (principal, o2) :- Take(payload, o1, DIGEST_BYTES);
    var (session, o3) :- Take(payload, o2, SESSION_BYTES);
    var (capability, o4) :- Take(payload, o3, 1);
    var (device, o5) :- Take(payload, o4, 8);
    var (inode, o6) :- Take(payload, o5, 8);
    var (target, o7) :- Take(payload, o6, DIGEST_BYTES);
    var (posture, o8) :- Take(payload, o7, 1);
    var (issued, o9) :- Take(payload, o8, 8);
    var (expires, o10) :- Take(payload, o9, 8);
    if o10 == |payload| then
      Some(DirectoryGrant(grantId, principal, session, capability[0], BigEndian.ReadU64(device),
                          BigEndian.ReadU64(inode), target, posture[0], BigEndian.ReadU64(issued),
                          BigEndian.ReadU64(expires)))
    else None
  }

  function DecodeVolume(payload: Bytes): Option<Grant>
    requires |payload| == 91
  {
    var (grantId, o1) :- Take(payload, 0, GRANT_ID_BYTES);
    var (principal, o2) :- Take(payload, o1, DIGEST_BYTES);
    var (session, o3) :- Take(payload, o2, SESSION_BYTES);
    var (capability, o4) :- Take(payload, o3, 1);
    var (stream, o5) :- Take(payload, o4, 1);
    if VolumeControl.FromGrantCode(stream[0]).None? then None
    else
      var (level, o6) :- Take(payload, o5, 8);
      var (posture, o7) :- Take(payload, o6, 1);
      var (issued, o8) :- Take(payload, o7, 8);
      var (expires, o9) :- Take(payload, o8, 8);
      if o9 == |payload| then
        Some(VolumeGrant(grantId, principal, session, capability[0], stream[0], BigEndian.ReadU64(level),
                         posture[0], BigEndian.ReadU64(issued), BigEndian.ReadU64(expires)))
      else None
  }

  lemma PayloadWidth(grant: Grant)
    ensures |Fields(grant)| + 1 == |Cuts(grant.Shape())|
    ensures forall i :: 0 <= i < |Fields(grant)| ==>
      Spans(Fields(grant)[i], Cuts(grant.Shape())[i], Cuts(grant.Shape())[i + 1])
    ensures |EncodePayload(grant)| == PayloadBytes(grant.Shape())
  {
    ConcatSpan(Fields(grant), Cuts(grant.Shape()));
  }

  lemma FieldsDetermineGrant(a: Grant, b: Grant)
    requires a.Shape() == b.Shape() && Fields(a) == Fields(b)
    ensures a == b
  {
    BigEndian.U64RoundTrip(a.issued, []);
    BigEndian.U64RoundTrip(b.issued, []);
    BigEndian.U64RoundTrip(a.expires, []);
    BigEndian.U64RoundTrip(b.expires, []);
    var n := |Fields(a)|;
    assert Fields(a)[n - 1] == Fields(b)[n - 1] && Fields(a)[n - 2] == Fields(b)[n - 2];
    match a {
      case OpaqueGrant(_, _, _, _, _) =>
        assert Fields(a)[0] == Fields(b)[0] && Fields(a)[1] == Fields(b)[1] && Fields(a)[2] == Fields(b)[2];
      case DirectoryGrant(_, _, _, _, _, _, _, _, _, _) =>
        BigEndian.U64RoundTrip(a.rootDevice, []);
        BigEndian.U64RoundTrip(b.rootDevice, []);
        BigEndian.U64RoundTrip(a.rootInode, []);
        BigEndian.U64RoundTrip(b.rootInode, []);
        assert forall i :: 0 <= i < 10 ==> Fields(a)[i] == Fields(b)[i];
        assert Fields(a)[3] == Fields(b)[3] && Fields(a)[4] == Fields(b)[4];
        assert Fields(a)[5] == Fields(b)[5] && Fields(a)[7] == Fields(b)[7];
      case VolumeGrant(_, _, _, _, _, _, _, _, _) =>
        BigEndian.U64RoundTrip(a.level, []);
        BigEndian.U64RoundTrip(b.level, []);
        assert forall i :: 0 <= i < 9 ==> Fields(a)[i] == Fields(b)[i];
        assert Fields(a)[3] == Fields(b)[3] && Fields(a)[4] == Fields(b)[4];
        assert Fields(a)[5] == Fields(b)[5] && Fields(a)[6] == Fields(b)[6];
    }
  }

  lemma EncodePayloadInjective(a: Grant, b: Grant)
    requires a.Shape() == b.Shape() && EncodePayload(a) == EncodePayload(b)
    ensures a == b
  {
    PayloadWidth(a);
    PayloadWidth(b);
    hide Fields, Cuts, Concat, PayloadBytes;
    forall i | 0 <= i < |Fields(a)| ensures |Fields(a)[i]| == |Fields(b)[i]| {
      assert Spans(Fields(a)[i], Cuts(a.Shape())[i], Cuts(a.Shape())[i + 1]);
      assert Spans(Fields(b)[i], Cuts(a.Shape())[i], Cuts(a.Shape())[i + 1]);
    }
    ConcatInjective(Fields(a), Fields(b));
    FieldsDetermineGrant(a, b);
  }

  function Cut(layout: Layout, payload: Bytes): (fields: seq<Bytes>)
    requires |payload| == PayloadBytes(layout)
  {
    var cuts := Cuts(layout);
    CutsAscend(layout);
    seq(|cuts| - 1, i requires 0 <= i < |cuts| - 1 => payload[cuts[i]..cuts[i + 1]])
  }

  lemma CutsAscend(layout: Layout)
    ensures |Cuts(layout)| > 1 && Cuts(layout)[0] == 0 && Cuts(layout)[|Cuts(layout)| - 1] == PayloadBytes(layout)
    ensures forall i, j :: 0 <= i < j < |Cuts(layout)| ==> Cuts(layout)[i] <= Cuts(layout)[j] <= PayloadBytes(layout)
  {
  }

  lemma CutCovers(layout: Layout, payload: Bytes)
    requires |payload| == PayloadBytes(layout)
    ensures Concat(Cut(layout, payload)) == payload
    ensures |Cut(layout, payload)| + 1 == |Cuts(layout)|
    ensures forall i :: 0 <= i < |Cut(layout, payload)| ==>
      Spans(Cut(layout, payload)[i], Cuts(layout)[i], Cuts(layout)[i + 1])
  {
    CutsAscend(layout);
    AdjacentSlices(payload, Cut(layout, payload), Cuts(layout));
  }

  lemma DecodeThenEncode(layout: Layout, payload: Bytes)
    requires |payload| == PayloadBytes(layout) && DecodePayload(layout, payload).Some?
    ensures EncodePayload(DecodePayload(layout, payload).value) == payload
  {
    CutCovers(layout, payload);
    match layout {
      case Opaque => OpaqueFields(payload);
      case Directory => DirectoryFields(payload);
      case Volume => VolumeFields(payload);
    }
  }

  lemma OpaqueFields(payload: Bytes)
    requires |payload| == 65
    ensures Fields(DecodeOpaque(payload).value) == Cut(Opaque, payload)
  {
    BigEndian.U64RoundTrip(0, payload[49..57]);
    BigEndian.U64RoundTrip(0, payload[57..65]);
    assert [payload[16..17][0]] == payload[16..17];
  }

  lemma DirectoryDecoded(payload: Bytes)
    requires |payload| == 130
    ensures DecodeDirectory(payload) == Some(DirectoryGrant(
      payload[0..16], payload[16..48], payload[48..64], payload[64], BigEndian.ReadU64(payload[65..73]),
      BigEndian.ReadU64(payload[73..81]), payload[81..113], payload[113],
      BigEndian.ReadU64(payload[114..122]), BigEndian.ReadU64(payload[122..130])))
  {
    hide BigEndian.ReadU64;
  }

  lemma DirectoryCut(payload: Bytes)
    requires |payload| == 130
    ensures Cut(Directory, payload) ==
      [payload[0..16], payload[16..48], payload[48..64], [payload[64]], payload[65..73], payload[73..81],
       payload[81..113], [payload[113]], payload[114..122], payload[122..130]]
  {
    assert payload[64..65] == [payload[64]] && payload[113..114] == [payload[113]];
  }

  lemma DirectoryFields(payload: Bytes)
    requires |payload| == 130
    ensures Fields(DecodeDirectory(payload).value) == Cut(Directory, payload)
  {
    BigEndian.U64RoundTrip(0, payload[65..73]);
    BigEndian.U64RoundTrip(0, payload[73..81]);
    BigEndian.U64RoundTrip(0, payload[114..122]);
    BigEndian.U64RoundTrip(0, payload[122..130]);
    DirectoryDecoded(payload);
    DirectoryCut(payload);
    hide DecodeDirectory, Cut, BigEndian.U64, BigEndian.ReadU64;
  }

  lemma VolumeDecoded(payload: Bytes)
    requires |payload| == 91 && DecodeVolume(payload).Some?
    ensures DecodeVolume(payload) == Some(VolumeGrant(
      payload[0..16], payload[16..48], payload[48..64], payload[64], payload[65], BigEndian.ReadU64(payload[66..74]),
      payload[74], BigEndian.ReadU64(payload[75..83]), BigEndian.ReadU64(payload[83..91])))
  {
    hide BigEndian.ReadU64, VolumeControl.FromGrantCode;
  }

  lemma VolumeCut(payload: Bytes)
    requires |payload| == 91
    ensures Cut(Volume, payload) ==
      [payload[0..16], payload[16..48], payload[48..64], [payload[64]], [payload[65]], payload[66..74],
       [payload[74]], payload[75..83], payload[83..91]]
  {
    assert payload[64..65] == [payload[64]] && payload[65..66] == [payload[65]] && payload[74..75] == [payload[74]];
  }

  lemma VolumeFields(payload: Bytes)
    requires |payload| == 91 && DecodeVolume(payload).Some?
    ensures Fields(DecodeVolume(payload).value) == Cut(Volume, payload)
  {
    BigEndian.U64RoundTrip(0, payload[66..74]);
    BigEndian.U64RoundTrip(0, payload[75..83]);
    BigEndian.U64RoundTrip(0, payload[83..91]);
    VolumeDecoded(payload);
    VolumeCut(payload);
    hide DecodeVolume, Cut, BigEndian.U64, BigEndian.ReadU64;
  }

  lemma OpaqueCut(payload: Bytes)
    requires |payload| == 65
    ensures Cut(Opaque, payload) ==
      [payload[0..16], [payload[16]], payload[17..49], payload[49..57], payload[57..65]]
  {
    assert payload[16..17] == [payload[16]];
  }

  lemma FieldsAreCuts(grant: Grant)
    ensures |EncodePayload(grant)| == PayloadBytes(grant.Shape())
    ensures Fields(grant) == Cut(grant.Shape(), EncodePayload(grant))
  {
    PayloadWidth(grant);
    CutCovers(grant.Shape(), EncodePayload(grant));
    hide Fields, Cut, Cuts, Concat;
    var a, b := Fields(grant), Cut(grant.Shape(), EncodePayload(grant));
    forall i | 0 <= i < |a| ensures |a[i]| == |b[i]| {
      assert Spans(a[i], Cuts(grant.Shape())[i], Cuts(grant.Shape())[i + 1]);
      assert Spans(b[i], Cuts(grant.Shape())[i], Cuts(grant.Shape())[i + 1]);
    }
    ConcatInjective(a, b);
  }

  /** The bytes of a payload, offset by offset. */
  predicate LaidOutAs(grant: Grant, payload: Bytes)
    requires |payload| == PayloadBytes(grant.Shape())
  {
    match grant
    case OpaqueGrant(grantId, capability, binding, issued, expires) =>
      && payload[0..16] == grantId && payload[16] == capability && payload[17..49] == binding
      && payload[49..57] == BigEndian.U64(issued) && payload[57..65] == BigEndian.U64(expires)
    case DirectoryGrant(grantId, principal, session, capability, device, inode, target, posture, issued, expires) =>
      && payload[0..16] == grantId && payload[16..48] == principal && payload[48..64] == session
      && payload[64] == capability && payload[65..73] == BigEndian.U64(device)
      && payload[73..81] == BigEndian.U64(inode) && payload[81..113] == target && payload[113] == posture
      && payload[114..122] == BigEndian.U64(issued) && payload[122..130] == BigEndian.U64(expires)
    case VolumeGrant(grantId, principal, session, capability, stream, level, posture, issued, expires) =>
      && payload[0..16] == grantId && payload[16..48] == principal && payload[48..64] == session
      && payload[64] == capability && payload[65] == stream && payload[66..74] == BigEndian.U64(level)
      && payload[74] == posture && payload[75..83] == BigEndian.U64(issued) && payload[83..91] == BigEndian.U64(expires)
  }

  /** Every field of every layout is at its documented offset, integers most significant byte first. */
  lemma PayloadLayout(grant: Grant)
    ensures |EncodePayload(grant)| == PayloadBytes(grant.Shape()) && LaidOutAs(grant, EncodePayload(grant))
  {
    FieldsAreCuts(grant);
    var payload := EncodePayload(grant);
    match grant {
      case OpaqueGrant(_, _, _, _, _) => OpaqueCut(payload); OpaqueLayout(grant, payload);
      case DirectoryGrant(_, _, _, _, _, _, _, _, _, _) => DirectoryCut(payload); DirectoryLayout(grant, payload);
      case VolumeGrant(_, _, _, _, _, _, _, _, _) => VolumeCut(payload); VolumeLayout(grant, payload);
    }
  }

  lemma OpaqueLayout(grant: Grant, payload: Bytes)
    requires grant.OpaqueGrant? && |payload| == 65
    requires Fields(grant) == [payload[0..16], [payload[16]], payload[17..49], payload[49..57], payload[57..65]]
    ensures LaidOutAs(grant, payload)
  {
    var f := Fields(grant);
    assert f[0] == payload[0..16] && f[1][0] == payload[16] && f[2] == payload[17..49] && f[3] == payload[49..57];
    assert f[4] == payload[57..65];
  }

  lemma DirectoryLayout(grant: Grant, payload: Bytes)
    requires grant.DirectoryGrant? && |payload| == 130
    requires Fields(grant) ==
      [payload[0..16], payload[16..48], payload[48..64], [payload[64]], payload[65..73], payload[73..81],
       payload[81..113], [payload[113]], payload[114..122], payload[122..130]]
    ensures LaidOutAs(grant, payload)
  {
    var f := Fields(grant);
    assert f[0] == payload[0..16] && f[1] == payload[16..48] && f[2] == payload[48..64] && f[3][0] == payload[64];
    assert f[4] == payload[65..73] && f[5] == payload[73..81] && f[6] == payload[81..113] && f[7][0] == payload[113];
    assert f[8] == payload[114..122] && f[9] == payload[122..130];
  }

  lemma VolumeLayout(grant: Grant, payload: Bytes)
    requires grant.VolumeGrant? && |payload| == 91
    requires Fields(grant) ==
      [payload[0..16], payload[16..48], payload[48..64], [payload[64]], [payload[65]], payload[66..74],
       [payload[74]], payload[75..83], payload[83..91]]
    ensures LaidOutAs(grant, payload)
  {
    var f := Fields(grant);
    assert f[0] == payload[0..16] && f[1] == payload[16..48] && f[2] == payload[48..64] && f[3][0] == payload[64];
    assert f[4][0] == payload[65] && f[5] == payload[66..74] && f[6][0] == payload[74];
    assert f[7] == payload[75..83] && f[8] == payload[83..91];
  }

  /** The payload codec is a bijection between decodable grants and the payloads it accepts. */
  lemma PayloadDecodeIsExact(layout: Layout, payload: Bytes, grant: Grant)
    requires |payload| == PayloadBytes(layout)
    ensures DecodePayload(layout, payload) == Some(grant) <==>
            grant.Shape() == layout && grant.Decodable() && payload == EncodePayload(grant)
  {
    if DecodePayload(layout, payload).Some? {
      DecodeThenEncode(layout, payload);
      if grant.Shape() == layout && payload == EncodePayload(grant) {
        EncodePayloadInjective(grant, DecodePayload(layout, payload).value);
      }
    } else if grant.Shape() == layout && payload == EncodePayload(grant) {
      RefusedPayload(payload, grant);
    }
  }

  lemma RefusedPayload(payload: Bytes, grant: Grant)
    requires |payload| == PayloadBytes(grant.Shape()) && payload == EncodePayload(grant)
    requires DecodePayload(grant.Shape(), payload).None?
    ensures !grant.Decodable()
  {
    CutCovers(grant.Shape(), payload);
    PayloadWidth(grant);
    ConcatInjective(Fields(grant), Cut(grant.Shape(), payload));
    assert Fields(grant)[4] == Cut(grant.Shape(), payload)[4];
  }

  /** The bytes are the first `k` fields. */
  predicate LaidOut(bytes: Bytes, fields: seq<Bytes>, k: nat) {
    k <= |fields| && bytes == Concat(fields[..k])
  }

  lemma LaidOutEnds(fields: seq<Bytes>, bytes: Bytes)
    ensures LaidOut([], fields, 0)
    ensures LaidOut(bytes, fields, |fields|) ==> bytes == Concat(fields)
  {
    assert fields[..|fields|] == fields;
  }

  predicate SameFrom(before: Bytes, now: Bytes, start: nat) {
    start <= |before| == |now| && before[start..] == now[start..]
  }

  /** `put`: copies one field at the offset and returns the offset after it. */
  method Put(output: array<byte>, offset: nat, value: Bytes, ghost fields: seq<Bytes>, ghost k: nat)
    returns (end: nat)
    requires offset + |value| <= output.Length
    requires k < |fields| && value == fields[k]
    requires LaidOut(output[..offset], fields, k)
    modifies output
    ensures end == offset + |value|
    ensures LaidOut(output[..end], fields, k + 1)
    ensures SameFrom(old(output[..]), output[..], end)
  {
    end := offset + |value|;
    ghost var before := output[..];
    forall i | 0 <= i < |value| {
      output[offset + i] := value[i];
    }
    assert output[..end] == before[..offset] + value;
    ConcatAppend(fields[..k], value);
    assert fields[..k] + [value] == fields[..k + 1];
  }

  lemma StartLayout(grant: Grant, payload: array<byte>)
    ensures LaidOut(payload[..0], Fields(grant), 0)
    ensures forall n: u64 :: |BigEndian.U64(n)| == 8
    ensures match grant
      case OpaqueGrant(grantId, capability, binding, issued, expires) =>
        && |Fields(grant)| == 5
        && Fields(grant)[0] == grantId && Fields(grant)[1] == [capability] && Fields(grant)[2] == binding
        && Fields(grant)[3] == BigEndian.U64(issued) && Fields(grant)[4] == BigEndian.U64(expires)
      case DirectoryGrant(grantId, principal, session, capability, device, inode, target, posture, issued, expires) =>
        && |Fields(grant)| == 10
        && Fields(grant)[0] == grantId && Fields(grant)[1] == principal && Fields(grant)[2] == session
        && Fields(grant)[3] == [capability] && Fields(grant)[4] == BigEndian.U64(device)
        && Fields(grant)[5] == BigEndian.U64(inode) && Fields(grant)[6] == target && Fields(grant)[7] == [posture]
        && Fields(grant)[8] == BigEndian.U64(issued) && Fields(grant)[9] == BigEndian.U64(expires)
      case VolumeGrant(grantId, principal, session, capability, stream, level, posture, issued, expires) =>
        && |Fields(grant)| == 9
        && Fields(grant)[0] == grantId && Fields(grant)[1] == principal && Fields(grant)[2] == session
        && Fields(grant)[3] == [capability] && Fields(grant)[4] == [stream]
        && Fields(grant)[5] == BigEndian.U64(level) && Fields(grant)[6] == [posture]
        && Fields(grant)[7] == BigEndian.U64(issued) && Fields(grant)[8] == BigEndian.U64(expires)
  {
    LaidOutEnds(Fields(grant), []);
    assert payload[..0] == [];
  }

  lemma EndLayout(grant: Grant, payload: array<byte>, offset: nat)
    requires offset == payload.Length && LaidOut(payload[..offset], Fields(grant), |Fields(grant)|)
    ensures payload[..] == EncodePayload(grant)
  {
    LaidOutEnds(Fields(grant), payload[..]);
    assert payload[..offset] == payload[..];
  }

  /** `encode_payload` of the opaque families, field by field into a fixed buffer. */
  method EncodeOpaqueInPlace(grant: Grant) returns (payload: array<byte>)
    requires grant.OpaqueGrant?
    ensures fresh(payload) && payload[..] == EncodePayload(grant)
  {
    payload := new byte[65](_ => 0);
    ghost var f := Fields(grant);
    StartLayout(grant, payload);
    hide LaidOut, SameFrom, Concat, Fields, BigEndian.U64;
    var offset := Put(payload, 0, grant.grantId, f, 0);
    offset := Put(payload, offset, [grant.capability], f, 1);
    offset := Put(payload, offset, grant.binding, f, 2);
    offset := Put(payload, offset, BigEndian.U64(grant.issued), f, 3);
    offset := Put(payload, offset, BigEndian.U64(grant.expires), f, 4);
    EndLayout(grant, payload, offset);
  }

  /** The fields that open a structurally bound payload. */
  method PutHolder(output: array<byte>, grantId: Id16, principal: Digest, session: Id16, capability: byte,
                   ghost f: seq<Bytes>)
    returns (end: nat)
    requires output.Length >= 65 && LaidOut(output[..0], f, 0)
    requires |f| > 3 && f[0] == grantId && f[1] == principal && f[2] == session && f[3] == [capability]
    modifies output
    ensures end == 65 && LaidOut(output[..end], f, 4)
  {
    hide LaidOut, SameFrom;
    end := Put(output, 0, grantId, f, 0);
    end := Put(output, end, principal, f, 1);
    end := Put(output, end, session, f, 2);
    end := Put(output, end, [capability], f, 3);
  }

  /** The fields that close it. */
  method PutValidity(output: array<byte>, offset: nat, posture: byte, issued: u64, expires: u64,
                     ghost f: seq<Bytes>, ghost k: nat)
    returns (end: nat)
    requires offset + 17 <= output.Length && LaidOut(output[..offset], f, k)
    requires |f| == k + 3
    requires f[k] == [posture] && f[k + 1] == BigEndian.U64(issued) && f[k + 2] == BigEndian.U64(expires)
    modifies output
    ensures end == offset + 17 && LaidOut(output[..end], f, |f|)
  {
    hide LaidOut, SameFrom;
    end := Put(output, offset, [posture], f, k);
    end := Put(output, end, BigEndian.U64(issued), f, k + 1);
    end := Put(output, end, BigEndian.U64(expires), f, k + 2);
  }

  /** `encode_payload` of the create-directory family. */
  method EncodeDirectoryInPlace(grant: Grant) returns (payload: array<byte>)
    requires grant.DirectoryGrant?
    ensures fresh(payload) && payload[..] == EncodePayload(grant)
  {
    payload := new byte[130](_ => 0);
    ghost var f := Fields(grant);
    StartLayout(grant, payload);
    hide LaidOut, SameFrom, Concat, Fields, BigEndian.U64;
    var offset := PutHolder(payload, grant.grantId, grant.principal, grant.session, grant.capability, f);
    offset := Put(payload, offset, BigEndian.U64(grant.rootDevice), f, 4);
    offset := Put(payload, offset, BigEndian.U64(grant.rootInode), f, 5);
    offset := Put(payload, offset, grant.targetDigest, f, 6);
    offset := PutValidity(payload, offset, grant.posture, grant.issued, grant.expires, f, 7);
    EndLayout(grant, payload, offset);
  }

  /** `encode_payload` of the Android-volume family. */
  method EncodeVolumeInPlace(grant: Grant) returns (payload: array<byte>)
    requires grant.VolumeGrant?
    ensures fresh(payload) && payload[..] == EncodePayload(grant)
  {
    payload := new byte[91](_ => 0);
    ghost var f := Fields(grant);
    StartLayout(grant, payload);
    hide LaidOut, SameFrom, Concat, Fields, BigEndian.U64;
    var offset := PutHolder(payload, grant.grantId, grant.principal, grant.session, grant.capability, f);
    offset := Put(payload, offset, [grant.stream], f, 4);
    offset := Put(payload, offset, BigEndian.U64(grant.level), f, 5);
    offset := PutValidity(payload, offset, grant.posture, grant.issued, grant.expires, f, 6);
    EndLayout(grant, payload, offset);
  }

  /** `valid_key_id`: one to 32 lowercase letters, digits, dashes or underscores. */
  predicate ValidKeyId(keyId: Bytes) {
    1 <= |keyId| <= MAX_KEY_ID_BYTES && forall i :: 0 <= i < |keyId| ==> KeyIdByte(keyId[i])
  }

  predicate KeyIdByte(b: byte) {
    'a' as int <= b <= 'z' as int || '0' as int <= b <= '9' as int || b == '-' as int || b == '_' as int
  }

  lemma KeyIdAlphabet(keyId: Bytes)
    ensures ValidKeyId(keyId) <==>
      && 1 <= |keyId| <= 32
      && forall i :: 0 <= i < |keyId| ==> keyId[i] == 45 || 48 <= keyId[i] <= 57 || keyId[i] == 95 || 97 <= keyId[i] <= 122
  {
  }

  function SignedText(keyId: Bytes, payload: Bytes): Bytes {
    VERSION + [DOT] + keyId + [DOT] + Hex.Encode(payload)
  }

  /** `encode_and_sign`. */
  function EncodeAndSign(p: Primitives, keyId: Bytes, key: Bytes, grant: Grant): Bytes {
    var signed := SignedText(keyId, EncodePayload(grant));
    signed + [DOT] + Hex.Encode(p.hmac(key, signed))
  }

  /** `parse_and_verify`, with every refusal in the order the source tests for it. */
  function ParseAndVerify(p: Primitives, layout: Layout, keyId: Bytes, key: Bytes, token: Bytes)
    : (parsed: Result<Grant, GrantError>)
    ensures parsed.Ok? ==> parsed.value.Shape() == layout
  {
    var payloadBytes := PayloadBytes(layout);
    if token == [] || |token| > MAX_HEADER_BYTES || !IsAscii(token) then Err(Malformed)
    else
      var segments := Split(token, DOT);
      if |segments| != 4 then Err(Malformed)
      else if segments[0] != VERSION then Err(UnknownVersion)
      else if segments[1] != keyId then Err(UnknownKey)
      else if |segments[2]| != 2 * payloadBytes || |segments[3]| != 2 * MAC_BYTES then Err(Malformed)
      else
        var payload := Hex.DecodeArray(segments[2], payloadBytes);
        var signature := Hex.DecodeArray(segments[3], MAC_BYTES);
        var signedLength := |segments[0]| + 1 + |segments[1]| + 1 + |segments[2]|;
        if payload.None? || signature.None? || signedLength > |token| then Err(Malformed)
        else if signature.value != p.hmac(key, token[..signedLength]) then Err(SignatureInvalid)
        else
          match DecodePayload(layout, payload.value)
          case Some(grant) => Ok(grant)
          case None => Err(Malformed)
  }

  lemma HexTextIsPlain(bytes: Bytes)
    ensures IsAscii(Hex.Encode(bytes)) && DOT !in Hex.Encode(bytes)
  {
    Hex.EncodeThenDecode(bytes);
    forall i | 0 <= i < |Hex.Encode(bytes)| ensures Hex.Encode(bytes)[i] < 0x80 && Hex.Encode(bytes)[i] != DOT {
      assert Hex.DecodeDigit(Hex.Encode(bytes)[i]).Some?;
    }
  }

  function TokenSegments(p: Primitives, keyId: Bytes, key: Bytes, grant: Grant): seq<Bytes> {
    var payload := EncodePayload(grant);
    [VERSION, keyId, Hex.Encode(payload), Hex.Encode(p.hmac(key, SignedText(keyId, payload)))]
  }

  lemma JoinFour(a: Bytes, b: Bytes, c: Bytes, d: Bytes)
    ensures Join([a, b, c, d], DOT) == a + [DOT] + b + [DOT] + c + [DOT] + d
  {
    assert [a, b, c, d][1..] == [b, c, d] && [b, c, d][1..] == [c, d] && [c, d][1..] == [d];
    assert Join([c, d], DOT) == c + [DOT] + d;
    assert Join([b, c, d], DOT) == b + [DOT] + (c + [DOT] + d);
  }

  lemma SegmentsArePlain(p: Primitives, keyId: Bytes, key: Bytes, grant: Grant)
    requires ValidKeyId(keyId)
    ensures forall part :: part in TokenSegments(p, keyId, key, grant) ==> IsAscii(part) && DOT !in part
  {
    var payload := EncodePayload(grant);
    HexTextIsPlain(payload);
    HexTextIsPlain(p.hmac(key, SignedText(keyId, payload)));
    assert IsAscii(keyId) && DOT !in keyId by {
      forall i | 0 <= i < |keyId| ensures keyId[i] < 0x80 && keyId[i] != DOT {
        assert KeyIdByte(keyId[i]);
      }
    }
  }

  lemma {:induction false} JoinIsAscii(parts: seq<Bytes>)
    requires |parts| > 0 && forall part :: part in parts ==> IsAscii(part)
    ensures IsAscii(Join(parts, DOT))
  {
    if |parts| > 1 {
      JoinIsAscii(parts[1..]);
      assert IsAscii(parts[0]);
    }
  }

  /** A signed token splits back into its four segments and fits the header bound. */
  lemma TokenShape(p: Primitives, keyId: Bytes, key: Bytes, grant: Grant)
    requires ValidKeyId(keyId)
    ensures var token := EncodeAndSign(p, keyId, key, grant);
      Split(token, DOT) == TokenSegments(p, keyId, key, grant) && 0 < |token| <= 361 && IsAscii(token)
  {
    var segments := TokenSegments(p, keyId, key, grant);
    JoinFour(segments[0], segments[1], segments[2], segments[3]);
    assert EncodeAndSign(p, keyId, key, grant) == Join(segments, DOT);
    SegmentsArePlain(p, keyId, key, grant);
    JoinThenSplit(segments, DOT);
    JoinIsAscii(segments);
    PayloadWidth(grant);
  }

  /**
   * Tokens are canonical in both directions: the strings an authority parses to a grant are exactly
   * that grant's own signed encoding. One grant has one accepted spelling.
   */
  lemma TokenIsCanonical(p: Primitives, layout: Layout, keyId: Bytes, key: Bytes, token: Bytes, grant: Grant)
    requires ValidKeyId(keyId)
    ensures ParseAndVerify(p, layout, keyId, key, token) == Ok(grant) <==>
            grant.Shape() == layout && grant.Decodable() && token == EncodeAndSign(p, keyId, key, grant)
  {
    if ParseAndVerify(p, layout, keyId, key, token) == Ok(grant) {
      ParsedTokenIsEncoding(p, layout, keyId, key, token, grant);
    }
    if grant.Shape() == layout && grant.Decodable() && token == EncodeAndSign(p, keyId, key, grant) {
      EncodingParses(p, keyId, key, grant);
    }
  }

  ghost predicate HexOf(text: Bytes, count: nat) {
    exists bytes: Bytes :: |bytes| == count && text == Hex.Encode(bytes)
  }

  lemma HexOrNothing(text: Bytes, count: nat)
    ensures Hex.DecodeArray(text, count).Some? <==> HexOf(text, count)
  {
    if Hex.DecodeArray(text, count).Some? {
      Hex.DecodeArrayIsExact(text, count, Hex.DecodeArray(text, count).value);
    }
    if bytes: Bytes :| |bytes| == count && text == Hex.Encode(bytes) {
      Hex.DecodeArrayIsExact(text, count, bytes);
    }
  }

  /** A text that does not split into four is malformed, and so is one no token can be as long as. */
  lemma MisshapenIsMalformed(p: Primitives, layout: Layout, keyId: Bytes, key: Bytes, token: Bytes)
    requires token == [] || |token| > 384 || !IsAscii(token) || |Split(token, DOT)| != 4
    ensures ParseAndVerify(p, layout, keyId, key, token) == Err(Malformed)
  {
    hide Split;
  }

  /**
   * A text of four segments is refused for the first thing wrong with it: length or characters,
   * version, key, the hexadecimal fields, the signature over everything before it, the payload.
   */
  lemma RefusalsAreNamed(p: Primitives, layout: Layout, keyId: Bytes, key: Bytes,
                         version: Bytes, id: Bytes, payload: Bytes, signature: Bytes)
    requires DOT !in version && DOT !in id && DOT !in payload && DOT !in signature
    ensures var signed := version + [DOT] + id + [DOT] + payload;
      var token := signed + [DOT] + signature;
      var r := ParseAndVerify(p, layout, keyId, key, token);
      if |token| > 384 || !IsAscii(token) then r == Err(Malformed)
      else if version != ['v' as int, '1' as int] then r == Err(UnknownVersion)
      else if id != keyId then r == Err(UnknownKey)
      else if !HexOf(payload, PayloadBytes(layout)) || !HexOf(signature, 32) then r == Err(Malformed)
      else if signature != Hex.Encode(p.hmac(key, signed)) then r == Err(SignatureInvalid)
      else r.Ok? || r == Err(Malformed)
  {
    var signed := version + [DOT] + id + [DOT] + payload;
    var token := signed + [DOT] + signature;
    var parts := [version, id, payload, signature];
    JoinFour(version, id, payload, signature);
    JoinThenSplit(parts, DOT);
    assert Split(token, DOT) == parts && token[..|signed|] == signed;
    HexOrNothing(payload, PayloadBytes(layout));
    HexOrNothing(signature, 32);
    SignatureText(signature, p.hmac(key, signed));
    hide Split, Join, Hex.DecodeArray, Hex.Encode, DecodePayload, IsAscii, HexOf;
  }

  lemma SignatureText(text: Bytes, mac: Digest)
    ensures Hex.DecodeArray(text, 32) == Some(mac) <==> text == Hex.Encode(mac)
  {
    Hex.DecodeArrayIsExact(text, 32, mac);
  }

  lemma ParsedTokenIsEncoding(p: Primitives, layout: Layout, keyId: Bytes, key: Bytes, token: Bytes, grant: Grant)
    requires ParseAndVerify(p, layout, keyId, key, token) == Ok(grant)
    ensures grant.Shape() == layout && grant.Decodable() && token == EncodeAndSign(p, keyId, key, grant)
  {
    hide Split, Join, Hex.DecodeArray, Hex.Encode, DecodePayload, EncodePayload, IsAscii;
    var segments := Split(token, DOT);
    var payload := Hex.DecodeArray(segments[2], PayloadBytes(layout)).value;
    var signature := Hex.DecodeArray(segments[3], MAC_BYTES).value;
    Hex.DecodeArrayIsExact(segments[2], PayloadBytes(layout), payload);
    Hex.DecodeArrayIsExact(segments[3], MAC_BYTES, signature);
    PayloadDecodeIsExact(layout, payload, grant);
    SplitThenJoin(token, DOT);
    JoinFour(segments[0], segments[1], segments[2], segments[3]);
    assert segments == [segments[0], segments[1], segments[2], segments[3]];
    var signed := SignedText(keyId, payload);
    assert token == signed + [DOT] + segments[3];
    assert token[..|signed|] == signed;
  }

  lemma DecodeOfEncoding(grant: Grant)
    ensures |EncodePayload(grant)| == PayloadBytes(grant.Shape())
    ensures DecodePayload(grant.Shape(), EncodePayload(grant)) == if grant.Decodable() then Some(grant) else None
  {
    PayloadWidth(grant);
    PayloadDecodeIsExact(grant.Shape(), EncodePayload(grant), grant);
    hide EncodePayload;
    var decoded := DecodePayload(grant.Shape(), EncodePayload(grant));
    if decoded.Some? {
      PayloadDecodeIsExact(grant.Shape(), EncodePayload(grant), decoded.value);
      EncodePayloadInjective(grant, decoded.value);
    }
  }

  /** A signed encoding parses back to its grant, and is malformed only for an unknown volume stream. */
  lemma EncodingParses(p: Primitives, keyId: Bytes, key: Bytes, grant: Grant)
    requires ValidKeyId(keyId)
    ensures ParseAndVerify(p, grant.Shape(), keyId, key, EncodeAndSign(p, keyId, key, grant))
            == if grant.Decodable() then Ok(grant) else Err(Malformed)
  {
    hide Split, Hex.DecodeArray, Hex.Encode, DecodePayload, EncodePayload, IsAscii;
    var payload := EncodePayload(grant);
    var signed := SignedText(keyId, payload);
    var signature := p.hmac(key, signed);
    var token := EncodeAndSign(p, keyId, key, grant);
    TokenShape(p, keyId, key, grant);
    DecodeOfEncoding(grant);
    Hex.DecodeArrayIsExact(Hex.Encode(payload), PayloadBytes(grant.Shape()), payload);
    Hex.DecodeArrayIsExact(Hex.Encode(signature), MAC_BYTES, signature);
    assert token[..|signed|] == signed;
  }
}
