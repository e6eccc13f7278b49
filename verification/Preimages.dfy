/**
 * The byte strings fed to HMAC-SHA-256 and SHA-256: domain-separated, fixed-width or
 * length-prefixed. Everything here is about those bytes, so it needs no cryptographic assumption.
 */
module Preimages {
  import opened Common
  import BigEndian
  import Hex
  import opened Segments
  import opened GrantCodec
  import VolumeControl

  // ---------------------------------------------------------------- targets

  /** Descriptor-derived identity of a single-link regular file. */
  datatype FileIdentity = FileIdentity(
    device: u64, inode: u64, size: u64, ctimeSeconds: i64, ctimeNanoseconds: i64, linkCount: u64)

  datatype Disposition = Create | Replace

  function DispositionCode(disposition: Disposition): byte {
    match disposition
    case Create => 1
    case Replace => 2
  }

  /** The exact operation a grant authorises, one constructor a family. */
  datatype Target =
    | DirectoryTarget(rootDevice: u64, rootInode: u64, targetDigest: Digest)
    | VolumeTarget(stream: VolumeControl.StreamName, level: u64)
    | WriteTarget(rootDevice: u64, rootInode: u64, targetDigest: Digest, contentDigest: Digest,
                  disposition: Disposition, existing: Option<FileIdentity>)
    | CopyTarget(sourceDevice: u64, sourceInode: u64, sourceDigest: Digest, identity: FileIdentity,
                 contentDigest: Digest, destinationDevice: u64, destinationInode: u64,
                 destinationDigest: Digest)
    | TrashTarget(rootDevice: u64, rootInode: u64, targetDigest: Digest, contentDigest: Digest,
                  identity: FileIdentity)
  {
    function Family(): Family {
      match this
      case DirectoryTarget(_, _, _) => CreateDirectory
      case VolumeTarget(_, _) => AndroidVolume
      case WriteTarget(_, _, _, _, _, _) => WriteFile
      case CopyTarget(_, _, _, _, _, _, _, _) => CopyFile
      case TrashTarget(_, _, _, _, _) => TrashFile
    }

    /** The families whose payload carries only a keyed binding of the operation. */
    predicate Opaque() { WriteTarget? || CopyTarget? || TrashTarget? }
  }

  // ---------------------------------------------------------------- domains

  const NUL: byte := 0

  const PREFIX := "termux-mcp:"
  const SUFFIX := ":v1"

  /** A domain-separation tag: `termux-mcp:<stem>:v1` and a NUL. */
  function Domain(stem: string): (bytes: Bytes)
    requires Plain(stem)
  {
    Ascii(PREFIX + stem + SUFFIX) + [NUL]
  }

  /** ASCII without NUL, so that the terminator is the tag's first NUL. */
  predicate Plain(text: string) {
    forall i :: 0 <= i < |text| ==> 0 < text[i] as int < 0x80
  }

  lemma LongerStemDiffers(a: string, b: string, x: Bytes, y: Bytes)
    requires Plain(a) && Plain(b) && |a| < |b|
    ensures Domain(a) + x != Domain(b) + y
  {
    var end := |Domain(a)| - 1;
    assert (Domain(a) + x)[end] == NUL;
    assert (Domain(b) + y)[end] == (PREFIX + b + SUFFIX)[end] as int != NUL;
  }

  /** Distinct NUL-terminated tags can never begin one common byte string. */
  lemma DomainsSeparate(a: string, b: string, x: Bytes, y: Bytes)
    requires Plain(a) && Plain(b)
    requires Domain(a) + x == Domain(b) + y
    ensures a == b && x == y
  {
    if |a| < |b| {
      LongerStemDiffers(a, b, x, y);
    } else if |b| < |a| {
      LongerStemDiffers(b, a, y, x);
    }
    forall i | 0 <= i < |a| ensures a[i] == b[i] {
      var k := |PREFIX| + i;
      assert (PREFIX + a + SUFFIX)[k] == a[i] && (PREFIX + b + SUFFIX)[k] == b[i];
      assert (Domain(a) + x)[k] == a[i] as int && (Domain(b) + y)[k] == b[i] as int;
    }
    assert (Domain(a) + x)[|Domain(a)|..] == x && (Domain(b) + y)[|Domain(b)|..] == y;
  }

  // ---------------------------------------------------------------- HMAC inputs

  /** Every message the grant code authenticates under a grant key. */
  datatype MacInput =
    | TokenSignature(keyId: Bytes, payload: Bytes)
    | PrincipalBinding(family: Family, secret: Bytes)
    | OperationBinding(grantId: Id16, principal: Digest, session: Id16, target: Target)
    | ReplayNamespace(family: Family, keyId: Bytes, principal: Digest)
  {
    predicate WellFormed() {
      match this
      case TokenSignature(keyId, _) => ValidKeyId(keyId)
      case PrincipalBinding(_, _) => true
      case OperationBinding(_, _, _, target) => target.Opaque()
      case ReplayNamespace(_, keyId, _) => ValidKeyId(keyId)
    }
  }

  function PrincipalStem(family: Family): string {
    match family
    case CreateDirectory => "static-principal"
    case WriteFile => "write-file-principal"
    case AndroidVolume => "android-volume-principal"
    case CopyFile => "copy-file-principal"
    case TrashFile => "trash-file-principal"
  }

  function OperationStem(target: Target): string
    requires target.Opaque()
  {
    match target
    case WriteTarget(_, _, _, _, _, _) => "write-file-operation-binding"
    case CopyTarget(_, _, _, _, _, _, _, _) => "copy-file-operation-binding"
    case TrashTarget(_, _, _, _, _) => "trash-file-operation-binding"
  }

  function Stem(input: MacInput): string
    requires input.WellFormed() && !input.TokenSignature?
  {
    match input
    case PrincipalBinding(family, _) => PrincipalStem(family)
    case OperationBinding(_, _, _, target) => OperationStem(target)
    case ReplayNamespace(_, _, _) => "grant-replay-namespace"
  }

  function IdentityFields(identity: FileIdentity): seq<Bytes> {
    [BigEndian.U64(identity.device), BigEndian.U64(identity.inode), BigEndian.U64(identity.size),
     BigEndian.I64(identity.ctimeSeconds), BigEndian.I64(identity.ctimeNanoseconds),
     BigEndian.U64(identity.linkCount)]
  }

  /** An absent identity is 56 zero bytes; a present one is six integers and eight zero bytes. */
  function ExistingFields(existing: Option<FileIdentity>): seq<Bytes> {
    match existing
    case None => [[0]] + seq(7, _ => seq(8, _ => 0))
    case Some(identity) => [[1]] + IdentityFields(identity) + [seq(8, _ => 0)]
  }

  const MUTATING: byte := 1
  const RECOVERY_RETAINED: byte := 1

  function TargetFields(target: Target): seq<Bytes>
    requires target.Opaque()
  {
    match target
    case WriteTarget(device, inode, digest, content, disposition, existing) =>
      [[WireCode(WriteFile), MUTATING], BigEndian.U64(device), BigEndian.U64(inode), digest, content,
       [DispositionCode(disposition)]] + ExistingFields(existing)
    case CopyTarget(sourceDevice, sourceInode, source, identity, content, device, inode, destination) =>
      [[WireCode(CopyFile), MUTATING], BigEndian.U64(sourceDevice), BigEndian.U64(sourceInode), source]
      + IdentityFields(identity)
      + [content, BigEndian.U64(device), BigEndian.U64(inode), destination]
    case TrashTarget(device, inode, digest, content, identity) =>
      [[WireCode(TrashFile), MUTATING, RECOVERY_RETAINED], BigEndian.U64(device), BigEndian.U64(inode),
       digest, content]
      + IdentityFields(identity)
  }

  /** One element for each `update` call after the domain. */
  function InputFields(input: MacInput): seq<Bytes>
    requires input.WellFormed() && !input.TokenSignature?
  {
    match input
    case PrincipalBinding(_, secret) => [secret]
    case OperationBinding(grantId, principal, session, target) =>
      [grantId, principal, session] + TargetFields(target)
    case ReplayNamespace(family, keyId, principal) =>
      [[WireCode(family)], BigEndian.U64(|keyId|), keyId, principal]
  }

  function MacBytes(input: MacInput): Bytes
    requires input.WellFormed()
  {
    if input.TokenSignature? then SignedText(input.keyId, input.payload)
    else
      StemIsPlain(input);
      Domain(Stem(input)) + Concat(InputFields(input))
  }

  lemma PrincipalStemIsPlain(family: Family)
    ensures Plain(PrincipalStem(family))
  {
    match family {
      case CreateDirectory => assert Plain("static-principal");
      case WriteFile => assert Plain("write-file-principal");
      case AndroidVolume => assert Plain("android-volume-principal");
      case CopyFile => assert Plain("copy-file-principal");
      case TrashFile => assert Plain("trash-file-principal");
    }
  }

  lemma OperationStemIsPlain(target: Target)
    requires target.Opaque()
    ensures Plain(OperationStem(target))
  {
    match target {
      case WriteTarget(_, _, _, _, _, _) => assert Plain("write-file-operation-binding");
      case CopyTarget(_, _, _, _, _, _, _, _) => assert Plain("copy-file-operation-binding");
      case TrashTarget(_, _, _, _, _) => assert Plain("trash-file-operation-binding");
    }
  }

  lemma StemIsPlain(input: MacInput)
    requires input.WellFormed() && !input.TokenSignature?
    ensures Plain(Stem(input))
  {
    match input {
      case PrincipalBinding(family, _) => PrincipalStemIsPlain(family);
      case OperationBinding(_, _, _, target) => OperationStemIsPlain(target);
      case ReplayNamespace(_, _, _) => assert Plain("grant-replay-namespace");
    }
  }

  /** The stem alone tells every purpose and every family apart. */
  lemma StemDeterminesPurpose(a: MacInput, b: MacInput)
    requires a.WellFormed() && !a.TokenSignature? && b.WellFormed() && !b.TokenSignature?
    requires Stem(a) == Stem(b)
    ensures a.PrincipalBinding? == b.PrincipalBinding?
    ensures a.ReplayNamespace? == b.ReplayNamespace?
    ensures a.PrincipalBinding? ==> a.family == b.family
    ensures a.OperationBinding? ==> a.target.Family() == b.target.Family()
  {
    assert |Stem(a)| == |Stem(b)| && Stem(a)[0] == Stem(b)[0];
  }

  // ---------------------------------------------------------------- injectivity

  predicate SameWidths(a: seq<Bytes>, b: seq<Bytes>) {
    |a| == |b| && forall i :: 0 <= i < |a| ==> |a[i]| == |b[i]|
  }

  lemma IdentityFieldsInjective(a: FileIdentity, b: FileIdentity)
    ensures SameWidths(IdentityFields(a), IdentityFields(b))
    ensures IdentityFields(a) == IdentityFields(b) ==> a == b
  {
    var x, y := IdentityFields(a), IdentityFields(b);
    if x == y {
      assert x[0] == y[0] && x[1] == y[1] && x[2] == y[2] && x[3] == y[3] && x[4] == y[4] && x[5] == y[5];
      U64Injective(a.device, b.device);
      U64Injective(a.inode, b.inode);
      U64Injective(a.size, b.size);
      BigEndian.I64Injective(a.ctimeSeconds, b.ctimeSeconds);
      BigEndian.I64Injective(a.ctimeNanoseconds, b.ctimeNanoseconds);
      U64Injective(a.linkCount, b.linkCount);
    }
  }

  lemma U64Injective(m: u64, n: u64)
    ensures BigEndian.U64(m) == BigEndian.U64(n) ==> m == n
  {
    BigEndian.U64RoundTrip(m, []);
    BigEndian.U64RoundTrip(n, []);
  }

  /** Absent and present identities take the same 57 bytes and never coincide. */
  lemma ExistingFieldsInjective(a: Option<FileIdentity>, b: Option<FileIdentity>)
    ensures SameWidths(ExistingFields(a), ExistingFields(b))
    ensures ExistingFields(a) == ExistingFields(b) ==> a == b
  {
    var x, y := ExistingFields(a), ExistingFields(b);
    if x == y {
      assert x[0] == y[0];
      if a.Some? {
        assert x[1..7] == IdentityFields(a.value) && y[1..7] == IdentityFields(b.value);
        IdentityFieldsInjective(a.value, b.value);
      }
    }
  }

  lemma SuffixesEqual(a: seq<Bytes>, x: seq<Bytes>, b: seq<Bytes>, y: seq<Bytes>)
    requires |a| == |b| && a + x == b + y
    ensures a == b && x == y
  {
    assert (a + x)[..|a|] == a && (b + y)[..|b|] == b;
    assert (a + x)[|a|..] == x && (b + y)[|b|..] == y;
  }

  lemma WriteFieldsInjective(a: Target, b: Target)
    requires a.WriteTarget? && b.WriteTarget?
    ensures SameWidths(TargetFields(a), TargetFields(b))
    ensures TargetFields(a) == TargetFields(b) ==> a == b
  {
    ExistingFieldsInjective(a.existing, b.existing);
    var x, y := TargetFields(a), TargetFields(b);
    if x == y {
      assert x[1] == y[1] && x[2] == y[2] && x[3] == y[3] && x[4] == y[4] && x[5] == y[5];
      assert x[6..] == ExistingFields(a.existing) && y[6..] == ExistingFields(b.existing);
      U64Injective(a.rootDevice, b.rootDevice);
      U64Injective(a.rootInode, b.rootInode);
    }
  }

  lemma CopyFieldsInjective(a: Target, b: Target)
    requires a.CopyTarget? && b.CopyTarget?
    ensures SameWidths(TargetFields(a), TargetFields(b))
    ensures TargetFields(a) == TargetFields(b) ==> a == b
  {
    IdentityFieldsInjective(a.identity, b.identity);
    var x, y := TargetFields(a), TargetFields(b);
    if x == y {
      assert x[1] == y[1] && x[2] == y[2] && x[3] == y[3];
      assert x[4..10] == IdentityFields(a.identity) && y[4..10] == IdentityFields(b.identity);
      assert x[10] == y[10] && x[11] == y[11] && x[12] == y[12] && x[13] == y[13];
      U64Injective(a.sourceDevice, b.sourceDevice);
      U64Injective(a.sourceInode, b.sourceInode);
      U64Injective(a.destinationDevice, b.destinationDevice);
      U64Injective(a.destinationInode, b.destinationInode);
    }
  }

  lemma TrashFieldsInjective(a: Target, b: Target)
    requires a.TrashTarget? && b.TrashTarget?
    ensures SameWidths(TargetFields(a), TargetFields(b))
    ensures TargetFields(a) == TargetFields(b) ==> a == b
  {
    IdentityFieldsInjective(a.identity, b.identity);
    var x, y := TargetFields(a), TargetFields(b);
    if x == y {
      assert x[1] == y[1] && x[2] == y[2] && x[3] == y[3] && x[4] == y[4];
      assert x[5..] == IdentityFields(a.identity) && y[5..] == IdentityFields(b.identity);
      U64Injective(a.rootDevice, b.rootDevice);
      U64Injective(a.rootInode, b.rootInode);
    }
  }

  lemma TargetFieldsInjective(a: Target, b: Target)
    requires a.Opaque() && b.Opaque() && a.Family() == b.Family()
    ensures SameWidths(TargetFields(a), TargetFields(b))
    ensures TargetFields(a) == TargetFields(b) ==> a == b
  {
    match a {
      case WriteTarget(_, _, _, _, _, _) => WriteFieldsInjective(a, b);
      case CopyTarget(_, _, _, _, _, _, _, _) => CopyFieldsInjective(a, b);
      case TrashTarget(_, _, _, _, _) => TrashFieldsInjective(a, b);
    }
  }

  lemma OperationInjective(a: MacInput, b: MacInput)
    requires a.OperationBinding? && b.OperationBinding? && a.WellFormed() && b.WellFormed()
    requires a.target.Family() == b.target.Family()
    requires Concat(InputFields(a)) == Concat(InputFields(b))
    ensures a == b
  {
    TargetFieldsInjective(a.target, b.target);
    var x, y := [a.grantId, a.principal, a.session], [b.grantId, b.principal, b.session];
    assert forall i :: 0 <= i < |TargetFields(a.target)| ==> |TargetFields(a.target)[i]| == |TargetFields(b.target)[i]|;
    ConcatInjective(InputFields(a), InputFields(b));
    SuffixesEqual(x, TargetFields(a.target), y, TargetFields(b.target));
    assert x[0] == y[0] && x[1] == y[1] && x[2] == y[2];
  }

  /** The key identifier's explicit length keeps it apart from the principal digest. */
  lemma NamespaceInjective(a: MacInput, b: MacInput)
    requires a.ReplayNamespace? && b.ReplayNamespace? && a.WellFormed() && b.WellFormed()
    requires Concat(InputFields(a)) == Concat(InputFields(b))
    ensures a == b
  {
    NamespaceLength(a);
    NamespaceLength(b);
    U64Injective(|a.keyId|, |b.keyId|);
    var x, y := InputFields(a), InputFields(b);
    ConcatInjective(x, y);
    assert x[0] == y[0] && x[2] == y[2] && x[3] == y[3];
  }

  lemma NamespaceLength(a: MacInput)
    requires a.ReplayNamespace? && a.WellFormed()
    ensures |Concat(InputFields(a))| > 9 && Concat(InputFields(a))[1..9] == BigEndian.U64(|a.keyId|)
  {
    var x := InputFields(a);
    assert Concat(x) == x[0] + Concat(x[1..]);
    assert Concat(x[1..]) == x[1] + Concat(x[2..]);
    assert Concat(x[2..]) == x[2] + Concat(x[3..]);
  }

  lemma SignatureInjective(a: MacInput, b: MacInput)
    requires a.TokenSignature? && b.TokenSignature? && a.WellFormed() && b.WellFormed()
    requires MacBytes(a) == MacBytes(b)
    ensures a == b
  {
    SignedTextSplits(a.keyId, a.payload);
    SignedTextSplits(b.keyId, b.payload);
    var x := [VERSION, a.keyId, Hex.Encode(a.payload)];
    var y := [VERSION, b.keyId, Hex.Encode(b.payload)];
    assert x[1] == y[1] && x[2] == y[2];
    Hex.EncodeThenDecode(a.payload);
    Hex.EncodeThenDecode(b.payload);
  }

  lemma SignedTextSplits(keyId: Bytes, payload: Bytes)
    requires ValidKeyId(keyId)
    ensures Split(SignedText(keyId, payload), DOT) == [VERSION, keyId, Hex.Encode(payload)]
  {
    var parts := [VERSION, keyId, Hex.Encode(payload)];
    HexTextIsPlain(payload);
    assert DOT !in keyId by {
      forall i | 0 <= i < |keyId| ensures keyId[i] != DOT {
        assert KeyIdByte(keyId[i]);
      }
    }
    assert parts[1..] == [keyId, Hex.Encode(payload)] && parts[1..][1..] == [Hex.Encode(payload)];
    assert Join(parts[1..], DOT) == keyId + [DOT] + Hex.Encode(payload);
    assert SignedText(keyId, payload) == Join(parts, DOT);
    JoinThenSplit(parts, DOT);
  }

  lemma SignatureHasNoDomain(a: MacInput, b: MacInput)
    requires a.TokenSignature? && !b.TokenSignature? && a.WellFormed() && b.WellFormed()
    ensures MacBytes(a) != MacBytes(b)
  {
    StemIsPlain(b);
    assert MacBytes(a)[0] == 'v' as int;
    assert MacBytes(b)[0] == (PREFIX + Stem(b) + SUFFIX)[0] as int == 't' as int;
  }

  /**
   * One key serves every purpose safely: a message authenticated for one purpose, family, grant,
   * principal, session or target is never the message authenticated for another.
   */
  lemma MacInputsAreDisjoint(a: MacInput, b: MacInput)
    requires a.WellFormed() && b.WellFormed() && MacBytes(a) == MacBytes(b)
    ensures a == b
  {
    if a.TokenSignature? && b.TokenSignature? {
      SignatureInjective(a, b);
    } else if a.TokenSignature? || b.TokenSignature? {
      if a.TokenSignature? { SignatureHasNoDomain(a, b); } else { SignatureHasNoDomain(b, a); }
    } else {
      StemIsPlain(a);
      StemIsPlain(b);
      DomainsSeparate(Stem(a), Stem(b), Concat(InputFields(a)), Concat(InputFields(b)));
      StemDeterminesPurpose(a, b);
      match a {
        case PrincipalBinding(_, _) => ConcatInjective(InputFields(a), InputFields(b));
          assert InputFields(a)[0] == InputFields(b)[0];
        case OperationBinding(_, _, _, _) => OperationInjective(a, b);
        case ReplayNamespace(_, _, _) => NamespaceInjective(a, b);
      }
    }
  }

  // ---------------------------------------------------------------- the bytes themselves

  function Zeros(n: nat): Bytes {
    seq(n, _ => 0)
  }

  function IdentityBytes(identity: FileIdentity): Bytes {
    BigEndian.U64(identity.device) + BigEndian.U64(identity.inode) + BigEndian.U64(identity.size)
    + BigEndian.I64(identity.ctimeSeconds) + BigEndian.I64(identity.ctimeNanoseconds)
    + BigEndian.U64(identity.linkCount)
  }

  lemma IdentityIsBytes(identity: FileIdentity)
    ensures Concat(IdentityFields(identity)) == IdentityBytes(identity)
  {
    var a := [BigEndian.U64(identity.device), BigEndian.U64(identity.inode), BigEndian.U64(identity.size),
              BigEndian.I64(identity.ctimeSeconds)];
    var b := [BigEndian.I64(identity.ctimeNanoseconds), BigEndian.U64(identity.linkCount)];
    assert IdentityFields(identity) == a + b;
    hide IdentityFields, BigEndian.U64, BigEndian.I64;
    ConcatPlus(a, b);
    ConcatFour(a[0], a[1], a[2], a[3]);
    ConcatFour(b[0], b[1], [], []);
    var x, y, z := Concat(a), b[0], b[1];
    assert x + (y + z) == x + y + z;
  }

  lemma {:induction false} ConcatZeros(n: nat)
    ensures Concat(seq(n, _ => Zeros(8))) == Zeros(8 * n)
  {
    if n > 0 {
      ConcatZeros(n - 1);
      assert seq(n, _ => Zeros(8))[1..] == seq(n - 1, _ => Zeros(8));
      assert Zeros(8) + Zeros(8 * n - 8) == Zeros(8 * n);
    }
  }

  /** An absent identity is 57 zero bytes; a present one a 1, six integers and eight zero bytes. */
  function ExistingBytes(existing: Option<FileIdentity>): Bytes {
    match existing
    case None => Zeros(57)
    case Some(identity) => [1] + IdentityBytes(identity) + Zeros(8)
  }

  lemma ExistingIsBytes(existing: Option<FileIdentity>)
    ensures Concat(ExistingFields(existing)) == ExistingBytes(existing)
  {
    match existing {
      case None =>
        assert ExistingFields(existing) == [[0]] + seq(7, _ => Zeros(8));
        ConcatPlus([[0]], seq(7, _ => Zeros(8)));
        ConcatFour([0], [], [], []);
        ConcatZeros(7);
        assert [0] + Zeros(56) == Zeros(57);
      case Some(identity) =>
        assert ExistingFields(existing) == [[1]] + IdentityFields(identity) + [Zeros(8)];
        IdentityIsBytes(identity);
        hide IdentityFields, IdentityBytes;
        ConcatPlus([[1]], IdentityFields(identity));
        ConcatPlus([[1]] + IdentityFields(identity), [Zeros(8)]);
        ConcatFour([1], [], [], []);
        ConcatFour(Zeros(8), [], [], []);
    }
  }

  function TargetBytes(target: Target): Bytes
    requires target.Opaque()
  {
    match target
    case WriteTarget(device, inode, digest, content, disposition, existing) =>
      [2, 1] + BigEndian.U64(device) + BigEndian.U64(inode) + digest + content
      + [if disposition == Create then 1 else 2] + ExistingBytes(existing)
    case CopyTarget(sourceDevice, sourceInode, source, identity, content, device, inode, destination) =>
      [4, 1] + BigEndian.U64(sourceDevice) + BigEndian.U64(sourceInode) + source + IdentityBytes(identity)
      + content + BigEndian.U64(device) + BigEndian.U64(inode) + destination
    case TrashTarget(device, inode, digest, content, identity) =>
      [5, 1, 1] + BigEndian.U64(device) + BigEndian.U64(inode) + digest + content + IdentityBytes(identity)
  }

  lemma WriteIsBytes(target: Target)
    requires target.WriteTarget?
    ensures Concat(TargetFields(target)) == TargetBytes(target)
  {
    var d, i := BigEndian.U64(target.rootDevice), BigEndian.U64(target.rootInode);
    var code: Bytes := [if target.disposition == Create then 1 else 2];
    var a, b := [[2, 1], d, i, target.targetDigest], [target.contentDigest, code];
    assert TargetFields(target) == a + b + ExistingFields(target.existing);
    assert TargetBytes(target) == [2, 1] + d + i + target.targetDigest + target.contentDigest + code
                                  + ExistingBytes(target.existing);
    ExistingIsBytes(target.existing);
    hide TargetFields, TargetBytes, ExistingFields, ExistingBytes, Concat, BigEndian.U64;
    ConcatPlus(a + b, ExistingFields(target.existing));
    ConcatPlus(a, b);
    ConcatFour([2, 1], d, i, target.targetDigest);
    ConcatFour(target.contentDigest, code, [], []);
    Regroup([2, 1] + d + i + target.targetDigest, target.contentDigest, code);
  }

  lemma CopyIsBytes(target: Target)
    requires target.CopyTarget?
    ensures Concat(TargetFields(target)) == TargetBytes(target)
  {
    var d, i := BigEndian.U64(target.sourceDevice), BigEndian.U64(target.sourceInode);
    var e, j := BigEndian.U64(target.destinationDevice), BigEndian.U64(target.destinationInode);
    var a, c := [[4, 1], d, i, target.sourceDigest], [target.contentDigest, e, j, target.destinationDigest];
    var b := IdentityFields(target.identity);
    assert TargetFields(target) == a + b + c;
    assert TargetBytes(target) == [4, 1] + d + i + target.sourceDigest + IdentityBytes(target.identity)
                                  + target.contentDigest + e + j + target.destinationDigest;
    IdentityIsBytes(target.identity);
    hide TargetFields, TargetBytes, IdentityFields, IdentityBytes, Concat, BigEndian.U64;
    ConcatPlus(a + b, c);
    ConcatPlus(a, b);
    ConcatFour([4, 1], d, i, target.sourceDigest);
    ConcatFour(target.contentDigest, e, j, target.destinationDigest);
    var x := [4, 1] + d + i + target.sourceDigest + IdentityBytes(target.identity);
    RegroupFour(x, target.contentDigest, e, j, target.destinationDigest);
  }

  lemma RegroupFour(x: Bytes, a: Bytes, b: Bytes, c: Bytes, d: Bytes)
    ensures x + (a + b + c + d) == x + a + b + c + d
  {
  }

  lemma TrashIsBytes(target: Target)
    requires target.TrashTarget?
    ensures Concat(TargetFields(target)) == TargetBytes(target)
  {
    var d, i := BigEndian.U64(target.rootDevice), BigEndian.U64(target.rootInode);
    var a, b := [[5, 1, 1], d, i, target.targetDigest], [target.contentDigest];
    assert TargetFields(target) == a + b + IdentityFields(target.identity);
    assert TargetBytes(target) == [5, 1, 1] + d + i + target.targetDigest + target.contentDigest
                                  + IdentityBytes(target.identity);
    IdentityIsBytes(target.identity);
    hide TargetFields, TargetBytes, IdentityFields, IdentityBytes, Concat, BigEndian.U64;
    ConcatPlus(a + b, IdentityFields(target.identity));
    ConcatPlus(a, b);
    ConcatFour([5, 1, 1], d, i, target.targetDigest);
    ConcatFour(target.contentDigest, [], [], []);
  }

  lemma TargetIsBytes(target: Target)
    requires target.Opaque()
    ensures Concat(TargetFields(target)) == TargetBytes(target)
  {
    match target {
      case WriteTarget(_, _, _, _, _, _) => WriteIsBytes(target);
      case CopyTarget(_, _, _, _, _, _, _, _) => CopyIsBytes(target);
      case TrashTarget(_, _, _, _, _) => TrashIsBytes(target);
    }
  }

  predicate Tagged(bytes: Bytes, tag: string, body: Bytes) {
    (forall i :: 0 <= i < |tag| ==> tag[i] as int < 0x80) && bytes == Ascii(tag) + [0] + body
  }

  /** The tags of the source, letter by letter. */
  function OperationTag(target: Target): string
    requires target.Opaque()
  {
    match target
    case WriteTarget(_, _, _, _, _, _) => "termux-mcp:" + "write-file-operation-binding" + ":v1"
    case CopyTarget(_, _, _, _, _, _, _, _) => "termux-mcp:" + "copy-file-operation-binding" + ":v1"
    case TrashTarget(_, _, _, _, _) => "termux-mcp:" + "trash-file-operation-binding" + ":v1"
  }

  function PrincipalTag(family: Family): string {
    match family
    case CreateDirectory => "termux-mcp:" + "static-principal" + ":v1"
    case WriteFile => "termux-mcp:" + "write-file-principal" + ":v1"
    case AndroidVolume => "termux-mcp:" + "android-volume-principal" + ":v1"
    case CopyFile => "termux-mcp:" + "copy-file-principal" + ":v1"
    case TrashFile => "termux-mcp:" + "trash-file-principal" + ":v1"
  }

  function FamilyByte(family: Family): byte {
    match family
    case CreateDirectory => 1
    case WriteFile => 2
    case AndroidVolume => 3
    case CopyFile => 4
    case TrashFile => 5
  }

  lemma DomainIsTagged(stem: string, tag: string, body: Bytes)
    requires Plain(stem) && tag == "termux-mcp:" + stem + ":v1"
    ensures Tagged(Domain(stem) + body, tag, body)
  {
    assert forall i :: 0 <= i < |tag| ==> tag[i] as int < 0x80 by {
      forall i | 0 <= i < |tag| ensures tag[i] as int < 0x80 {
        if 11 <= i < 11 + |stem| { assert tag[i] == stem[i - 11]; }
      }
    }
  }

  const NAMESPACE_TAG := "termux-mcp:" + "grant-replay-namespace" + ":v1"

  /** The message authenticated for each purpose, byte for byte in the order of the source. */
  lemma MacBytesAreTheSources(input: MacInput)
    requires input.WellFormed()
    ensures match input
      case TokenSignature(keyId, payload) =>
        MacBytes(input) == ['v' as int, '1' as int, '.' as int] + keyId + ['.' as int] + Hex.Encode(payload)
      case PrincipalBinding(family, secret) => Tagged(MacBytes(input), PrincipalTag(family), secret)
      case OperationBinding(grantId, principal, session, target) =>
        Tagged(MacBytes(input), OperationTag(target), grantId + principal + session + TargetBytes(target))
      case ReplayNamespace(family, keyId, principal) =>
        Tagged(MacBytes(input), NAMESPACE_TAG, [FamilyByte(family)] + BigEndian.U64(|keyId|) + keyId + principal)
  {
    hide MacBytes, Tagged, TargetBytes, OperationTag, PrincipalTag;
    match input {
      case TokenSignature(_, _) => SignatureBytesAre(input);
      case PrincipalBinding(_, _) => PrincipalBytesAre(input);
      case OperationBinding(_, _, _, _) => OperationBytesAre(input);
      case ReplayNamespace(_, _, _) => NamespaceBytesAre(input);
    }
  }

  lemma SignatureBytesAre(input: MacInput)
    requires input.TokenSignature? && input.WellFormed()
    ensures MacBytes(input) == ['v' as int, '1' as int, '.' as int] + input.keyId + ['.' as int] + Hex.Encode(input.payload)
  {
  }

  lemma PrincipalBytesAre(input: MacInput)
    requires input.PrincipalBinding?
    ensures Tagged(MacBytes(input), PrincipalTag(input.family), input.secret)
  {
    StemIsPlain(input);
    PrincipalTagIs(input.family);
    ConcatFour(input.secret, [], [], []);
    assert MacBytes(input) == Domain(PrincipalStem(input.family)) + Concat([input.secret]);
    hide MacBytes, Domain, PrincipalStem, PrincipalTag, Tagged, Concat;
    DomainIsTagged(PrincipalStem(input.family), PrincipalTag(input.family), input.secret);
  }

  lemma NamespaceBytesAre(input: MacInput)
    requires input.ReplayNamespace? && input.WellFormed()
    ensures Tagged(MacBytes(input), NAMESPACE_TAG,
                   [FamilyByte(input.family)] + BigEndian.U64(|input.keyId|) + input.keyId + input.principal)
  {
    var fields := [[FamilyByte(input.family)], BigEndian.U64(|input.keyId|), input.keyId, input.principal];
    StemIsPlain(input);
    assert MacBytes(input) == Domain("grant-replay-namespace") + Concat(fields);
    hide MacBytes, Domain, Tagged, Concat, BigEndian.U64;
    ConcatFour(fields[0], fields[1], fields[2], fields[3]);
    DomainIsTagged("grant-replay-namespace", NAMESPACE_TAG, Concat(fields));
  }

  lemma PrincipalTagIs(family: Family)
    ensures PrincipalTag(family) == "termux-mcp:" + PrincipalStem(family) + ":v1"
  {
  }

  lemma OperationTagIs(target: Target)
    requires target.Opaque()
    ensures OperationTag(target) == "termux-mcp:" + OperationStem(target) + ":v1"
  {
  }

  lemma OperationBytesAre(input: MacInput)
    requires input.OperationBinding? && input.WellFormed()
    ensures Tagged(MacBytes(input), OperationTag(input.target),
                   input.grantId + input.principal + input.session + TargetBytes(input.target))
  {
    var body := input.grantId + input.principal + input.session + TargetBytes(input.target);
    StemIsPlain(input);
    OperationTagIs(input.target);
    TargetIsBytes(input.target);
    assert InputFields(input) == [input.grantId, input.principal, input.session] + TargetFields(input.target);
    assert MacBytes(input) == Domain(OperationStem(input.target)) + Concat(InputFields(input));
    hide MacBytes, InputFields, TargetFields, TargetBytes, OperationTag, OperationStem, Domain, Tagged;
    ConcatPlus([input.grantId, input.principal, input.session], TargetFields(input.target));
    ConcatFour(input.grantId, input.principal, input.session, []);
    DomainIsTagged(OperationStem(input.target), OperationTag(input.target), body);
  }

  // ---------------------------------------------------------------- path digests

  /** Each component preceded by its length as a 32-bit integer. */
  function LengthPrefixed(components: seq<Bytes>): Bytes {
    if components == [] then []
    else BigEndian.ToBytes(|components[0]|, 4) + components[0] + LengthPrefixed(components[1..])
  }

  predicate Digestible(components: seq<Bytes>) {
    && 1 <= |components| < 0x1_0000_0000
    && forall i :: 0 <= i < |components| ==> Short(components[i])
  }

  function PathStem(family: Family): string
    requires family != AndroidVolume
  {
    match family
    case CreateDirectory => "create-directory-target"
    case WriteFile => "write-file-target"
    case CopyFile => "copy-file-path"
    case TrashFile => "trash-file-target"
  }

  lemma PathStems(a: Family, b: Family)
    requires a != AndroidVolume && b != AndroidVolume
    ensures Plain(PathStem(a))
    ensures PathStem(a) == PathStem(b) ==> a == b
  {
    match a {
      case CreateDirectory => assert Plain("create-directory-target");
      case WriteFile => assert Plain("write-file-target");
      case CopyFile => assert Plain("copy-file-path");
      case TrashFile => assert Plain("trash-file-target");
    }
    assert PathStem(a) == PathStem(b) ==>
           |PathStem(a)| == |PathStem(b)| && PathStem(a)[0] == PathStem(b)[0];
  }

  function PathBody(components: seq<Bytes>): Bytes
    requires Digestible(components)
  {
    LengthPrefixed(components) + BigEndian.U32(|components|)
  }

  /** The bytes a path digest is taken over: domain, prefixed components, component count. */
  function PathPreimage(family: Family, components: seq<Bytes>): Bytes
    requires family != AndroidVolume && Digestible(components)
  {
    PathStems(family, family);
    Domain(PathStem(family)) + PathBody(components)
  }

  function PathDigest(p: Primitives, family: Family, components: seq<Bytes>): Result<Digest, GrantError>
    requires family != AndroidVolume
  {
    if Digestible(components) then Ok(p.sha256(PathPreimage(family, components))) else Err(TargetInvalid)
  }

  /** `update(length)` and `update(component)` for one component. */
  method Absorb(hashed: Bytes, components: seq<Bytes>) returns (absorbed: Bytes)
    requires components != [] && |components[0]| < 0x1_0000_0000
    ensures absorbed + LengthPrefixed(components[1..]) == hashed + LengthPrefixed(components)
  {
    absorbed := hashed + BigEndian.U32(|components[0]|);
    absorbed := absorbed + components[0];
  }

  predicate Short(component: Bytes) { |component| < 0x1_0000_0000 }

  /** The loop: absorb every component and count them with a checked 32-bit counter. */
  method AbsorbAll(domain: Bytes, components: seq<Bytes>) returns (absorbed: Option<(Bytes, nat)>)
    ensures absorbed.Some? <==> |components| < 0x1_0000_0000 && forall k :: 0 <= k < |components| ==> Short(components[k])
    ensures absorbed.Some? ==> absorbed.value == (domain + LengthPrefixed(components), |components|)
  {
    assert LengthPrefixed([]) == [];
    hide LengthPrefixed, BigEndian.U32;
    var hashed, componentCount := domain, 0;
    for i := 0 to |components|
      invariant componentCount == i < 0x1_0000_0000
      invariant forall k :: 0 <= k < i ==> Short(components[k])
      invariant hashed + LengthPrefixed(components[i..]) == domain + LengthPrefixed(components)
    {
      if |components[i]| >= 0x1_0000_0000 {
        assert !Short(components[i]);
        return None;
      }
      hashed := Absorb(hashed, components[i..]);
      assert components[i..][1..] == components[i + 1..];
      if componentCount + 1 >= 0x1_0000_0000 {
        return None;
      }
      componentCount := componentCount + 1;
    }
    assert components[|components|..] == [];
    assert hashed == hashed + LengthPrefixed([]);
    return Some((hashed, componentCount));
  }

  /** `normalized_path_digest`: domain, components, and their count if there are any. */
  method NormalizedPathDigest(p: Primitives, family: Family, components: seq<Bytes>)
    returns (digest: Result<Digest, GrantError>)
    requires family != AndroidVolume
    ensures digest == PathDigest(p, family, components)
  {
    PathStems(family, family);
    hide Domain, PathStem, Plain, LengthPrefixed, BigEndian.U32;
    var absorbed := AbsorbAll(Domain(PathStem(family)), components);
    if absorbed.None? || absorbed.value.1 == 0 {
      return Err(TargetInvalid);
    }
    var hashed := absorbed.value.0 + BigEndian.U32(absorbed.value.1);
    assert hashed == PathPreimage(family, components);
    return Ok(p.sha256(hashed));
  }

  lemma {:induction false} LengthPrefixedInjective(a: seq<Bytes>, b: seq<Bytes>)
    requires |a| == |b|
    requires forall i :: 0 <= i < |a| ==> Short(a[i])
    requires forall i :: 0 <= i < |b| ==> Short(b[i])
    requires LengthPrefixed(a) == LengthPrefixed(b)
    ensures a == b
  {
    if a != [] {
      var x, y := LengthPrefixed(a), LengthPrefixed(b);
      assert x[..4] == BigEndian.U32(|a[0]|) && y[..4] == BigEndian.U32(|b[0]|);
      BigEndian.U32Injective(|a[0]|, |b[0]|);
      assert x[4..4 + |a[0]|] == a[0] && y[4..4 + |b[0]|] == b[0];
      assert x[4 + |a[0]|..] == LengthPrefixed(a[1..]) && y[4 + |b[0]|..] == LengthPrefixed(b[1..]);
      LengthPrefixedInjective(a[1..], b[1..]);
      assert a == [a[0]] + a[1..] && b == [b[0]] + b[1..];
    }
  }

  lemma PathBodyInjective(a: seq<Bytes>, b: seq<Bytes>)
    requires Digestible(a) && Digestible(b) && PathBody(a) == PathBody(b)
    ensures a == b
  {
    var x, y := PathBody(a), PathBody(b);
    assert x[|x| - 4..] == BigEndian.U32(|a|) && y[|y| - 4..] == BigEndian.U32(|b|);
    BigEndian.U32Injective(|a|, |b|);
    assert x[..|x| - 4] == LengthPrefixed(a) && y[..|y| - 4] == LengthPrefixed(b);
    LengthPrefixedInjective(a, b);
  }

  /**
   * No two component lists, of any number and length, feed a digest the same bytes, and no two
   * families ever share a path preimage: component boundaries cannot be shifted.
   */
  lemma PathPreimageInjective(f: Family, a: seq<Bytes>, g: Family, b: seq<Bytes>)
    requires f != AndroidVolume && Digestible(a) && g != AndroidVolume && Digestible(b)
    requires PathPreimage(f, a) == PathPreimage(g, b)
    ensures f == g && a == b
  {
    PathStems(f, g);
    PathStems(g, f);
    DomainsSeparate(PathStem(f), PathStem(g), PathBody(a), PathBody(b));
    PathBodyInjective(a, b);
  }

  function PathTag(family: Family): string
    requires family != AndroidVolume
  {
    match family
    case CreateDirectory => "termux-mcp:" + "create-directory-target" + ":v1"
    case WriteFile => "termux-mcp:" + "write-file-target" + ":v1"
    case CopyFile => "termux-mcp:" + "copy-file-path" + ":v1"
    case TrashFile => "termux-mcp:" + "trash-file-target" + ":v1"
  }

  lemma PathTagIs(family: Family)
    requires family != AndroidVolume
    ensures PathTag(family) == "termux-mcp:" + PathStem(family) + ":v1"
  {
  }

  /** Where the `k`-th component's length starts in the prefixed text. */
  function Start(components: seq<Bytes>, k: nat): nat
    requires k <= |components|
  {
    if k == 0 then 0 else Start(components, k - 1) + 4 + |components[k - 1]|
  }

  lemma {:induction false} StartShifts(components: seq<Bytes>, k: nat)
    requires 0 < k <= |components|
    ensures Start(components, k) == 4 + |components[0]| + Start(components[1..], k - 1)
  {
    if k > 1 {
      StartShifts(components, k - 1);
    }
  }

  lemma {:induction false} ComponentAt(components: seq<Bytes>, k: nat)
    requires k < |components| && Short(components[k])
    ensures var at := Start(components, k);
      && at + 4 + |components[k]| <= |LengthPrefixed(components)|
      && LengthPrefixed(components)[at..at + 4] == BigEndian.U32(|components[k]|)
      && LengthPrefixed(components)[at + 4..at + 4 + |components[k]|] == components[k]
  {
    var first := BigEndian.ToBytes(|components[0]|, 4) + components[0];
    var rest := LengthPrefixed(components[1..]);
    assert LengthPrefixed(components) == first + rest;
    if k > 0 {
      ComponentAt(components[1..], k - 1);
      StartShifts(components, k);
      hide LengthPrefixed, BigEndian.U32, Start;
      var at := Start(components[1..], k - 1);
      Shifted(first, rest, at, at + 4);
      Shifted(first, rest, at + 4, at + 4 + |components[k]|);
    }
  }

  lemma Shifted(first: Bytes, rest: Bytes, from: nat, to: nat)
    requires from <= to <= |rest|
    ensures (first + rest)[|first| + from..|first| + to] == rest[from..to]
  {
  }

  lemma {:induction false} PrefixedLength(components: seq<Bytes>)
    ensures |LengthPrefixed(components)| == Start(components, |components|)
  {
    if components != [] {
      PrefixedLength(components[1..]);
      StartShifts(components, |components|);
    }
  }

  /**
   * A path digest is taken over the family's tag, each component behind its length in four bytes, one
   * right after the other, and the number of components in four bytes; and it is taken exactly when
   * that number is not zero and everything fits four bytes.
   */
  lemma PathPreimageIsTheSources(p: Primitives, family: Family, components: seq<Bytes>)
    requires family != AndroidVolume
    ensures PathDigest(p, family, components).Ok? <==>
      1 <= |components| <= 4294967295 && forall i :: 0 <= i < |components| ==> |components[i]| <= 4294967295
    ensures PathDigest(p, family, components).Err? ==> PathDigest(p, family, components) == Err(TargetInvalid)
    ensures Digestible(components) ==>
      var body := PathBody(components);
      && PathDigest(p, family, components) == Ok(p.sha256(PathPreimage(family, components)))
      && Tagged(PathPreimage(family, components), PathTag(family), body)
      && |body| == Start(components, |components|) + 4
      && body[Start(components, |components|)..] == BigEndian.U32(|components|)
      && forall k :: 0 <= k < |components| ==> HoldsComponent(body, components, k)
  {
    DigestibleMeans(components);
    if Digestible(components) {
      PathStems(family, family);
      PathTagIs(family);
      BodyHolds(components);
      DomainIsTagged(PathStem(family), PathTag(family), PathBody(components));
      hide PathStem, PathTag, Domain, Tagged, PathBody, Start, HoldsComponent;
    }
  }

  lemma DigestibleMeans(components: seq<Bytes>)
    ensures Digestible(components) <==>
      1 <= |components| <= 4294967295 && forall i :: 0 <= i < |components| ==> |components[i]| <= 4294967295
  {
    assert forall i :: 0 <= i < |components| ==> (Short(components[i]) <==> |components[i]| <= 4294967295);
  }

  lemma BodyHolds(components: seq<Bytes>)
    requires Digestible(components)
    ensures var body := PathBody(components);
      && |body| == Start(components, |components|) + 4
      && body[Start(components, |components|)..] == BigEndian.U32(|components|)
      && forall k :: 0 <= k < |components| ==> HoldsComponent(body, components, k)
  {
    PrefixedLength(components);
    hide LengthPrefixed, Start;
    forall k | 0 <= k < |components| ensures HoldsComponent(PathBody(components), components, k) {
      assert Short(components[k]);
      ComponentAt(components, k);
      InPrefix(LengthPrefixed(components), BigEndian.U32(|components|), Start(components, k), components[k]);
    }
  }

  predicate HoldsComponent(body: Bytes, components: seq<Bytes>, k: nat)
    requires k < |components| && |components[k]| < 0x1_0000_0000
  {
    var at := Start(components, k);
    && at + 4 + |components[k]| <= |body|
    && body[at..at + 4] == BigEndian.U32(|components[k]|)
    && body[at + 4..at + 4 + |components[k]|] == components[k]
  }

  lemma InPrefix(text: Bytes, more: Bytes, at: nat, component: Bytes)
    requires at + 4 + |component| <= |text|
    ensures (text + more)[at..at + 4] == text[at..at + 4]
    ensures (text + more)[at + 4..at + 4 + |component|] == text[at + 4..at + 4 + |component|]
  {
  }
}
