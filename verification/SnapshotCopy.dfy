/**
 * Copying and hashing an exact number of bytes through a fixed buffer, under any pattern of short
 * reads, short writes and failures, and even while the source file is changing.
 */
module SnapshotCopy {
  import opened Common

  datatype SnapshotError = DexDescriptorInvalid | DexIdentityChanged | DexSnapshotFailed | DexDigestMismatch

  const BUFFER_BYTES := 16 * 1024

  /** File contents after writing `bytes` at an offset; a gap past the end reads as zeros. */
  function Overwrite(data: Bytes, offset: nat, bytes: Bytes): (result: Bytes)
    ensures |result| >= offset + |bytes|
  {
    var base := if offset > |data| then data + seq(offset - |data|, _ => 0) else data;
    base[..offset] + bytes + (if offset + |bytes| < |base| then base[offset + |bytes|..] else [])
  }

  /** Writing a byte string in two adjacent pieces is writing it at once. */
  lemma AdjacentWrites(data: Bytes, offset: nat, first: Bytes, second: Bytes)
    requires offset <= |data|
    ensures Overwrite(Overwrite(data, offset, first), offset + |first|, second)
            == Overwrite(data, offset, first + second)
  {
    var once := Overwrite(data, offset, first);
    var twice := Overwrite(once, offset + |first|, second);
    var whole := Overwrite(data, offset, first + second);
    assert |twice| == |whole|;
    forall i | 0 <= i < |twice| ensures twice[i] == whole[i] {
      if offset <= i < offset + |first| {
        assert once[i] == first[i - offset];
      } else if offset + |first| <= i < offset + |first| + |second| {
        assert twice[i] == second[i - offset - |first|];
      }
    }
  }

  datatype Fault = Failed | MovedNothing

  /**
   * A file behind a descriptor. Reads and writes may be short or fail at any time; unless `stable`,
   * other processes may change the contents before any access. `faults` counts the accesses that
   * failed or moved nothing, `lastFault` how the last of them went.
   */
  class File {
    var data: Bytes
    var faults: nat
    var lastFault: Fault
    const stable: bool

    constructor (data: Bytes, stable: bool)
      ensures this.data == data && this.stable == stable && faults == 0
    {
      this.data, this.stable := data, stable;
      faults, lastFault := 0, Failed;
    }

    method Interfere()
      modifies this
      ensures stable ==> data == old(data)
      ensures faults == old(faults) && lastFault == old(lastFault)
    {
      if !stable {
        data := *;
      }
    }

    /** `read_at` into the first `requested` bytes of the buffer. */
    method ReadAt(buffer: array<byte>, requested: nat, offset: nat) returns (read: Result<nat, Unit>)
      requires requested <= buffer.Length
      modifies this, buffer
      ensures stable ==> data == old(data)
      ensures read.Ok? ==> read.value <= requested
      ensures read.Ok? && read.value > 0 ==>
        offset + read.value <= |data| && buffer[..read.value] == data[offset..offset + read.value]
      ensures faults == if Moved(read) then old(faults) else old(faults) + 1
      ensures !Moved(read) ==> lastFault == if read.Err? then Failed else MovedNothing
    {
      Interfere();
      var fails: bool := *;
      if fails {
        faults, lastFault := faults + 1, Failed;
        return Err(Unit);
      }
      var count: int := *;
      if count <= 0 || count > requested || offset + count > |data| {
        faults, lastFault := faults + 1, MovedNothing;
        return Ok(0);
      }
      forall i | 0 <= i < count {
        buffer[i] := data[offset + i];
      }
      return Ok(count);
    }

    /** `write_at` of the slice of `chunk` that starts at `from`. */
    method WriteAt(chunk: Bytes, from: nat, offset: nat) returns (written: Result<nat, Unit>)
      requires stable && from <= |chunk|
      modifies this
      ensures written.Ok? ==> from + written.value <= |chunk|
      ensures written.Ok? && written.value > 0 ==>
        data == Overwrite(old(data), offset, chunk[from..from + written.value])
      ensures written.Ok? && written.value == 0 ==> data == old(data)
      ensures faults == if Moved(written) then old(faults) else old(faults) + 1
      ensures !Moved(written) ==> lastFault == if written.Err? then Failed else MovedNothing
    {
      var fails: bool, count: int := *, *;
      if fails {
        faults, lastFault := faults + 1, Failed;
        return Err(Unit);
      }
      if count <= 0 || from + count > |chunk| {
        faults, lastFault := faults + 1, MovedNothing;
        return Ok(0);
      }
      data := Overwrite(data, offset, chunk[from..from + count]);
      return Ok(count);
    }
  }

  /** The access transferred something. */
  predicate Moved(access: Result<nat, Unit>) { access.Ok? && access.value > 0 }

  function Least(a: nat, b: nat): nat {
    if a < b then a else b
  }

  /** One read of at most a buffer of what remains, with the errors of both loops. */
  method ReadPiece(file: File, buffer: array<byte>, offset: u64, bytes: u64) returns (piece: Result<Bytes, SnapshotError>)
    requires offset < bytes
    modifies file, buffer
    ensures file.stable ==> file.data == old(file.data)
    ensures file.faults == if piece.Ok? then old(file.faults) else old(file.faults) + 1
    ensures piece.Ok? ==> 0 < |piece.value| <= bytes - offset
    ensures piece.Ok? ==>
      offset + |piece.value| <= |file.data| && piece.value == file.data[offset..offset + |piece.value|]
    ensures piece.Err? ==> piece.error == if file.lastFault == Failed then DexDescriptorInvalid else DexIdentityChanged
  {
    var requested := Least(bytes - offset, buffer.Length);
    var read := file.ReadAt(buffer, requested, offset);
    if read.Err? {
      return Err(DexDescriptorInvalid);
    }
    if read.value == 0 {
      return Err(DexIdentityChanged);
    }
    return Ok(buffer[..read.value]);
  }

  /** A stable file's prefix and its next piece are a longer prefix. */
  lemma PrefixGrows(data: Bytes, offset: nat, piece: Bytes)
    requires offset + |piece| <= |data| && piece == data[offset..offset + |piece|]
    ensures data[..offset] + piece == data[..offset + |piece|]
  {
  }

  /** `hash_exact_file`: the digest of exactly `bytes` bytes read in order. */
  method HashExactFile(p: Primitives, file: File, bytes: u64)
    returns (digest: Result<Digest, SnapshotError>, ghost hashed: Bytes)
    modifies file
    ensures file.stable ==> file.data == old(file.data)
    ensures digest.Ok? ==> |hashed| == bytes && digest.value == p.sha256(hashed)
    ensures digest.Ok? && file.stable ==> bytes <= |file.data| && hashed == file.data[..bytes]
    ensures digest.Ok? <==> file.faults == old(file.faults)
    ensures digest.Err? ==> digest.error == if file.lastFault == Failed then DexDescriptorInvalid else DexIdentityChanged
  {
    var hasher: Bytes := [];
    hashed := [];
    var offset: u64 := 0;
    var buffer := new byte[BUFFER_BYTES](_ => 0);
    while offset < bytes
      invariant offset <= bytes && |hasher| == offset && file.faults == old(file.faults)
      invariant file.stable ==> file.data == old(file.data) && offset <= |file.data| && hasher == file.data[..offset]
      decreases bytes - offset
    {
      var piece := ReadPiece(file, buffer, offset, bytes);
      if piece.Err? {
        return Err(piece.error), hasher;
      }
      PrefixGrows(file.data, offset, piece.value);
      hasher := hasher + piece.value;
      offset := offset + |piece.value|;
    }
    return Ok(p.sha256(hasher)), hasher;
  }

  /** The inner loop: writes one filled buffer, however few bytes each write takes. */
  method WriteAll(destination: File, chunk: Bytes, offset: u64, bytes: u64)
    returns (outcome: Result<Unit, SnapshotError>)
    requires offset + |chunk| <= bytes
    requires destination.stable && offset <= |destination.data|
    modifies destination
    ensures outcome.Ok? ==> destination.data == Overwrite(old(destination.data), offset, chunk)
    ensures outcome.Ok? <==> destination.faults == old(destination.faults)
    ensures outcome.Err? ==> outcome.error == DexSnapshotFailed
  {
    var written: nat := 0;
    ghost var before := destination.data;
    ChunkBegins(before, offset, chunk, before);
    hide Overwrite, Holds;
    while written < |chunk|
      invariant written <= |chunk| && destination.faults == old(destination.faults)
      invariant Holds(destination.data, before, offset, chunk, written)
    {
      var count := WritePiece(destination, chunk, offset, written, before);
      if count == 0 {
        return Err(DexSnapshotFailed);
      }
      written := written + count;
    }
    ChunkBegins(before, offset, chunk, destination.data);
    return Ok(Unit);
  }

  /** One write of the rest of the chunk; a failed or an empty one is 0. */
  method WritePiece(destination: File, chunk: Bytes, offset: u64, written: nat, ghost before: Bytes)
    returns (count: nat)
    requires offset + |chunk| <= U64_MAX
    requires destination.stable && offset <= |before| && written < |chunk|
    requires Holds(destination.data, before, offset, chunk, written)
    modifies destination
    ensures written + count <= |chunk|
    ensures count > 0 ==> Holds(destination.data, before, offset, chunk, written + count)
    ensures destination.faults == if count > 0 then old(destination.faults) else old(destination.faults) + 1
  {
    hide Overwrite, Holds;
    var destinationOffset: u64 := offset + written;
    var access := destination.WriteAt(chunk, written, destinationOffset);
    if access.Err? || access.value == 0 {
      return 0;
    }
    AppendPiece(old(destination.data), destination.data, before, offset, chunk, written, access.value);
    return access.value;
  }

  /** The first `written` bytes of the chunk, and nothing else, have been written. */
  predicate Holds(data: Bytes, before: Bytes, offset: nat, chunk: Bytes, written: nat)
    requires written <= |chunk|
  {
    data == Overwrite(before, offset, chunk[..written])
  }

  lemma AppendPiece(current: Bytes, data: Bytes, before: Bytes, offset: nat, chunk: Bytes, written: nat, count: nat)
    requires written + count <= |chunk| && offset <= |before|
    requires Holds(current, before, offset, chunk, written)
    requires data == Overwrite(current, offset + written, chunk[written..written + count])
    ensures Holds(data, before, offset, chunk, written + count)
  {
    AdjacentWrites(before, offset, chunk[..written], chunk[written..written + count]);
    assert chunk[..written] + chunk[written..written + count] == chunk[..written + count];
  }

  lemma ChunkBegins(before: Bytes, offset: nat, chunk: Bytes, data: Bytes)
    requires offset <= |before|
    ensures Holds(before, before, offset, chunk, 0)
    ensures Holds(data, before, offset, chunk, |chunk|) ==> data == Overwrite(before, offset, chunk)
  {
    OverwriteNothing(before, offset);
    assert chunk[..|chunk|] == chunk;
  }

  lemma OverwriteNothing(data: Bytes, offset: nat)
    requires offset <= |data|
    ensures Overwrite(data, offset, []) == data
  {
  }

  /**
   * `copy_and_hash_exact_file`. On success the destination starts with exactly the `bytes` bytes that
   * were hashed, whatever it held beyond them is untouched, and a stable source is copied verbatim.
   */
  method CopyAndHashExactFile(p: Primitives, source: File, destination: File, bytes: u64)
    returns (digest: Result<Digest, SnapshotError>, ghost hashed: Bytes)
    requires source != destination && destination.stable
    modifies source, destination
    ensures source.stable ==> source.data == old(source.data)
    ensures digest.Ok? ==> |hashed| == bytes && digest.value == p.sha256(hashed)
    ensures digest.Ok? ==> destination.data == Overwrite(old(destination.data), 0, hashed)
    ensures digest.Ok? && source.stable ==> bytes <= |source.data| && hashed == source.data[..bytes]
    ensures digest.Ok? ==> Replaces(destination.data, old(destination.data), hashed)
    ensures digest.Ok? <==> source.faults == old(source.faults) && destination.faults == old(destination.faults)
    ensures digest.Err? ==>
      digest.error == if destination.faults != old(destination.faults) then DexSnapshotFailed
                      else if source.lastFault == Failed then DexDescriptorInvalid else DexIdentityChanged
  {
    var hasher: Bytes := [];
    hashed := [];
    var offset: u64 := 0;
    var buffer := new byte[BUFFER_BYTES](_ => 0);
    ghost var before := destination.data;
    OverwriteNothing(before, 0);
    hide Overwrite;
    while offset < bytes
      invariant offset <= bytes && |hasher| == offset
      invariant source.faults == old(source.faults) && destination.faults == old(destination.faults)
      invariant Copied(destination.data, before, hasher)
      invariant source.stable ==>
        source.data == old(source.data) && offset <= |source.data| && hasher == source.data[..offset]
      decreases bytes - offset
    {
      var piece := ReadPiece(source, buffer, offset, bytes);
      if piece.Err? {
        return Err(piece.error), hasher;
      }
      PrefixGrows(source.data, offset, piece.value);
      CopyGrows(destination.data, before, hasher, piece.value);
      hasher := hasher + piece.value;
      var outcome := WriteAll(destination, piece.value, offset, bytes);
      if outcome.Err? {
        return Err(outcome.error), hasher;
      }
      offset := offset + |piece.value|;
    }
    OverwriteReplaces(before, hasher);
    return Ok(p.sha256(hasher)), hasher;
  }

  /** The new contents start with the bytes; what the old ones held beyond them is still there. */
  predicate Replaces(now: Bytes, before: Bytes, bytes: Bytes) {
    && |now| == (if |bytes| > |before| then |bytes| else |before|)
    && now[..|bytes|] == bytes
    && now[|bytes|..] == if |bytes| > |before| then [] else before[|bytes|..]
  }

  lemma OverwriteReplaces(before: Bytes, bytes: Bytes)
    ensures Replaces(Overwrite(before, 0, bytes), before, bytes)
  {
  }

  /** The destination holds what was hashed so far, over what it held before. */
  predicate Copied(data: Bytes, before: Bytes, hashed: Bytes) {
    |data| >= |hashed| && data == Overwrite(before, 0, hashed)
  }

  lemma CopyGrows(data: Bytes, before: Bytes, hashed: Bytes, piece: Bytes)
    requires Copied(data, before, hashed)
    ensures |data| >= |hashed|
    ensures Copied(Overwrite(data, |hashed|, piece), before, hashed + piece)
  {
    AdjacentWrites(before, 0, hashed, piece);
  }

  /**
   * `finalize_writable_snapshot` on a private snapshot: success means the snapshot is exactly
   * `bytes` long and its whole content has the expected digest; with a stable source and no failed
   * access, that is also enough for success.
   */
  method FinalizeWritableSnapshot(p: Primitives, source: File, snapshot: File, bytes: u64, expected: Digest,
                                  isRegularFile: bool)
    returns (outcome: Result<Unit, SnapshotError>)
    requires source != snapshot && snapshot.stable
    modifies source, snapshot
    ensures outcome.Ok? ==> |snapshot.data| == bytes && p.sha256(snapshot.data) == expected
    ensures outcome.Ok? && source.stable ==> bytes <= |source.data| && snapshot.data == source.data[..bytes]
    ensures outcome.Ok? ==> source.faults == old(source.faults) && snapshot.faults == old(snapshot.faults)
    ensures source.stable && source.faults == old(source.faults) && snapshot.faults == old(snapshot.faults) ==>
      && bytes <= |source.data|
      && outcome == (if p.sha256(source.data[..bytes]) != expected then Err(DexDigestMismatch)
                     else if !isRegularFile || |snapshot.data| != bytes then Err(DexSnapshotFailed)
                     else Ok(Unit))
  {
    var copied, hashed := CopyAndHashExactFile(p, source, snapshot, bytes);
    if copied.Err? {
      return Err(copied.error);
    }
    if copied.value != expected {
      return Err(DexDigestMismatch);
    }
    if !isRegularFile || |snapshot.data| != bytes {
      return Err(DexSnapshotFailed);
    }
    assert snapshot.data[0..bytes] == hashed == snapshot.data;
    var verified, rehashed := HashExactFile(p, snapshot, bytes);
    if verified.Err? {
      return Err(verified.error);
    }
    if verified.value != expected {
      return Err(DexSnapshotFailed);
    }
    return Ok(Unit);
  }
}
