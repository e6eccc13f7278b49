/** Byte strings, machine integers and result types shared by every component. */
module Common {

  type byte = b: int | 0 <= b < 0x100
  type u32 = n: int | 0 <= n < 0x1_0000_0000
  type u64 = n: int | 0 <= n < 0x1_0000_0000_0000_0000
  type i64 = n: int | -0x8000_0000_0000_0000 <= n < 0x8000_0000_0000_0000

  const U64_MAX: u64 := 0xFFFF_FFFF_FFFF_FFFF

  /** Text and raw bytes are both byte strings: a Rust `str` is its UTF-8 encoding. */
  type Bytes = seq<byte>

  datatype Option<+T> = None | Some(value: T) {
    predicate IsFailure() { None? }

    function PropagateFailure<U>(): Option<U>
      requires None?
    {
      None
    }

    function Extract(): T
      requires Some?
    {
      value
    }
  }

  datatype Result<+T, +E> = Ok(value: T) | Err(error: E) {
    predicate IsFailure() { Err? }

    function PropagateFailure<U>(): Result<U, E>
      requires Err?
    {
      Err(error)
    }

    function Extract(): T
      requires Ok?
    {
      value
    }
  }

  datatype Unit = Unit

  type Id16 = id: Bytes | |id| == 16 witness seq(16, _ => 0)
  type Digest = digest: Bytes | |digest| == 32 witness seq(32, _ => 0)

  /**
   * The primitives the source takes from other crates: HMAC-SHA-256 (RFC 2104), SHA-256
   * (FIPS 180-4) and the textual form of a UUID. Every result holds for all of them.
   */
  datatype Primitives = Primitives(
    hmac: (Bytes, Bytes) -> Digest,
    sha256: Bytes -> Digest,
    uuidParse: Bytes -> Option<Id16>,
    uuidPrint: Id16 -> Bytes)

  /** The bytes of an ASCII literal. */
  function Ascii(text: string): (bytes: Bytes)
    requires forall i :: 0 <= i < |text| ==> text[i] as int < 0x80
    ensures |bytes| == |text|
  {
    seq(|text|, i requires 0 <= i < |text| => text[i] as byte)
  }

  predicate IsAscii(bytes: Bytes) {
    forall i :: 0 <= i < |bytes| ==> bytes[i] < 0x80
  }

  /** `u64::saturating_add`. */
  function SaturatingAdd(a: u64, b: u64): u64 {
    if a + b > U64_MAX then U64_MAX else a + b
  }

  /** The first occurrence of a byte, or the length. */
  function IndexOf(s: Bytes, b: byte): (k: nat)
    ensures k <= |s|
    ensures forall i :: 0 <= i < k ==> s[i] != b
    ensures k < |s| ==> s[k] == b
  {
    if s == [] || s[0] == b then 0 else 1 + IndexOf(s[1..], b)
  }

  predicate Digit(b: byte) { '0' as int <= b <= '9' as int }

  predicate AllDigits(s: Bytes) {
    forall i :: 0 <= i < |s| ==> Digit(s[i])
  }

  lemma {:induction false} SubsetSize<T>(a: set<T>, b: set<T>)
    requires a <= b
    ensures |a| <= |b|
  {
    if a != {} {
      var x :| x in a;
      SubsetSize(a - {x}, b - {x});
    }
  }
}
