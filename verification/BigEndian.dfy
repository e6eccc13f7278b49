/** Fixed-width big-endian integers, as written by `to_be_bytes` and read by `from_be_bytes`. */
module BigEndian {
  import opened Common

  function Pow256(width: nat): (p: nat)
    ensures p > 0
  {
    if width == 0 then 1 else 0x100 * Pow256(width - 1)
  }

  function ToBytes(n: nat, width: nat): (bytes: Bytes)
    ensures |bytes| == width
  {
    if width == 0 then [] else ToBytes(n / 0x100, width - 1) + [n % 0x100]
  }

  function FromBytes(bytes: Bytes): nat {
    if bytes == [] then 0 else FromBytes(bytes[..|bytes| - 1]) * 0x100 + bytes[|bytes| - 1]
  }

  lemma {:induction false} ReadBack(n: nat, width: nat)
    requires n < Pow256(width)
    ensures FromBytes(ToBytes(n, width)) == n
  {
    if width > 0 {
      ReadBack(n / 0x100, width - 1);
      assert ToBytes(n, width)[..width - 1] == ToBytes(n / 0x100, width - 1);
    }
  }

  lemma Quotient(n: nat, d: nat, q: nat)
    requires d > 0 && d * q <= n < d * q + d
    ensures n / d == q
  {
    assert d * (n / d - q) == d * (n / d) - d * q;
    SmallMultiple(d, n / d - q);
    SmallMultiple(d, q - n / d);
  }

  lemma SmallMultiple(d: nat, k: int)
    requires d * k < d
    ensures k <= 0
  {
  }

  lemma DivideTwice(n: nat, p: nat)
    requires p > 0
    ensures n / 0x100 / p == n / (0x100 * p)
  {
    var a := n / 0x100;
    var q := a / p;
    assert p * q <= a < p * q + p;
    assert 0x100 * p * q == 0x100 * (p * q);
    Quotient(n, 0x100 * p, q);
  }

  /** The most significant byte comes first. */
  lemma {:induction false} ByteAt(n: nat, width: nat, k: nat)
    requires k < width
    ensures ToBytes(n, width)[k] == n / Pow256(width - 1 - k) % 0x100
  {
    if k < width - 1 {
      ByteAt(n / 0x100, width - 1, k);
      DivideTwice(n, Pow256(width - 2 - k));
    }
  }

  lemma {:induction false} WriteBack(bytes: Bytes)
    ensures FromBytes(bytes) < Pow256(|bytes|)
    ensures ToBytes(FromBytes(bytes), |bytes|) == bytes
  {
    if bytes != [] {
      WriteBack(bytes[..|bytes| - 1]);
    }
  }

  lemma Widths()
    ensures Pow256(4) == 0x1_0000_0000
    ensures Pow256(8) == 0x1_0000_0000_0000_0000
  {
    assert Pow256(4) == 0x1_0000_0000;
    assert Pow256(8) == 0x1_0000_0000 * 0x1_0000_0000 by {
      assert Pow256(6) == 0x1_0000_0000_0000;
    }
  }

  function U32(n: u32): (bytes: Bytes) {
    ToBytes(n, 4)
  }

  function U64(n: u64): (bytes: Bytes) {
    ToBytes(n, 8)
  }

  function ReadU64(bytes: Bytes): u64
    requires |bytes| == 8
  {
    Widths();
    WriteBack(bytes);
    FromBytes(bytes)
  }

  /** The two's-complement encoding of a signed 64-bit integer. */
  function I64(n: i64): Bytes {
    U64(if n < 0 then n + 0x1_0000_0000_0000_0000 else n)
  }

  lemma U32Injective(m: u32, n: u32)
    ensures U32(m) == U32(n) ==> m == n
  {
    Widths();
    ReadBack(m, 4);
    ReadBack(n, 4);
  }

  lemma U64RoundTrip(n: u64, bytes: Bytes)
    ensures |U64(n)| == 8 && ReadU64(U64(n)) == n
    ensures |bytes| == 8 ==> U64(ReadU64(bytes)) == bytes
  {
    Widths();
    ReadBack(n, 8);
    WriteBack(bytes);
  }

  lemma I64Injective(m: i64, n: i64)
    ensures I64(m) == I64(n) ==> m == n
  {
    U64RoundTrip(if m < 0 then m + 0x1_0000_0000_0000_0000 else m, []);
    U64RoundTrip(if n < 0 then n + 0x1_0000_0000_0000_0000 else n, []);
  }
}
