/** Bytes, Go's fixed-width integers and their big-endian representation. */
module Octets {
  type byte = x: int | 0 <= x < 256
  type u16 = x: int | 0 <= x < 0x1_0000
  type u32 = x: int | 0 <= x < 0x1_0000_0000
  type u64 = x: int | 0 <= x < 0x1_0000_0000_0000_0000
  type i32 = x: int | -0x8000_0000 <= x < 0x8000_0000
  type i64 = x: int | -0x8000_0000_0000_0000 <= x < 0x8000_0000_0000_0000

  /** A Go slice or string: its length fits Go's `int`. */
  type Slice<T> = s: seq<T> | |s| < 0x8000_0000_0000_0000

  datatype Option<+T> = None | Some(value: T)

  function Min(a: nat, b: nat): nat { if a <= b then a else b }

  function Zeros(n: nat): (z: seq<byte>)
    ensures |z| == n
  {
    seq(n, _ => 0)
  }

  function Pow256(k: nat): (p: nat)
    ensures p >= 1
  {
    if k == 0 then 1 else 256 * Pow256(k - 1)
  }

  /** The number whose big-endian representation is s. */
  function BigEndian(s: seq<byte>): nat {
    if |s| == 0 then 0 else 256 * BigEndian(s[..|s| - 1]) + s[|s| - 1]
  }

  /** The k low-order bytes of n, most significant first; higher bytes are lost. */
  function PutBig(n: nat, k: nat): (s: seq<byte>)
    ensures |s| == k
  {
    if k == 0 then [] else PutBig(n / 256, k - 1) + [n % 256]
  }

  /** int64(x), int32(x): two's complement of a value of the given width in bytes. */
  function Signed(x: nat, k: nat): int {
    if 2 * x < Pow256(k) then x else x - Pow256(k)
  }

  /** uint64(x), uint32(x): the value modulo 256^k. */
  function Unsigned(x: int, k: nat): (u: nat)
    ensures u < Pow256(k)
  {
    x % Pow256(k)
  }

  lemma PowValues()
    ensures Pow256(0) == 1 && Pow256(1) == 0x100 && Pow256(2) == 0x1_0000
    ensures Pow256(4) == 0x1_0000_0000
    ensures Pow256(8) == 0x1_0000_0000_0000_0000
  {
    assert Pow256(2) == 256 * Pow256(1);
    assert Pow256(4) == 256 * (256 * Pow256(2));
    assert Pow256(6) == 256 * (256 * Pow256(4));
    assert Pow256(8) == 256 * (256 * Pow256(6));
  }

  lemma {:induction false} BigEndianBound(s: seq<byte>)
    ensures BigEndian(s) < Pow256(|s|)
  {
    if |s| > 0 {
      BigEndianBound(s[..|s| - 1]);
    }
  }

  /** The first byte is the most significant. */
  lemma {:induction false} FirstByteIsHighest(b: byte, s: seq<byte>)
    ensures BigEndian([]) == 0 && BigEndian([b] + s) == b * Pow256(|s|) + BigEndian(s)
  {
    var all := [b] + s;
    if s == [] {
      assert all[..0] == [];
    } else {
      var init, last := s[..|s| - 1], s[|s| - 1];
      assert all[..|all| - 1] == [b] + init;
      FirstByteIsHighest(b, init);
      assert 256 * (b * Pow256(|init|)) == b * Pow256(|s|);
    }
  }

  lemma Multiples(d: nat, k: int)
    ensures k >= 1 ==> d * k >= d
    ensures k <= -1 ==> d * k + d <= 0
  {
    assert d * k == d + d * (k - 1) == d * (k + 1) - d;
  }

  lemma DivisionIsUnique(n: int, d: nat, q: int, r: nat)
    requires r < d && n == d * q + r
    ensures n / d == q && n % d == r
  {
    var q' := n / d;
    assert d * (q' - q) == d * q' - d * q == r - n % d;
    Multiples(d, q' - q);
  }

  lemma RemainderStep(n: nat, p: nat)
    requires p >= 1
    ensures 256 * (n / 256 % p) + n % 256 == n % (256 * p)
  {
    var q, r := n / 256 / p, n / 256 % p;
    assert n / 256 == p * q + r;
    assert 256 * (p * q) == (256 * p) * q;
    DivisionIsUnique(n, 256 * p, q, 256 * r + n % 256);
  }

  /** Reading back what was put gives the number modulo 256^k. */
  lemma {:induction false} BigEndianOfPut(n: nat, k: nat)
    ensures BigEndian(PutBig(n, k)) == n % Pow256(k)
  {
    if k > 0 {
      BigEndianOfPut(n / 256, k - 1);
      assert PutBig(n, k)[..k - 1] == PutBig(n / 256, k - 1);
      RemainderStep(n, Pow256(k - 1));
    }
  }

  lemma PutThenRead(n: nat, k: nat)
    requires n < Pow256(k)
    ensures BigEndian(PutBig(n, k)) == n
  {
    BigEndianOfPut(n, k);
    DivisionIsUnique(n, Pow256(k), 0, n);
  }

  /** Putting back what was read gives the same bytes. */
  lemma {:induction false} ReadThenPut(s: seq<byte>)
    ensures PutBig(BigEndian(s), |s|) == s
  {
    if |s| > 0 {
      ReadThenPut(s[..|s| - 1]);
      assert s == s[..|s| - 1] + [s[|s| - 1]];
    }
  }

  /** Conversion to unsigned and back is the identity on the signed range, and the other way round. */
  lemma SignedOfUnsigned(x: int, k: nat)
    requires -(Pow256(k) as int) <= 2 * x < Pow256(k)
    ensures Signed(Unsigned(x, k), k) == x
  {
    if x >= 0 {
      DivisionIsUnique(x, Pow256(k), 0, x);
    } else {
      DivisionIsUnique(x, Pow256(k), -1, x + Pow256(k));
    }
  }

  lemma UnsignedOfSigned(u: nat, k: nat)
    requires u < Pow256(k)
    ensures Unsigned(Signed(u, k), k) == u
  {
    if 2 * u < Pow256(k) {
      DivisionIsUnique(u, Pow256(k), 0, u);
    } else {
      DivisionIsUnique(u - Pow256(k), Pow256(k), -1, u);
    }
  }

  // ---------- fixed-width fields ----------

  /** The number held by a field of its type's width. */
  function AsU16(b: seq<byte>): u16 { BigEndianBound(b); PowValues(); if |b| == 2 then BigEndian(b) else 0 }
  function AsU32(b: seq<byte>): u32 { BigEndianBound(b); PowValues(); if |b| == 4 then BigEndian(b) else 0 }
  function AsU64(b: seq<byte>): u64 { BigEndianBound(b); PowValues(); if |b| == 8 then BigEndian(b) else 0 }
  function AsI32(b: seq<byte>): i32 { PowValues(); Signed(AsU32(b), 4) }
  function AsI64(b: seq<byte>): i64 { PowValues(); Signed(AsU64(b), 8) }

  function U16Field(x: u16): (b: seq<byte>) ensures |b| == 2 { PutBig(x, 2) }
  function U32Field(x: u32): (b: seq<byte>) ensures |b| == 4 { PutBig(x, 4) }
  function U64Field(x: u64): (b: seq<byte>) ensures |b| == 8 { PutBig(x, 8) }
  function I32Field(x: i32): (b: seq<byte>) ensures |b| == 4 { PutBig(Unsigned(x, 4), 4) }
  function I64Field(x: i64): (b: seq<byte>) ensures |b| == 8 { PutBig(Unsigned(x, 8), 8) }

  /** Numbers survive being put in a field and read back, and fields survive being read and put. */
  lemma UnsignedFields(x: u16, y: u32, z: u64, b: seq<byte>)
    ensures AsU16(U16Field(x)) == x && AsU32(U32Field(y)) == y && AsU64(U64Field(z)) == z
    ensures |b| == 2 ==> U16Field(AsU16(b)) == b
    ensures |b| == 4 ==> U32Field(AsU32(b)) == b
    ensures |b| == 8 ==> U64Field(AsU64(b)) == b
  {
    PowValues();
    PutThenRead(x, 2);
    PutThenRead(y, 4);
    PutThenRead(z, 8);
    ReadThenPut(b);
  }

  lemma SignedFields(x: i32, y: i64, b: seq<byte>)
    ensures AsI32(I32Field(x)) == x && AsI64(I64Field(y)) == y
    ensures |b| == 4 ==> I32Field(AsI32(b)) == b
    ensures |b| == 8 ==> I64Field(AsI64(b)) == b
  {
    PowValues();
    UnsignedFields(0, Unsigned(x, 4), Unsigned(y, 8), b);
    SignedOfUnsigned(x, 4);
    SignedOfUnsigned(y, 8);
    UnsignedOfSigned(AsU32(b), 4);
    UnsignedOfSigned(AsU64(b), 8);
  }

  // ---------- fixed-size arrays ----------

  const HASH_SIZE: nat := 32
  const RIPE_HASH_SIZE: nat := 20
  const PUBKEY_SIZE: nat := 64

  type ShaHash = s: seq<byte> | |s| == HASH_SIZE witness Zeros(HASH_SIZE)
  type RipeHash = s: seq<byte> | |s| == RIPE_HASH_SIZE witness Zeros(RIPE_HASH_SIZE)
  type PubKey = s: seq<byte> | |s| == PUBKEY_SIZE witness Zeros(PUBKEY_SIZE)

  function AsSha(b: seq<byte>): ShaHash { if |b| == HASH_SIZE then b else Zeros(HASH_SIZE) }
  function AsRipe(b: seq<byte>): RipeHash { if |b| == RIPE_HASH_SIZE then b else Zeros(RIPE_HASH_SIZE) }
  function AsKey(b: seq<byte>): PubKey { if |b| == PUBKEY_SIZE then b else Zeros(PUBKEY_SIZE) }
}
