/**
 Keys of the uhtbl table.

 The C API takes a key as `(const void *key, long len)`.  A non-NULL `key` points at
 `len` bytes of caller memory (the header demands `len < 64KB`, since the length is
 stored in the 16-bit `keysize`).  A NULL `key` means that `len` itself is the key: a
 "local" handle that the table stores inline and compares through the `sizeof(long)`
 bytes of its in-memory representation.  The model fixes an LP64 little-endian host:
 `long` is 8 bytes, least significant byte first.

 Equality of keys in the table is `keysize` equality plus `memcmp`, which is equality
 of the byte strings below (their lengths are the key sizes).
 */
module UhtblKey {
  import opened Wrappers

  /** sizeof(long) on the modelled host. */
  const LONG_SIZE: nat := 8
  /** `keysize` is a uint16_t, so pointer keys must be shorter than 64KB. */
  const KEYSIZE_LIMIT: nat := 0x1_0000
  const LONG_MIN: int := -0x8000_0000_0000_0000
  const LONG_MAX: int := 0x7FFF_FFFF_FFFF_FFFF
  const LONG_RANGE: nat := 0x1_0000_0000_0000_0000

  /** The two ways a caller names a key. */
  datatype Key = Pointer(bytes: seq<byte>) | Local(handle: int)

  /** What the header demands of a key argument (uhtbl.h:185-187). */
  predicate ValidKey(k: Key) {
    match k
    case Pointer(b) => |b| < KEYSIZE_LIMIT
    case Local(h) => LONG_MIN <= h <= LONG_MAX
  }

  function Pow256(n: nat): (p: nat)
    ensures p >= 1
  {
    if n == 0 then 1 else 256 * Pow256(n - 1)
  }

  /** The `n` least significant bytes of `x`, least significant first. */
  function LittleEndian(n: nat, x: nat): (s: seq<byte>)
    ensures |s| == n
  {
    if n == 0 then [] else [x % 256] + LittleEndian(n - 1, x / 256)
  }

  /** The unsigned number a little-endian byte string denotes. */
  function FromLittleEndian(s: seq<byte>): nat {
    if s == [] then 0 else s[0] + 256 * FromLittleEndian(s[1..])
  }

  lemma {:induction false} FromLittleEndianBound(s: seq<byte>)
    ensures FromLittleEndian(s) < Pow256(|s|)
  {
    if s != [] {
      FromLittleEndianBound(s[1..]);
    }
  }

  /** Reading back `n` encoded bytes gives the number, when it fits in `n` bytes. */
  lemma {:induction false} DecodeEncode(n: nat, x: nat)
    requires x < Pow256(n)
    ensures FromLittleEndian(LittleEndian(n, x)) == x
  {
    if n > 0 {
      DecodeEncode(n - 1, x / 256);
      assert LittleEndian(n, x)[1..] == LittleEndian(n - 1, x / 256);
    }
  }

  /** Re-encoding a decoded byte string gives the string. */
  lemma {:induction false} EncodeDecode(s: seq<byte>)
    ensures LittleEndian(|s|, FromLittleEndian(s)) == s
  {
    if s != [] {
      EncodeDecode(s[1..]);
      var v := FromLittleEndian(s);
      assert v % 256 == s[0];
      assert v / 256 == FromLittleEndian(s[1..]);
    }
  }

  /** The bytes of a `long` as `memcmp(&len, ..., sizeof(len))` sees them. */
  function LongBytes(h: int): (s: seq<byte>)
    requires LONG_MIN <= h <= LONG_MAX
    ensures |s| == LONG_SIZE
  {
    LittleEndian(LONG_SIZE, if h < 0 then h + LONG_RANGE else h)
  }

  /** The `long` stored in eight bytes (two's complement). */
  function LongOf(s: seq<byte>): (h: int)
    requires |s| == LONG_SIZE
    ensures LONG_MIN <= h <= LONG_MAX
  {
    FromLittleEndianBound(s);
    var u := FromLittleEndian(s);
    if u > LONG_MAX then u - LONG_RANGE else u
  }

  /** A local handle survives the trip through its byte representation. */
  lemma LongRoundTrip(h: int)
    requires LONG_MIN <= h <= LONG_MAX
    ensures LongOf(LongBytes(h)) == h
  {
    DecodeEncode(LONG_SIZE, if h < 0 then h + LONG_RANGE else h);
  }

  /** Every eight-byte string is the representation of exactly one handle. */
  lemma BytesRoundTrip(s: seq<byte>)
    requires |s| == LONG_SIZE
    ensures LongBytes(LongOf(s)) == s
  {
    EncodeDecode(s);
    FromLittleEndianBound(s);
  }

  /** Distinct handles have distinct representations, so local keys never collide. */
  lemma LongBytesInjective(h1: int, h2: int)
    requires LONG_MIN <= h1 <= LONG_MAX && LONG_MIN <= h2 <= LONG_MAX
    requires LongBytes(h1) == LongBytes(h2)
    ensures h1 == h2
  {
    LongRoundTrip(h1);
    LongRoundTrip(h2);
  }

  /**
   The bytes that `_uhtbl_find` hashes and compares for a key argument
   (uhtbl.c:302-306 and 71-75): the pointed-to bytes, or the handle's own bytes.
   */
  function KeyBytes(k: Key): (s: seq<byte>)
    requires ValidKey(k)
    ensures |s| < KEYSIZE_LIMIT
    ensures k.Local? ==> s == LongBytes(k.handle)
    ensures k.Pointer? ==> s == k.bytes
  {
    match k
    case Pointer(b) => b
    case Local(h) => LongBytes(h)
  }

  /**
   A local key and a pointer key are the same table key exactly when the pointer
   designates eight bytes equal to the handle's representation: the flag that tells
   them apart takes no part in the comparison (uhtbl.c:322-325).
   */
  lemma LocalMeetsPointer(h: int, b: seq<byte>)
    requires LONG_MIN <= h <= LONG_MAX && |b| < KEYSIZE_LIMIT
    ensures KeyBytes(Local(h)) == KeyBytes(Pointer(b)) <==> (|b| == LONG_SIZE && LongOf(b) == h)
  {
    if |b| == LONG_SIZE {
      BytesRoundTrip(b);
      LongRoundTrip(h);
    }
  }
}
