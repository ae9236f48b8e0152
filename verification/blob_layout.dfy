/**
 The header word of a blob attribute.  blob.h is not part of this model; the
 word is modelled with the layout libubox gives it there: the raw length
 (header included) in the low 24 bits, the id in the 8 bits above, lengths
 padded to a multiple of 4, and a 4-byte header.  The word is kept as its two
 fields; `Pack` and `Unpack` relate it to the unsigned 32-bit value.  Byte
 order is not modelled.
 */
module BlobLayout {
  import opened CArith

  /** BLOB_ATTR_LEN_MASK + 1: the length field is the low 24 bits. */
  const LEN_RANGE: nat := 0x100_0000

  /** The id field is the 8 bits above the length field. */
  const ID_RANGE: nat := 0x100

  /** BLOB_ATTR_ALIGN. */
  const ALIGN: nat := 4

  /** sizeof(struct blob_attr): the header word alone. */
  const HDR: nat := 4

  type Len24 = n: nat | n < LEN_RANGE
  type Id8 = n: nat | n < ID_RANGE

  /** `id_len` by its fields. */
  datatype Word = Word(id: Id8, len: Len24)

  /** The unsigned value of the word: the id above the 24-bit length. */
  function Pack(w: Word): (r: u32)
    ensures r % LEN_RANGE == w.len && r / LEN_RANGE == w.id
  {
    w.id * LEN_RANGE + w.len
  }

  /** The fields of an unsigned value. */
  function Unpack(x: u32): (w: Word)
    ensures w.id * LEN_RANGE + w.len == x
  {
    Word(x / LEN_RANGE, x % LEN_RANGE)
  }

  /** Every word is the unpacking of its value, and every value the packing of its fields. */
  lemma PackRoundTrip(w: Word, x: u32)
    ensures Unpack(Pack(w)) == w
    ensures Pack(Unpack(x)) == x
  {
  }

  /**
   blob_init's packing (blob.c:26-32): the low 24 bits of the unsigned
   length, and the low 8 bits of the id shifted above them.
   */
  function Init(id: int, len: u32): (w: Word)
    ensures Pack(w) == (id % ID_RANGE) * LEN_RANGE + len % LEN_RANGE
  {
    Word(id % ID_RANGE, len % LEN_RANGE)
  }

  /** blob_raw_len: the length field. */
  function RawLen(w: Word): nat {
    w.len
  }

  /**
   blob_set_raw_len: clears the length bits of the word and ors in the low 24
   bits of `len`; the id bits are untouched.
   */
  function SetRawLen(w: Word, len: u32): (r: Word)
    ensures Pack(r) == Pack(w) - Pack(w) % LEN_RANGE + len % LEN_RANGE
    ensures r.id == w.id
  {
    w.(len := len % LEN_RANGE)
  }

  /**
   blob_pad_len: the raw length rounded up to the alignment.  The raw length
   is below 2^24, so the unsigned sum cannot wrap.
   */
  function PadLen(w: Word): (r: u32)
    ensures r % ALIGN == 0 && RawLen(w) <= r < RawLen(w) + ALIGN
  {
    Pad(RawLen(w))
  }

  /** blob_len: the payload length, raw length minus header, as an unsigned int. */
  function PayloadLen(w: Word): (r: u32)
    ensures RawLen(w) >= HDR ==> r == RawLen(w) - HDR
    ensures RawLen(w) < HDR ==> r == RawLen(w) + U32_RANGE - HDR
  {
    U32(RawLen(w) - HDR)
  }

  /** The least multiple of the alignment at or above `n`. */
  function Pad(n: nat): (r: nat)
    ensures r % ALIGN == 0 && n <= r < n + ALIGN
  {
    (n + ALIGN - 1) / ALIGN * ALIGN
  }

  /** Writing back the length a word already holds changes nothing. */
  lemma SetRawLenSame(w: Word)
    ensures SetRawLen(w, RawLen(w)) == w
  {
  }

  /** Aligned lengths add up to an aligned length. */
  lemma AlignedAdd(a: int, b: int)
    requires a % ALIGN == 0 && b % ALIGN == 0
    ensures (a + b) % ALIGN == 0
  {
  }

  /** Padding an aligned length changes nothing. */
  lemma {:induction false} PadAligned(n: nat)
    requires n % ALIGN == 0
    ensures Pad(n) == n
  {
  }
}
