/**
 The flag byte of a uhtbl bucket header.

 The C code keeps four independent bits in one `uint8_t` and manipulates them with
 `|=` and `&= ~`.  The rest of the model works on the record `Flags`; this module
 relates the record to the byte and shows that the four masks are distinct single
 bits, so that setting or clearing one of them never disturbs another.
 */
module UhtblFlags {

  const OCCUPIED: bv8 := 0x01
  const STRANGER: bv8 := 0x02
  const WITHNEXT: bv8 := 0x04
  const LOCALKEY: bv8 := 0x08

  /** The four flag bits of a bucket header, one field per bit. */
  datatype Flags = Flags(occupied: bool, stranger: bool, withNext: bool, localKey: bool)

  /** `flags = 0`: what calloc and uhtbl_clear leave behind. */
  const NoFlags := Flags(false, false, false, false)

  function Bit(on: bool, mask: bv8): bv8 {
    if on then mask else 0
  }

  /** The byte the C code stores for a flag record. */
  function ToByte(f: Flags): (b: bv8)
    ensures b & 0xF0 == 0
    ensures (b & OCCUPIED != 0) == f.occupied
    ensures (b & STRANGER != 0) == f.stranger
    ensures (b & WITHNEXT != 0) == f.withNext
    ensures (b & LOCALKEY != 0) == f.localKey
  {
    Bit(f.occupied, OCCUPIED) | Bit(f.stranger, STRANGER)
    | Bit(f.withNext, WITHNEXT) | Bit(f.localKey, LOCALKEY)
  }

  /** How the C code reads a flag byte: each test is `flags & MASK`. */
  function FromByte(b: bv8): Flags {
    Flags(b & OCCUPIED != 0, b & STRANGER != 0, b & WITHNEXT != 0, b & LOCALKEY != 0)
  }

  /** Decoding an encoded record gives the record back. */
  lemma FlagsRoundTrip(f: Flags)
    ensures FromByte(ToByte(f)) == f
  {
  }

  /** A byte that uses only the four flag bits is the encoding of its decoding. */
  lemma ByteRoundTrip(b: bv8)
    requires b & 0xF0 == 0
    ensures ToByte(FromByte(b)) == b
  {
  }

  /** The masks are pairwise distinct single bits. */
  lemma MasksAreDistinctBits()
    ensures OCCUPIED & STRANGER == 0 && OCCUPIED & WITHNEXT == 0 && OCCUPIED & LOCALKEY == 0
    ensures STRANGER & WITHNEXT == 0 && STRANGER & LOCALKEY == 0 && WITHNEXT & LOCALKEY == 0
    ensures OCCUPIED != 0 && OCCUPIED & (OCCUPIED - 1) == 0
    ensures STRANGER != 0 && STRANGER & (STRANGER - 1) == 0
    ensures WITHNEXT != 0 && WITHNEXT & (WITHNEXT - 1) == 0
    ensures LOCALKEY != 0 && LOCALKEY & (LOCALKEY - 1) == 0
  {
  }

  /**
   Each `flags |= MASK` and `flags &= ~MASK` of the C code is the record update of
   exactly one field: the other three bits survive.
   */
  lemma SingleBitUpdates(f: Flags)
    ensures ToByte(f) | OCCUPIED == ToByte(f.(occupied := true))
    ensures ToByte(f) & !OCCUPIED == ToByte(f.(occupied := false))
    ensures ToByte(f) | STRANGER == ToByte(f.(stranger := true))
    ensures ToByte(f) & !STRANGER == ToByte(f.(stranger := false))
    ensures ToByte(f) | WITHNEXT == ToByte(f.(withNext := true))
    ensures ToByte(f) & !WITHNEXT == ToByte(f.(withNext := false))
    ensures ToByte(f) | LOCALKEY == ToByte(f.(localKey := true))
    ensures ToByte(f) & !LOCALKEY == ToByte(f.(localKey := false))
  {
  }
}
