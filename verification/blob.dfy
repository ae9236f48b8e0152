/**
 The blob builder of blob.c: a growable buffer of tagged attributes, each a
 32-bit header word followed by its payload, with a "head" attribute whose
 length covers everything added after it.

 The buffer is described by offsets, never by addresses: the C code itself
 turns `head` and `pos` into offsets around a `realloc` and back, so that a
 moving buffer is invisible at this level.
 */
module Blob {
  import opened Wrappers
  import opened CArith
  import opened BlobLayout

  /** errno's ENOMEM on Linux; blob_buf_init answers its negation. */
  const ENOMEM: int := 12

  /** The default grower adds whole chunks of this many bytes. */
  const GROW_CHUNK: nat := 256

  /**
   Who enlarges the buffer.  A caller's grower is a callback: given `buflen`
   and the number of missing bytes it answers the new `buflen`, or None when
   it fails.
   */
  datatype Grower = NoGrower | DefaultGrower | CustomGrower(grow: (int, int) -> Option<int>)

  /**
   What was written into an attribute's payload: raw bytes (blob_put), or the
   name header and value of a blobmsg field.
   */
  datatype Body = Raw(bytes: seq<byte>) | Named(namelen: nat, name: seq<byte>, value: seq<byte>)

  /**
   A `struct blob_buf`.  `live` is `buf != NULL`, `head` is the head's offset
   (None when NULL), `words` the header words written so far by offset.
   */
  datatype BlobBuf = BlobBuf(live: bool, buflen: int, head: Option<nat>, words: map<nat, Word>,
                             bodies: map<nat, Body>, grower: Grower)

  /** A zero-filled `struct blob_buf`, as callers declare one. */
  const EmptyBuf := BlobBuf(false, 0, None, map[], map[], NoGrower)

  /** A builder step: the new buffer and the answer, or memory use the C code leaves undefined. */
  datatype Run<T> = Run(b: BlobBuf, v: T) | Undefined

  /** Reading a header word: through a NULL buffer, or a word never written, is undefined. */
  function Read(b: BlobBuf, o: nat): Option<Word> {
    if b.live && o in b.words then Some(b.words[o]) else None
  }

  /**
   blob_buffer_grow's increment for `minlen` missing bytes (blob.c:21): the
   least multiple of 256 above `minlen`.
   */
  function GrowBy(minlen: int): (r: int)
    ensures minlen >= 0 ==> minlen < r <= minlen + GROW_CHUNK && r % GROW_CHUNK == 0
  {
    (TruncDiv(minlen, GROW_CHUNK) + 1) * GROW_CHUNK
  }

  /** The bytes blob_add finds missing when it puts a header and `payload` bytes at `pos`. */
  function Required(b: BlobBuf, pos: nat, payload: int): int {
    pos + HDR + payload - b.buflen
  }

  /**
   The header word blob_add writes (blob.c:66): the id and the raw length
   `payload + header` converted to unsigned int.
   */
  function Header(id: int, payload: int): Word {
    Init(id, U32(payload + HDR))
  }

  /** blob_init at `pos`. */
  function Attach(b: BlobBuf, pos: nat, id: int, payload: int): Run<Option<nat>> {
    Run(b.(words := b.words[pos := Header(id, payload)]), Some(pos))
  }

  /** Whether the grower fails to provide the missing bytes. */
  predicate GrowFails(b: BlobBuf, required: int, mem: bool) {
    match b.grower
    case NoGrower => true
    case DefaultGrower => !mem
    case CustomGrower(f) => f(b.buflen, required).None?
  }

  /**
   blob_add (blob.c:47-68): grow when the header and payload would pass
   `buflen`, then write the header at `pos`.  `mem` is the answer of the
   `realloc` inside the default grower.  A failed `realloc` leaves `buf`
   NULL and `buflen` already raised.
   */
  function Add(b: BlobBuf, pos: nat, id: int, payload: int, mem: bool): (r: Run<Option<nat>>)
    ensures r.Undefined? <==> Required(b, pos, payload) <= 0 && !b.live
    ensures r.Run? && r.v.None? <==> Required(b, pos, payload) > 0 && GrowFails(b, Required(b, pos, payload), mem)
    ensures r.Run? ==> r.b.head == b.head && r.b.bodies == b.bodies && r.b.grower == b.grower
    ensures r.Run? && Required(b, pos, payload) <= 0 ==> r.b.buflen == b.buflen
    ensures r.Run? && r.v.None? && !b.grower.DefaultGrower? ==> r.b == b
    ensures r.Run? && r.v.Some? ==>
              && r.v.value == pos && r.b.live
              && r.b.words == b.words[pos := Header(id, payload)]
              && (!b.grower.CustomGrower? ==> pos + HDR + payload <= r.b.buflen)
  {
    var required := Required(b, pos, payload);
    if required > 0 then
      match b.grower
      case NoGrower => Run(b, None)
      case DefaultGrower =>
        var grown := b.(buflen := b.buflen + GrowBy(required));
        if mem then Attach(grown.(live := true), pos, id, payload)
        else Run(grown.(live := false), None)
      case CustomGrower(f) =>
        match f(b.buflen, required)
        case None => Run(b, None)
        case Some(n) => Attach(b.(buflen := n, live := true), pos, id, payload)
    else if !b.live then Undefined
    else Attach(b, pos, id, payload)
  }

  /**
   blob_buf_init (blob.c:70-81): install the default grower if there is none,
   make offset 0 the head and add an empty attribute there.
   */
  function BufInit(b: BlobBuf, id: int, mem: bool): (r: Run<int>)
    ensures r.Run? ==> r.v == 0 || r.v == -ENOMEM
    ensures r.Run? ==> r.b.head == Some(0) && !r.b.grower.NoGrower?
    ensures b.grower.NoGrower? && r.Run? ==> r.b.grower.DefaultGrower?
    ensures r.Run? && r.v == 0 ==> Read(r.b, 0) == Some(Header(id, 0))
  {
    var b1 := b.(grower := if b.grower.NoGrower? then DefaultGrower else b.grower, head := Some(0));
    match Add(b1, 0, id, 0, mem)
    case Undefined => Undefined
    case Run(b2, None) => Run(b2, -ENOMEM)
    case Run(b2, Some(_)) => Run(b2, 0)
  }

  /** blob_next: the offset just past an attribute's padded length. */
  function NextPos(h: nat, hw: Word): nat
  {
    h + PadLen(hw)
  }

  /**
   blob_new (blob.c:83-94): add an attribute right after the head, then
   extend the head's raw length to its padded length plus the new
   attribute's padded length.
   */
  function New(b: BlobBuf, id: int, payload: int, mem: bool): (r: Run<Option<nat>>)
    ensures (b.head.None? || Read(b, b.head.value).None?) ==> r.Undefined?
    ensures r.Run? ==> r.b.head == b.head && r.b.bodies == b.bodies && r.b.grower == b.grower
    ensures r.Run? && r.v.Some? ==> r.b.live && r.b.words.Keys == b.words.Keys + {r.v.value}
  {
    match b.head
    case None => Undefined
    case Some(h) =>
      match Read(b, h)
      case None => Undefined
      case Some(hw) =>
        match Add(b, NextPos(h, hw), id, payload, mem)
        case Undefined => Undefined
        case Run(b1, None) => Run(b1, None)
        case Run(b1, Some(at)) =>
          var hw1 := b1.words[h];
          var len := U32(PadLen(hw1) + PadLen(b1.words[at]));
          Run(b1.(words := b1.words[h := SetRawLen(hw1, len)]), Some(at))
  }

  /**
   blob_put (blob.c:96-108): blob_new, then copy `len` bytes from `data`
   unless it is NULL.
   */
  function Put(b: BlobBuf, id: int, data: Option<seq<byte>>, len: int, mem: bool): (r: Run<Option<nat>>)
    requires data.Some? ==> 0 <= len <= |data.value|
    ensures r.Run? && r.v.Some? && data.Some? ==> r.b.bodies == b.bodies[r.v.value := Raw(data.value[..len])]
    ensures r.Run? && data.None? ==> r.b.bodies == b.bodies
    ensures r == Undefined <==> New(b, id, len, mem) == Undefined
  {
    match New(b, id, len, mem)
    case Undefined => Undefined
    case Run(b1, None) => Run(b1, None)
    case Run(b1, Some(at)) =>
      if data.Some? then Run(b1.(bodies := b1.bodies[at := Raw(data.value[..len])]), Some(at))
      else Run(b1, Some(at))
  }

  /**
   blob_nest_start (blob.c:110-116): the cookie is the head's offset; the new
   empty attribute becomes the head (NULL if it could not be added).
   */
  function NestStart(b: BlobBuf, id: int, mem: bool): (r: Run<nat>)
    ensures r.Run? ==> Some(r.v) == b.head
    ensures r.Run? ==> New(b, id, 0, mem).Run? && r.b.head == New(b, id, 0, mem).v
  {
    match b.head
    case None => Undefined
    case Some(h) =>
      match New(b, id, 0, mem)
      case Undefined => Undefined
      case Run(b1, at) => Run(b1.(head := at), h)
  }

  /**
   blob_nest_end (blob.c:118-124): the attribute at the cookie gets its padded
   length plus the payload length of the current head, and is the head again.
   None when either word cannot be read.
   */
  function NestEnd(b: BlobBuf, cookie: nat): (r: Option<BlobBuf>)
    ensures r.Some? ==> r.value.head == Some(cookie) && r.value.words.Keys == b.words.Keys
    ensures r.Some? ==> forall o :: o in b.words && o != cookie ==> r.value.words[o] == b.words[o]
    ensures r.Some? <==> Read(b, cookie).Some? && b.head.Some? && Read(b, b.head.value).Some?
  {
    match Read(b, cookie)
    case None => None
    case Some(aw) =>
      match b.head
      case None => None
      case Some(h) =>
        match Read(b, h)
        case None => None
        case Some(hw) =>
          var len := U32(PadLen(aw) + PayloadLen(hw));
          Some(b.(words := b.words[cookie := SetRawLen(aw, len)], head := Some(cookie)))
  }

  /** The header blob_add writes for a payload that fits holds its id and the payload plus header length. */
  lemma HeaderLen(id: int, payload: int)
    requires 0 <= payload && payload + HDR < LEN_RANGE
    ensures RawLen(Header(id, payload)) == payload + HDR
    ensures PadLen(Header(id, payload)) == Pad(payload + HDR)
    ensures Header(id, payload).id == id % ID_RANGE
  {
  }
}
