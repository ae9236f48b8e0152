/**
 What the builder keeps true of a buffer: every attribute still open — the
 head and the attributes blob_nest_start left behind — spans exactly the
 attributes written inside it, laid end to end at their padded lengths.
 blob_new, blob_nest_start and blob_nest_end each keep this, as long as the
 lengths they compute fit the 24-bit length field.

 An open attribute may begin its payload with bytes that are not attributes
 (a blobmsg table's name header); its frame records how many.
 */
module BlobNest {
  import opened Wrappers
  import opened CArith
  import opened BlobLayout
  import opened Blob

  /** An open attribute: its offset, and the payload bytes before its first nested attribute. */
  datatype Frame = Frame(at: nat, skip: nat)

  /** The innermost open attribute. */
  function Top(stack: seq<Frame>): Frame
    requires |stack| > 0
  {
    stack[|stack| - 1]
  }

  /** The attributes from `from` on lie end to end and the last one ends exactly at `end`. */
  predicate Tiled(words: map<nat, Word>, from: nat, end: nat)
    decreases end - from
  {
    from == end || (from < end && from in words && PadLen(words[from]) > 0 && Tiled(words, from + PadLen(words[from]), end))
  }

  /** An attribute whose raw length covers its header, its skipped bytes and exactly the attributes after them. */
  predicate Closed(words: map<nat, Word>, f: Frame) {
    && f.at in words
    && RawLen(words[f.at]) % ALIGN == 0
    && Tiled(words, f.at + HDR + f.skip, f.at + RawLen(words[f.at]))
  }

  /**
   An attribute left open by blob_nest_start: its contents end with the
   header of `inner`, the attribute nested in it, whose length it does not
   know yet.
   */
  predicate OpenAround(words: map<nat, Word>, f: Frame, inner: nat) {
    && f.at in words
    && RawLen(words[f.at]) % ALIGN == 0
    && f.at + RawLen(words[f.at]) == inner + HDR
    && Tiled(words, f.at + HDR + f.skip, inner)
  }

  /** The open attribute at position `i` of the stack is open around the next one. */
  predicate Level(words: map<nat, Word>, stack: seq<Frame>, i: int) {
    0 <= i < |stack| - 1 && OpenAround(words, stack[i], stack[i + 1].at)
  }

  /** Each of the open attributes but the last is open around the next. */
  predicate Levels(words: map<nat, Word>, stack: seq<Frame>) {
    forall i :: 0 <= i < |stack| - 1 ==> Level(words, stack, i)
  }

  /**
   A buffer under construction with `stack` the open attributes, outermost
   first: the last is the head and is closed, each other one is open around
   the next.
   */
  predicate Building(b: BlobBuf, stack: seq<Frame>) {
    && b.live && |stack| > 0
    && b.head == Some(Top(stack).at)
    && Closed(b.words, Top(stack))
    && Levels(b.words, stack)
  }

  /** Words outside [from, end) do not matter to a tiling of it. */
  lemma {:induction false} TiledFrame(words: map<nat, Word>, words2: map<nat, Word>, from: nat, end: nat)
    requires Tiled(words, from, end)
    requires forall o :: from <= o < end && o in words ==> o in words2 && words2[o] == words[o]
    ensures Tiled(words2, from, end)
    decreases end - from
  {
    if from != end {
      TiledFrame(words, words2, from + PadLen(words[from]), end);
    }
  }

  /** A word outside [from, end) can be changed without disturbing a tiling of it. */
  lemma TiledUpdate(words: map<nat, Word>, from: nat, end: nat, k: nat, w: Word)
    requires Tiled(words, from, end) && (k < from || end <= k)
    ensures Tiled(words[k := w], from, end)
  {
    TiledFrame(words, words[k := w], from, end);
  }

  /** An attribute of an aligned length, tiled from its skipped bytes up to its end, is closed. */
  lemma ClosedOf(words: map<nat, Word>, f: Frame, len: nat)
    requires f.at in words && RawLen(words[f.at]) == len && len % ALIGN == 0
    requires Tiled(words, f.at + HDR + f.skip, f.at + len)
    ensures Closed(words, f)
  {
  }

  /** A tiling stays at or below its end. */
  lemma {:induction false} TiledBounds(words: map<nat, Word>, from: nat, end: nat)
    requires Tiled(words, from, end)
    ensures from <= end
    decreases end - from
  {
    if from != end {
      TiledBounds(words, from + PadLen(words[from]), end);
    }
  }

  /** One more attribute at the end of a tiling extends it by its padded length. */
  lemma {:induction false} TiledAppend(words: map<nat, Word>, from: nat, end: nat)
    requires Tiled(words, from, end)
    requires end in words && PadLen(words[end]) > 0
    ensures Tiled(words, from, end + PadLen(words[end]))
    decreases end - from
  {
    if from != end {
      TiledAppend(words, from + PadLen(words[from]), end);
    }
  }

  /** The open attributes lie at increasing offsets, at least a header apart. */
  lemma {:induction false} StackAbove(words: map<nat, Word>, stack: seq<Frame>, i: nat)
    requires Levels(words, stack)
    requires i < |stack| - 1
    ensures stack[i].at + HDR <= stack[i + 1].at <= Top(stack).at
    decreases |stack| - i
  {
    assert Level(words, stack, i);
    TiledBounds(words, stack[i].at + HDR + stack[i].skip, stack[i + 1].at);
    if i + 1 < |stack| - 1 {
      StackAbove(words, stack, i + 1);
    }
  }

  /** Changing words at or after the last open attribute keeps every level as it was. */
  lemma LevelsFrame(words: map<nat, Word>, words2: map<nat, Word>, stack: seq<Frame>)
    requires Levels(words, stack) && |stack| > 0
    requires forall o :: o < Top(stack).at && o in words ==> o in words2 && words2[o] == words[o]
    ensures Levels(words2, stack)
  {
    forall i | 0 <= i < |stack| - 1 ensures Level(words2, stack, i) {
      assert Level(words, stack, i);
      StackAbove(words, stack, i);
      TiledFrame(words, words2, stack[i].at + HDR + stack[i].skip, stack[i + 1].at);
    }
  }

  /** A prefix of the open attributes is still a chain of levels. */
  lemma LevelsPrefix(words: map<nat, Word>, stack: seq<Frame>, k: nat)
    requires Levels(words, stack) && k <= |stack|
    ensures Levels(words, stack[..k])
  {
    var st := stack[..k];
    forall i | 0 <= i < |st| - 1 ensures Level(words, st, i) {
      assert Level(words, stack, i);
      assert st[i] == stack[i] && st[i + 1] == stack[i + 1];
    }
  }

  /** A level open around a new attribute can be stacked on top of the others. */
  lemma LevelsPush(words: map<nat, Word>, stack: seq<Frame>, f: Frame)
    requires Levels(words, stack) && |stack| > 0
    requires OpenAround(words, Top(stack), f.at)
    ensures Levels(words, stack + [f])
  {
    var st := stack + [f];
    forall i | 0 <= i < |st| - 1 ensures Level(words, st, i) {
      if i < |stack| - 1 {
        assert Level(words, stack, i);
        assert st[i] == stack[i] && st[i + 1] == stack[i + 1];
      }
    }
  }

  /** blob_buf_init leaves a buffer with one empty open attribute, the head at offset 0. */
  lemma BufInitBuilding(b: BlobBuf, id: int, mem: bool)
    requires BufInit(b, id, mem).Run? && BufInit(b, id, mem).v == 0
    ensures Building(BufInit(b, id, mem).b, [Frame(0, 0)])
  {
    var r := BufInit(b, id, mem);
    assert RawLen(r.b.words[0]) == HDR;
  }

  /** What blob_new writes: the attribute at blob_next of the head, then the head's new length. */
  lemma NewWords(b: BlobBuf, id: int, payload: int, mem: bool)
    requires b.head.Some? && Read(b, b.head.value).Some? && PadLen(b.words[b.head.value]) > 0
    requires New(b, id, payload, mem).Run? && New(b, id, payload, mem).v.Some?
    ensures var h, hw := b.head.value, b.words[b.head.value];
            var pos := NextPos(h, hw);
            var r := New(b, id, payload, mem);
            && r.v.value == pos && r.b.live && r.b.head == b.head
            && r.b.words == b.words[pos := Header(id, payload)][h := SetRawLen(hw, U32(PadLen(hw) + PadLen(Header(id, payload))))]
  {
  }

  /**
   Appending an attribute right after a closed attribute and adding its
   padded length to the closed one's keeps it closed.
   */
  lemma AppendClosed(words: map<nat, Word>, f: Frame, aw: Word)
    requires Closed(words, f)
    requires PadLen(aw) > 0 && RawLen(words[f.at]) + PadLen(aw) < LEN_RANGE
    ensures var pos := f.at + RawLen(words[f.at]);
            var len := RawLen(words[f.at]) + PadLen(aw);
            Closed(words[pos := aw][f.at := SetRawLen(words[f.at], len)], f)
  {
    var h: nat := f.at;
    var hw := words[h];
    var pos := h + RawLen(hw);
    var len := RawLen(hw) + PadLen(aw);
    var nw := SetRawLen(hw, len);
    var w1 := words[pos := aw];
    assert RawLen(nw) == len;
    TiledUpdate(words, h + HDR + f.skip, pos, pos, aw);
    assert w1[pos] == aw;
    TiledAppend(w1, h + HDR + f.skip, pos);
    assert pos + PadLen(aw) == h + len;
    TiledUpdate(w1, h + HDR + f.skip, h + len, h, nw);
    var w2 := w1[h := nw];
    assert w2[h] == nw;
    AlignedAdd(RawLen(hw), PadLen(aw));
    ClosedOf(w2, f, len);
  }

  /**
   Appending after the head of a well-built buffer and growing the head
   keeps the buffer well built.
   */
  lemma AppendBuilding(b: BlobBuf, stack: seq<Frame>, aw: Word, b2: BlobBuf)
    requires Building(b, stack)
    requires PadLen(aw) > 0 && RawLen(b.words[Top(stack).at]) + PadLen(aw) < LEN_RANGE
    requires b2.live && b2.head == b.head
    requires var h := Top(stack).at;
             var hw := b.words[h];
             b2.words == b.words[h + RawLen(hw) := aw][h := SetRawLen(hw, U32(PadLen(hw) + PadLen(aw)))]
    ensures Building(b2, stack)
    ensures RawLen(b2.words[Top(stack).at]) == RawLen(b.words[Top(stack).at]) + PadLen(aw)
  {
    var h: nat := Top(stack).at;
    PadAligned(RawLen(b.words[h]));
    AppendClosed(b.words, Top(stack), aw);
    LevelsFrame(b.words, b2.words, stack);
  }

  /** A result of the shape NewWords describes, on a well-built buffer, is well built. */
  lemma NewResultBuilding(b: BlobBuf, stack: seq<Frame>, id: int, payload: int, r: Run<Option<nat>>)
    requires Building(b, stack)
    requires 0 <= payload && RawLen(b.words[Top(stack).at]) + Pad(payload + HDR) < LEN_RANGE
    requires r.Run? && r.v.Some?
    requires var h, hw := b.head.value, b.words[b.head.value];
             var pos := NextPos(h, hw);
             && r.v.value == pos && r.b.live && r.b.head == b.head
             && r.b.words == b.words[pos := Header(id, payload)][h := SetRawLen(hw, U32(PadLen(hw) + PadLen(Header(id, payload))))]
    ensures Building(r.b, stack)
    ensures r.v.value == Top(stack).at + RawLen(b.words[Top(stack).at])
    ensures RawLen(r.b.words[Top(stack).at]) == RawLen(b.words[Top(stack).at]) + Pad(payload + HDR)
  {
    var h: nat := Top(stack).at;
    PadAligned(RawLen(b.words[h]));
    HeaderLen(id, payload);
    AppendBuilding(b, stack, Header(id, payload), r.b);
  }

  /**
   blob_new of a payload that fits keeps the buffer well built: the new
   attribute lands where the head ends, and the head grows by its padded
   length and still spans exactly its contents; no open level moves.
   */
  lemma NewBuilding(b: BlobBuf, stack: seq<Frame>, id: int, payload: int, mem: bool)
    requires Building(b, stack)
    requires 0 <= payload && RawLen(b.words[Top(stack).at]) + Pad(payload + HDR) < LEN_RANGE
    requires New(b, id, payload, mem).Run? && New(b, id, payload, mem).v.Some?
    ensures var r := New(b, id, payload, mem);
            && Building(r.b, stack)
            && r.v.value == Top(stack).at + RawLen(b.words[Top(stack).at])
            && RawLen(r.b.words[Top(stack).at]) == RawLen(b.words[Top(stack).at]) + Pad(payload + HDR)
  {
    PadAligned(RawLen(b.words[b.head.value]));
    NewWords(b, id, payload, mem);
    NewResultBuilding(b, stack, id, payload, New(b, id, payload, mem));
  }

  /** What blob_nest_start writes: blob_new's words, with the new attribute as head. */
  lemma NestStartWords(b: BlobBuf, id: int, mem: bool)
    requires b.head.Some? && Read(b, b.head.value).Some? && PadLen(b.words[b.head.value]) > 0
    requires NestStart(b, id, mem).Run? && NestStart(b, id, mem).b.head.Some?
    ensures var h, hw := b.head.value, b.words[b.head.value];
            var s := NestStart(b, id, mem);
            && s.v == h && s.b.live && s.b.head == Some(NextPos(h, hw))
            && s.b.words == b.words[NextPos(h, hw) := Header(id, 0)][h := SetRawLen(hw, U32(PadLen(hw) + PadLen(Header(id, 0))))]
  {
    NewWords(b, id, 0, mem);
  }

  /**
   A new attribute of raw length `HDR + skip` right after the head, with the
   head grown by just the new header, is a new closed level over the old
   head, which is then open around it.
   */
  lemma OpenedBuilding(b: BlobBuf, stack: seq<Frame>, hdr: Word, skip: nat, b2: BlobBuf)
    requires Building(b, stack)
    requires RawLen(b.words[Top(stack).at]) + HDR < LEN_RANGE
    requires RawLen(hdr) == HDR + skip && skip % ALIGN == 0
    requires var h := Top(stack).at;
             var hw := b.words[h];
             && b2.live && b2.head == Some(h + RawLen(hw))
             && b2.words == b.words[h + RawLen(hw) := hdr][h := SetRawLen(hw, RawLen(hw) + HDR)]
    ensures Building(b2, stack + [Frame(b2.head.value, skip)])
  {
    var h: nat := Top(stack).at;
    var hw := b.words[h];
    var inner := h + RawLen(hw);
    var nw := SetRawLen(hw, RawLen(hw) + HDR);
    var w1 := b.words[inner := hdr];
    assert b2.words == w1[h := nw];
    assert RawLen(nw) == RawLen(hw) + HDR;
    AlignedAdd(RawLen(hw), HDR);
    AlignedAdd(HDR, skip);
    assert b2.words[h] == nw;
    TiledUpdate(b.words, h + HDR + Top(stack).skip, inner, inner, hdr);
    TiledUpdate(w1, h + HDR + Top(stack).skip, inner, h, nw);
    assert OpenAround(b2.words, Top(stack), inner);
    assert b2.words[inner] == hdr;
    assert Closed(b2.words, Frame(inner, skip));
    LevelsFrame(b.words, b2.words, stack);
    LevelsPush(b2.words, stack, Frame(inner, skip));
  }

  /**
   blob_nest_start keeps the buffer well built with the new empty attribute
   as the head and the old head open around it; the cookie is the old head.
   */
  lemma NestStartBuilding(b: BlobBuf, stack: seq<Frame>, id: int, mem: bool)
    requires Building(b, stack)
    requires RawLen(b.words[Top(stack).at]) + HDR < LEN_RANGE
    requires NestStart(b, id, mem).Run? && NestStart(b, id, mem).b.head.Some?
    ensures var s := NestStart(b, id, mem);
            && s.v == Top(stack).at
            && Building(s.b, stack + [Frame(s.b.head.value, 0)])
  {
    var hw := b.words[b.head.value];
    PadAligned(RawLen(hw));
    NestStartWords(b, id, mem);
    HeaderLen(id, 0);
    PadAligned(HDR);
    OpenedBuilding(b, stack, Header(id, 0), 0, NestStart(b, id, mem).b);
  }

  /**
   The length blob_nest_end computes for an open attribute is the distance
   from it to the end of the attribute nested in it.
   */
  lemma CloseLen(cw: Word, iw: Word, c: nat, inner: nat)
    requires RawLen(cw) >= HDR && RawLen(cw) % ALIGN == 0 && c + RawLen(cw) == inner + HDR
    requires RawLen(iw) >= HDR && RawLen(iw) % ALIGN == 0 && inner + RawLen(iw) - c < LEN_RANGE
    ensures U32(PadLen(cw) + PayloadLen(iw)) == inner + RawLen(iw) - c
    ensures SetRawLen(cw, U32(PadLen(cw) + PayloadLen(iw))) == SetRawLen(cw, inner + RawLen(iw) - c)
    ensures RawLen(SetRawLen(cw, inner + RawLen(iw) - c)) == inner + RawLen(iw) - c
    ensures (inner + RawLen(iw) - c) % ALIGN == 0
  {
    PadAligned(RawLen(cw));
    assert inner + RawLen(iw) - c == (RawLen(cw) - HDR) + RawLen(iw);
    AlignedAdd(RawLen(cw) - HDR, RawLen(iw));
  }

  /** Giving an open attribute an aligned length that reaches the end of the closed attribute nested in it closes it. */
  lemma CloseAroundAt(words: map<nat, Word>, f: Frame, g: Frame, len: nat)
    requires OpenAround(words, f, g.at) && Closed(words, g)
    requires len == g.at + RawLen(words[g.at]) - f.at && len % ALIGN == 0
    requires RawLen(SetRawLen(words[f.at], len)) == len
    ensures Closed(words[f.at := SetRawLen(words[f.at], len)], f)
  {
    var c, inner := f.at, g.at;
    var nw := SetRawLen(words[c], len);
    TiledBounds(words, inner + HDR + g.skip, inner + RawLen(words[inner]));
    PadAligned(RawLen(words[inner]));
    TiledAppend(words, c + HDR + f.skip, inner);
    TiledUpdate(words, c + HDR + f.skip, c + len, c, nw);
    ClosedOf(words[c := nw], f, len);
  }

  /**
   Giving an open attribute the length blob_nest_end computes from the closed
   attribute nested in it closes it: that length reaches the nested
   attribute's end.
   */
  lemma CloseAround(words: map<nat, Word>, f: Frame, g: Frame)
    requires OpenAround(words, f, g.at) && Closed(words, g)
    requires g.at + RawLen(words[g.at]) - f.at < LEN_RANGE
    ensures var cw, iw := words[f.at], words[g.at];
            var e := words[f.at := SetRawLen(cw, U32(PadLen(cw) + PayloadLen(iw)))];
            && Closed(e, f)
            && RawLen(e[f.at]) == g.at + RawLen(iw) - f.at
  {
    var c, inner := f.at, g.at;
    var cw, iw := words[c], words[inner];
    TiledBounds(words, c + HDR + f.skip, inner);
    TiledBounds(words, inner + HDR + g.skip, inner + RawLen(iw));
    CloseLen(cw, iw, c, inner);
    CloseAroundAt(words, f, g, inner + RawLen(iw) - c);
  }

  /** What blob_nest_end writes: the cookie's new length, and the cookie as head. */
  lemma NestEndWords(b: BlobBuf, cookie: nat)
    requires NestEnd(b, cookie).Some?
    ensures var e := NestEnd(b, cookie).value;
            var cw, hw := b.words[cookie], b.words[b.head.value];
            && e.live && e.head == Some(cookie)
            && e.words == b.words[cookie := SetRawLen(cw, U32(PadLen(cw) + PayloadLen(hw)))]
  {
  }

  /**
   A result of the shape NestEndWords describes, with the cookie the level
   below the head, is well built with the head's level popped.
   */
  lemma ClosedBuilding(b: BlobBuf, stack: seq<Frame>, e: BlobBuf)
    requires Building(b, stack) && |stack| >= 2 && Level(b.words, stack, |stack| - 2)
    requires Top(stack).at + RawLen(b.words[Top(stack).at]) - stack[|stack| - 2].at < LEN_RANGE
    requires var c, hw := stack[|stack| - 2].at, b.words[Top(stack).at];
             var cw := b.words[c];
             && e.live && e.head == Some(c)
             && e.words == b.words[c := SetRawLen(cw, U32(PadLen(cw) + PayloadLen(hw)))]
    ensures Building(e, stack[..|stack| - 1])
    ensures RawLen(e.words[stack[|stack| - 2].at]) == Top(stack).at + RawLen(b.words[Top(stack).at]) - stack[|stack| - 2].at
  {
    var k := |stack| - 1;
    var f := stack[k - 1];
    assert Level(b.words, stack, k - 1);
    CloseAround(b.words, f, stack[k]);
    var st := stack[..k];
    assert |st| == k && Top(st) == f;
    LevelsPrefix(b.words, stack, k);
    LevelsFrame(b.words, e.words, st);
  }

  /**
   blob_nest_end with the cookie blob_nest_start returned keeps the buffer
   well built: the attribute it reopens now spans the nested attribute's
   whole length and is the head again.
   */
  lemma NestEndBuilding(b: BlobBuf, stack: seq<Frame>)
    requires Building(b, stack) && |stack| >= 2
    requires Top(stack).at + RawLen(b.words[Top(stack).at]) - stack[|stack| - 2].at < LEN_RANGE
    ensures var e := NestEnd(b, stack[|stack| - 2].at);
            && e.Some?
            && Building(e.value, stack[..|stack| - 1])
            && RawLen(e.value.words[stack[|stack| - 2].at]) == Top(stack).at + RawLen(b.words[Top(stack).at]) - stack[|stack| - 2].at
  {
    var c := stack[|stack| - 2].at;
    assert Level(b.words, stack, |stack| - 2);
    NestEndWords(b, c);
    ClosedBuilding(b, stack, NestEnd(b, c).value);
  }
}
