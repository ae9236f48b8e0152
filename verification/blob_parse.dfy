/**
 blob_parse (blob.c:126-177): sorting the attributes of a container into a
 table indexed by id, keeping only those that pass the type rules and the
 caller's policy.

 The attribute types are those of libubox's blob.h (not part of this model):
 UNSPEC 0, NESTED 1, BINARY 2, STRING 3, INT8 4, INT16 5, INT32 6, INT64 7,
 and BLOB_ATTR_LAST 8.  Walking the container (blob_for_each_attr) is left to
 the caller: the attributes arrive as a sequence.
 */
module BlobParse {
  import opened Wrappers
  import opened CArith
  import opened BlobLayout

  const STRING: nat := 3
  const INT8: nat := 4
  const INT16: nat := 5
  const INT32: nat := 6
  const INT64: nat := 7
  const ATTR_LAST: nat := 8

  /** blob_type_minlen (blob.c:126-132): entries that are not listed are zero. */
  function TypeMinLen(t: nat): nat {
    if t == STRING then 1
    else if t == INT8 then 1
    else if t == INT16 then 2
    else if t == INT32 then 4
    else if t == INT64 then 8
    else 0
  }

  /** An attribute: its header word and its payload. */
  datatype Attr = Attr(w: Word, body: seq<byte>)

  /**
   A `struct blob_attr_info`: the expected type, nonzero length bounds and an
   optional validator.  The validator's first argument, the info itself, is
   left out: a Dafny closure can capture whatever it needs.
   */
  datatype Info = Info(kind: u32, minlen: u32, maxlen: u32, validate: Option<Attr -> bool>)

  /** The policy table covers every id below `max`, and every type fits an `int`. */
  predicate InfoFits(info: Option<seq<Info>>, max: nat) {
    info.Some? ==>
      && |info.value| >= max
      && forall i :: 0 <= i < max ==> info.value[i].kind < 0x8000_0000
  }

  /** `int len = blob_len(pos)`: the unsigned payload length read as an int. */
  function SignedLen(a: Attr): int {
    I32(PayloadLen(a.w))
  }

  /**
   The type rule (blob.c:150-159): integer types need exactly their size,
   the other known types at least their minimum, unknown types anything.
   */
  predicate TypeFits(kind: nat, len: int) {
    if kind >= ATTR_LAST then true
    else if INT8 <= kind <= INT64 then len == TypeMinLen(kind)
    else len >= TypeMinLen(kind)
  }

  /**
   The policy checks of blob.c:150-168 for attribute `a`, the validator being
   shown `shown`.  `len < minlen` compares an int with an unsigned int, so the
   length is compared as unsigned.
   */
  predicate PolicyOk(inf: Info, a: Attr, shown: Attr)
    requires inf.kind < 0x8000_0000
  {
    && TypeFits(inf.kind, SignedLen(a))
    && !(inf.minlen != 0 && PayloadLen(a.w) < inf.minlen)
    && !(inf.maxlen != 0 && PayloadLen(a.w) > inf.maxlen)
    && (inf.validate.Some? ==> inf.validate.value(shown))
  }

  /** Whether blob_parse keeps `a`, with the validator shown `shown`. */
  predicate Accepts(info: Option<seq<Info>>, max: nat, a: Attr, shown: Attr)
    requires InfoFits(info, max)
  {
    a.w.id < max && (info.None? || PolicyOk(info.value[a.w.id], a, shown))
  }

  /** As written (blob.c:167), the validator is handed the container, not the attribute. */
  predicate KeepsAsWritten(info: Option<seq<Info>>, max: nat, container: Attr, a: Attr)
    requires InfoFits(info, max)
  {
    Accepts(info, max, a, container)
  }

  /** The attribute a validator judges is the attribute being kept. */
  predicate Keeps(info: Option<seq<Info>>, max: nat, a: Attr)
    requires InfoFits(info, max)
  {
    Accepts(info, max, a, a)
  }

  /** The index of the last attribute among the first `n` that is kept with id `id`. */
  function LastKept(info: Option<seq<Info>>, max: nat, attrs: seq<Attr>, n: nat, id: nat): (r: Option<nat>)
    requires InfoFits(info, max) && n <= |attrs|
  {
    if n == 0 then None
    else if Keeps(info, max, attrs[n - 1]) && attrs[n - 1].w.id == id then Some(n - 1)
    else LastKept(info, max, attrs, n - 1, id)
  }

  /** The number of filled entries. */
  function Filled(data: seq<Option<nat>>): (r: nat)
    ensures r <= |data|
  {
    if data == [] then 0 else (if data[0].Some? then 1 else 0) + Filled(data[1..])
  }

  /** Filling one entry raises the count by one exactly when it was empty. */
  lemma {:induction false} FilledUpdate(data: seq<Option<nat>>, i: nat, x: nat)
    requires i < |data|
    ensures Filled(data[i := Some(x)]) == Filled(data) + (if data[i].None? then 1 else 0)
  {
    if i > 0 {
      FilledUpdate(data[1..], i - 1, x);
      assert data[i := Some(x)][1..] == data[1..][i - 1 := Some(x)];
    } else {
      assert data[i := Some(x)][1..] == data[1..];
    }
  }

  /** A table of empty entries has nothing filled. */
  lemma {:induction false} FilledNone(data: seq<Option<nat>>)
    requires forall i :: 0 <= i < |data| ==> data[i].None?
    ensures Filled(data) == 0
  {
    if data != [] {
      FilledNone(data[1..]);
    }
  }

  /**
   blob_parse (blob.c:134-177), validating each attribute itself: `data[id]`
   ends up the last attribute kept with that id, ids at or above `max` are
   ignored, and `found` counts the ids that were filled.
   */
  method Parse(info: Option<seq<Info>>, max: nat, attrs: seq<Attr>) returns (data: seq<Option<nat>>, found: nat)
    requires InfoFits(info, max)
    ensures |data| == max
    ensures forall id :: 0 <= id < max ==> data[id] == LastKept(info, max, attrs, |attrs|, id)
    ensures found == Filled(data)
  {
    data := seq(max, _ => None);
    found := 0;
    FilledNone(data);
    var k := 0;
    while k < |attrs|
      invariant k <= |attrs| && |data| == max
      invariant forall id :: 0 <= id < max ==> data[id] == LastKept(info, max, attrs, k, id)
      invariant found == Filled(data)
    {
      var pos := attrs[k];
      var id := pos.w.id;
      if Keeps(info, max, pos) {
        FilledUpdate(data, id, k);
        if data[id].None? {
          found := found + 1;
        }
        data := data[id := Some(k)];
      }
      k := k + 1;
    }
  }

  /**
   What `LastKept` finds: an attribute that is kept with the id and that no
   later kept attribute with the same id replaces; None when there is none.
   */
  lemma {:induction false} LastKeptSpec(info: Option<seq<Info>>, max: nat, attrs: seq<Attr>, n: nat, id: nat)
    requires InfoFits(info, max) && n <= |attrs|
    ensures var r := LastKept(info, max, attrs, n, id);
            && (r.Some? ==> r.value < n && attrs[r.value].w.id == id && Keeps(info, max, attrs[r.value]))
            && (r.Some? ==> forall j :: r.value < j < n ==> !(Keeps(info, max, attrs[j]) && attrs[j].w.id == id))
            && (r.None? <==> forall j :: 0 <= j < n ==> !(Keeps(info, max, attrs[j]) && attrs[j].w.id == id))
  {
    if n > 0 {
      LastKeptSpec(info, max, attrs, n - 1, id);
    }
  }

  /**
   What blob_parse keeps meets the policy: its id is below `max`, an integer
   type has exactly its size, another known type at least its minimum, the
   nonzero bounds hold, and the validator accepted that very attribute.
   */
  lemma KeepsSpec(info: Option<seq<Info>>, max: nat, a: Attr)
    requires InfoFits(info, max) && Keeps(info, max, a)
    ensures a.w.id < max
    ensures info.Some? ==>
              var inf := info.value[a.w.id];
              && (INT8 <= inf.kind <= INT64 ==> PayloadLen(a.w) == TypeMinLen(inf.kind))
              && (inf.kind < ATTR_LAST ==> PayloadLen(a.w) >= TypeMinLen(inf.kind))
              && (inf.minlen != 0 ==> PayloadLen(a.w) >= inf.minlen)
              && (inf.maxlen != 0 ==> PayloadLen(a.w) <= inf.maxlen)
              && (inf.validate.Some? ==> inf.validate.value(a))
  {
  }

  /** Without a policy table every attribute with an id below `max` is kept. */
  lemma KeepsWithoutInfo(max: nat, a: Attr)
    ensures Keeps(None, max, a) <==> a.w.id < max
  {
  }

  /**
   As written, an attribute the validator rejects is kept whenever the
   validator accepts the container: here a validator that accepts only
   attributes with id 1, a container with id 1 and an attribute with id 0.
   */
  lemma ValidatorSeesContainer()
    ensures var v := (a: Attr) => a.w.id == 1;
            var info := Some([Info(0, 0, 0, Some(v))]);
            var container := Attr(Word(1, HDR + HDR), [0, 0, 0, 0]);
            var a := Attr(Word(0, HDR), []);
            && KeepsAsWritten(info, 1, container, a) && !v(a)
            && !Keeps(info, 1, a)
  {
  }
}
