/**
 Growth: uhtbl_resize with its rehash, uhtbl_set with the automatic growth
 it falls back on when the array is full, and uhtbl_init.

 calloc is an oracle: `allocs` lists its answers in call order (true: the
 allocation succeeds), and an exhausted list answers failure.  Each growth
 consumes one answer, which is also what bounds the retries of uhtbl_set.
 */
module UhtblGrowth {
  import opened Wrappers
  import opened UhtblFlags
  import opened UhtblKey
  import opened Uhtbl
  import opened UhtblShape
  import opened UhtblInsert
  import opened UhtblPlace
  import opened UhtblScan

  /** What resize and set lead to. */
  datatype Outcome =
    | Done(code: int, t: Table, allocs: seq<bool>)  // status code, resulting table, calloc answers left
    | Undefined                                    // a modulo by a zero payload, or a NULL bucket written

  /**
   The array uhtbl_resize allocates (uhtbl.c:208, 219-223): `size` zeroed
   buckets, `used` 0, `nextfree` at the last bucket (size - 1 as a uint32_t).
   */
  function Fresh(cfg: Config, t: Table, payload: nat, size: nat): (r: Table)
    ensures |r.buckets| == size && r.payload == payload && r.used == 0 && r.gcLog == t.gcLog
    ensures forall i :: 0 <= i < size ==> r.buckets[i].flags == NoFlags && KeyForm(r.buckets[i])
  {
    Table(seq(size, _ => ZeroBucket(cfg)), payload, 0, if size > 0 then size - 1 else SIZE_LIMIT - 1, t.gcLog)
  }

  /** The copy of user byte and payload behind the header (uhtbl.c:233-236). */
  function CopyPayload(t: Table, at: nat, src: Bucket): (r: Table)
    requires WellFormed(t) && at < |t.buckets|
    ensures WellFormed(r) && |r.buckets| == |t.buckets| && r.payload == t.payload && r.used == t.used
    ensures EntryOf(r.buckets[at]) == EntryOf(t.buckets[at]).(user := src.user, data := src.data)
  {
    var b := t.buckets[at];
    t.(buckets := t.buckets[at := b.(user := src.user, data := src.data)])
  }

  /**
   The rehash loop of uhtbl_resize (uhtbl.c:225-238): every bucket of `order`
   in the old array is set again in `cur`, then its user byte and payload are
   copied over.  `None` when a set did not hand back a bucket, where the C
   code would write through NULL, or when an old header cannot be read back
   as a key; neither happens to a valid table (`RehashSpec`).
   */
  function Rehash(cfg: Config, prior: Table, cur: Table, order: seq<nat>): (r: Option<Table>)
    requires WellFormed(cur)
    requires forall i :: 0 <= i < |order| ==> order[i] < |prior.buckets|
    ensures r.Some? ==> WellFormed(r.value) && |r.value.buckets| == |cur.buckets| && r.value.payload == cur.payload
    decreases |order|
  {
    if order == [] then Some(cur)
    else
      var src := prior.buckets[order[0]];
      if !KeyForm(src) then None
      else match Place(cfg, cur, KeyOf(src))
      case Placed(t2, at) => Rehash(cfg, prior, CopyPayload(t2, at, src), order[1..])
      case _ => None
  }

  /**
   uhtbl_resize (uhtbl.c:199-242) to `payload` hash-addressable buckets,
   `cfg.sizeFor(payload)` in all.
   */
  function Resize(cfg: Config, t: Table, payload: u32, allocs: seq<bool>): (r: Outcome)
    ensures t.used == 0 ==> r.Done?
    ensures r.Done? ==> r.code in {UHTBL_OK, UHTBL_EINVAL, UHTBL_ENOMEM} && |r.allocs| <= |allocs|
    ensures r.Done? && r.code != UHTBL_OK ==> r.t == t
    ensures r.Done? && r.code == UHTBL_OK && payload == t.payload ==> r.t == t
    ensures r.Done? && r.code == UHTBL_OK && payload != t.payload ==>
              && |r.allocs| < |allocs| && r.t.payload == payload
              && (payload > 0 ==> WellFormed(r.t))
  {
    var size := cfg.sizeFor(payload);
    if size < payload || size < t.used then Done(UHTBL_EINVAL, t, allocs)
    else if payload == t.payload then Done(UHTBL_OK, t, allocs)
    else if allocs == [] || !allocs[0] then Done(UHTBL_ENOMEM, t, if allocs == [] then [] else allocs[1..])
    else
      var grown := Fresh(cfg, t, payload, size);
      if t.used == 0 then Done(UHTBL_OK, grown, allocs[1..])
      else if payload == 0 then Undefined
      else
        var order := Scan(t, 0);
        ScanMembers(t, 0);
        assert forall i :: 0 <= i < |order| ==> order[i] in order;
        match Rehash(cfg, t, grown, order)
        case Some(r) => Done(UHTBL_OK, r, allocs[1..])
        case None => Undefined
  }

  /**
   The grown payload `payload * UHTBL_GROWFACTOR` as a uint32_t
   (uhtbl.c:107, 121).  It always differs from the old payload, so a
   resize to it never takes the "same payload" shortcut.
   */
  function Doubled(payload: nat): (r: u32)
    requires 0 < payload < SIZE_LIMIT
    ensures r != payload
    ensures payload < SIZE_LIMIT / GROW_FACTOR ==> r == payload * GROW_FACTOR
  {
    var r := (payload * GROW_FACTOR) % SIZE_LIMIT;
    assert r != payload by {
      if payload * GROW_FACTOR >= SIZE_LIMIT { assert r == payload * GROW_FACTOR - SIZE_LIMIT; }
    }
    r
  }

  /**
   uhtbl_set (uhtbl.c:68-149) with its growth fallback (uhtbl.c:106-111,
   120-125): when no bucket is free the payload is doubled as a uint32_t
   and, if that resize succeeds, the set is retried on the grown table.
   */
  function Set(cfg: Config, t: Table, k: Key, allocs: seq<bool>): (r: (Outcome, Option<nat>))
    requires WellFormed(t) && ValidKey(k)
    decreases |allocs|
  {
    match Place(cfg, t, k)
    case Placed(t2, at) => (Done(UHTBL_OK, t2, allocs), Some(at))
    case Diverges => (Undefined, None)
    case NoRoom =>
      match Resize(cfg, t, Doubled(t.payload), allocs)
      case Done(code, t3, rest) =>
        if code != UHTBL_OK then (Done(code, t3, rest), None)
        else if t3.payload == 0 then (Undefined, None)
        else Set(cfg, t3, k, rest)
      case Undefined => (Undefined, None)
  }

  /**
   uhtbl_init (uhtbl.c:36-50): a zero size hint means UHTBL_MINIMUMSIZE; a
   missing hash function or a bucket smaller than the header is EINVAL;
   otherwise the table is the result of a first resize of an empty one.
   */
  function Init(bucketSize: nat, sizehint: u32, hash: Option<seq<byte> -> u32>, hasGc: bool,
                sizeFor: u32 -> u32, allocs: seq<bool>): (r: (int, Option<(Config, Table)>))
    ensures r.1.Some? <==> r.0 == UHTBL_OK
  {
    var hint := if sizehint == 0 then MINIMUM_SIZE else sizehint;
    if hash.None? || bucketSize < HEAD_SIZE then (UHTBL_EINVAL, None)
    else
      var cfg := Config(hash.value, hasGc, sizeFor, bucketSize);
      var o := Resize(cfg, Table([], 0, 0, 0, []), hint, allocs);
      (o.code, if o.code == UHTBL_OK then Some((cfg, o.t)) else None)
  }

  // Proofs.

  /** `kb` is present exactly when some held entry has it as its key. */
  lemma PresentHolds(t: Table, kb: seq<byte>)
    ensures Present(t, kb) <==> exists e :: Holds(t.buckets, e) && e.key == kb
  {
    if Present(t, kb) {
      var j :| Stores(t.buckets, j, kb);
      assert Holds(t.buckets, EntryOf(t.buckets[j]));
    }
    if exists e :: Holds(t.buckets, e) && e.key == kb {
      var e :| Holds(t.buckets, e) && e.key == kb;
      var j :| 0 <= j < |t.buckets| && t.buckets[j].flags.occupied && EntryOf(t.buckets[j]) == e;
      assert Stores(t.buckets, j, kb);
    }
  }

  /** Copying user byte and payload keeps the invariant: no chain fact reads them. */
  lemma CopyChains(cfg: Config, t: Table, w: Shape, at: nat, src: Bucket)
    requires Inv(cfg, t, w) && at < |t.buckets|
    ensures Inv(cfg, CopyPayload(t, at, src), w)
  {
    var t3 := CopyPayload(t, at, src);
    var bs := t.buckets;
    var b := bs[at].(user := src.user, data := src.data);
    assert t3.buckets == bs[at := b];
    forall x | 0 <= x < |bs| ensures Node(cfg, t3, w, -1, x) {
      assert Node(cfg, t, w, -1, x);
    }
    forall x, y | Twins(t3.buckets, x, y) ensures x == y { assert Twins(bs, x, y); }
    CountUpdate(bs, at, b);
  }

  /** Copying into the bucket that stores `kb` replaces that one entry. */
  lemma CopyHolds(t: Table, at: nat, kb: seq<byte>, src: Bucket)
    requires DistinctKeys(t, -1) && WellFormed(t) && Stores(t.buckets, at, kb)
    ensures var t3 := CopyPayload(t, at, src);
            forall e :: Holds(t3.buckets, e) <==> (Holds(t.buckets, e) && e.key != kb) || e == EntryOf(t3.buckets[at])
  {
    var t3 := CopyPayload(t, at, src);
    var bs := t.buckets;
    var b := bs[at].(user := src.user, data := src.data);
    assert t3.buckets == bs[at := b];
    forall e ensures Holds(t3.buckets, e) <==> (Holds(bs, e) && e.key != kb) || e == EntryOf(t3.buckets[at]) {
      HoldsUpdate(bs, at, b, e);
      if HoldsExcept(bs, at, e) {
        var j :| 0 <= j < |bs| && j != at && bs[j].flags.occupied && EntryOf(bs[j]) == e;
        assert !Twins(bs, j, at);
      }
      if Holds(bs, e) && e.key != kb {
        var j :| 0 <= j < |bs| && bs[j].flags.occupied && EntryOf(bs[j]) == e;
        assert j != at;
      }
    }
  }

  /** One rehash step: an occupied bucket of a valid table is set again, with its whole entry. */
  lemma RehashStep(cfg: Config, prior: Table, pw: Shape, cur: Table, cw: Shape, j: nat)
    requires Inv(cfg, prior, pw) && Inv(cfg, cur, cw)
    requires j < |prior.buckets| && prior.buckets[j].flags.occupied
    requires !Present(cur, prior.buckets[j].key) && cur.used < |cur.buckets|
    ensures KeyForm(prior.buckets[j])
    ensures var src := prior.buckets[j];
            var p := Place(cfg, cur, KeyOf(src));
            && p.Placed?
            && var t3 := CopyPayload(p.t, p.at, src);
            && Valid(cfg, t3) && t3.used == cur.used + 1 && t3.gcLog == cur.gcLog
            && forall e :: Holds(t3.buckets, e) <==> Holds(cur.buckets, e) || e == EntryOf(src)
  {
    var src := prior.buckets[j];
    assert Node(cfg, prior, pw, -1, j);
    var k := KeyOf(src);
    var kb := src.key;
    PlaceSpec(cfg, cur, cw, k);
    var p := Place(cfg, cur, k);
    var w2 :| Inv(cfg, p.t, w2);
    CopyChains(cfg, p.t, w2, p.at, src);
    CopyHolds(p.t, p.at, kb, src);
    var t3 := CopyPayload(p.t, p.at, src);
    assert EntryOf(t3.buckets[p.at]) == EntryOf(src);
    assert Valid(cfg, t3);
    PresentHolds(cur, kb);
  }

  /** `e` is the entry of one of the buckets of `order` in `prior`. */
  ghost predicate Visits(prior: Table, order: seq<nat>, e: Entry) {
    exists i :: 0 <= i < |order| && order[i] < |prior.buckets| && EntryOf(prior.buckets[order[i]]) == e
  }

  lemma VisitsFirst(prior: Table, order: seq<nat>, e: Entry)
    requires order != [] && order[0] < |prior.buckets|
    ensures Visits(prior, order, e) <==> e == EntryOf(prior.buckets[order[0]]) || Visits(prior, order[1..], e)
  {
    var rest := order[1..];
    if Visits(prior, order, e) {
      var i :| 0 <= i < |order| && order[i] < |prior.buckets| && EntryOf(prior.buckets[order[i]]) == e;
      if i > 0 { assert rest[i - 1] == order[i]; }
    }
    if Visits(prior, rest, e) {
      var i :| 0 <= i < |rest| && rest[i] < |prior.buckets| && EntryOf(prior.buckets[rest[i]]) == e;
      assert order[i + 1] == rest[i];
    }
  }

  /** After the first step, the remaining keys are still absent. */
  lemma RestAbsent(prior: Table, pw: Shape, cur: Table, t3: Table, order: seq<nat>)
    requires DistinctKeys(prior, -1) && order != []
    requires forall i :: 0 <= i < |order| ==> order[i] < |prior.buckets| && prior.buckets[order[i]].flags.occupied
    requires forall a, b :: 0 <= a < b < |order| ==> order[a] < order[b]
    requires forall i :: 0 <= i < |order| ==> !Present(cur, prior.buckets[order[i]].key)
    requires forall e :: Holds(t3.buckets, e) <==> Holds(cur.buckets, e) || e == EntryOf(prior.buckets[order[0]])
    ensures forall i :: 0 <= i < |order| - 1 ==> !Present(t3, prior.buckets[order[1..][i]].key)
  {
    var rest := order[1..];
    forall i | 0 <= i < |rest| ensures !Present(t3, prior.buckets[rest[i]].key) {
      var x := rest[i];
      assert x == order[i + 1];
      var kb := prior.buckets[x].key;
      PresentHolds(t3, kb);
      PresentHolds(cur, kb);
      assert !Twins(prior.buckets, order[0], x);
    }
  }

  /**
   The rehash loop on valid tables: it never fails, and it adds exactly the
   entries of the visited buckets to what `cur` held.
   */
  lemma {:induction false} RehashLoop(cfg: Config, prior: Table, pw: Shape, cur: Table, cw: Shape, order: seq<nat>)
    requires Inv(cfg, prior, pw) && Inv(cfg, cur, cw)
    requires forall i :: 0 <= i < |order| ==> order[i] < |prior.buckets| && prior.buckets[order[i]].flags.occupied
    requires forall a, b :: 0 <= a < b < |order| ==> order[a] < order[b]
    requires forall i :: 0 <= i < |order| ==> !Present(cur, prior.buckets[order[i]].key)
    requires cur.used + |order| <= |cur.buckets|
    ensures var r := Rehash(cfg, prior, cur, order);
            && r.Some? && Valid(cfg, r.value) && r.value.used == cur.used + |order| && r.value.gcLog == cur.gcLog
            && forall e :: Holds(r.value.buckets, e) <==> Holds(cur.buckets, e) || Visits(prior, order, e)
    decreases |order|
  {
    if order != [] {
      var j := order[0];
      var src := prior.buckets[j];
      RehashStep(cfg, prior, pw, cur, cw, j);
      var p := Place(cfg, cur, KeyOf(src));
      var t3 := CopyPayload(p.t, p.at, src);
      var w3 :| Inv(cfg, t3, w3);
      var rest := order[1..];
      RestAbsent(prior, pw, cur, t3, order);
      RehashLoop(cfg, prior, pw, t3, w3, rest);
      forall e ensures Visits(prior, order, e) <==> e == EntryOf(src) || Visits(prior, rest, e) {
        VisitsFirst(prior, order, e);
      }
    } else {
      assert Valid(cfg, cur);
    }
  }

  /** Visiting every occupied bucket of a table visits exactly the entries it holds. */
  lemma VisitsScan(cfg: Config, t: Table, w: Shape)
    requires Inv(cfg, t, w)
    ensures forall e :: Visits(t, Scan(t, 0), e) <==> Holds(t.buckets, e)
  {
    var order := Scan(t, 0);
    ScanCount(cfg, t, w);
    forall e ensures Visits(t, order, e) <==> Holds(t.buckets, e) {
      if Visits(t, order, e) {
        var i :| 0 <= i < |order| && order[i] < |t.buckets| && EntryOf(t.buckets[order[i]]) == e;
        assert order[i] in order;
      }
      if Holds(t.buckets, e) {
        var j :| 0 <= j < |t.buckets| && t.buckets[j].flags.occupied && EntryOf(t.buckets[j]) == e;
        var i :| 0 <= i < |order| && order[i] == j;
      }
    }
  }

  /** The rehash of a valid table into a grown empty one. */
  lemma RehashSpec(cfg: Config, t: Table, w: Shape, grown: Table)
    requires Inv(cfg, t, w) && WellFormed(grown) && grown.used == 0 && grown.nextfree == |grown.buckets| - 1
    requires forall i :: 0 <= i < |grown.buckets| ==> grown.buckets[i].flags == NoFlags && KeyForm(grown.buckets[i])
    requires t.used <= |grown.buckets|
    ensures forall i :: 0 <= i < |Scan(t, 0)| ==> Scan(t, 0)[i] < |t.buckets|
    ensures var r := Rehash(cfg, t, grown, Scan(t, 0));
            && r.Some? && Valid(cfg, r.value) && r.value.used == t.used && r.value.gcLog == grown.gcLog
            && forall e :: Holds(r.value.buckets, e) <==> Holds(t.buckets, e)
  {
    var order := Scan(t, 0);
    ScanSpec(t, 0);
    ScanCount(cfg, t, w);
    assert forall i :: 0 <= i < |order| ==> order[i] in order;
    EmptyInv(cfg, grown);
    forall i | 0 <= i < |order| ensures !Present(grown, t.buckets[order[i]].key) {
      PresentHolds(grown, t.buckets[order[i]].key);
    }
    RehashLoop(cfg, t, w, grown, EmptyShape(grown), order);
    VisitsScan(cfg, t, w);
  }

  /**
   uhtbl_resize on a valid table (uhtbl.c:199-242, uhtbl.h:314-331): EINVAL
   exactly when the new size is below the payload or below `used`; ENOMEM
   exactly when calloc fails; otherwise a valid table with the new payload
   holding exactly the same entries, none handed to the garbage collector.
   Undefined only for a zero payload on a non-empty table.
   */
  lemma ResizeSpec(cfg: Config, t: Table, w: Shape, payload: u32, allocs: seq<bool>)
    requires Inv(cfg, t, w)
    ensures var size := cfg.sizeFor(payload);
            var bad := size < payload || size < t.used;
            var r := Resize(cfg, t, payload, allocs);
            && (r.Done? && r.code == UHTBL_EINVAL <==> bad)
            && (r.Done? && r.code == UHTBL_ENOMEM <==> !bad && payload != t.payload && (allocs == [] || !allocs[0]))
            && (r.Undefined? <==> !bad && payload != t.payload && allocs != [] && allocs[0] && payload == 0 && t.used > 0)
            && (r.Done? && r.code == UHTBL_OK && payload != t.payload ==> |r.t.buckets| == size && r.t.payload == payload)
            && (r.Done? && r.code == UHTBL_OK && r.t.payload > 0 ==>
                  && Valid(cfg, r.t) && r.t.used == t.used && r.t.gcLog == t.gcLog
                  && forall e :: Holds(r.t.buckets, e) <==> Holds(t.buckets, e))
  {
    var size := cfg.sizeFor(payload);
    var bad := size < payload || size < t.used;
    if !bad && payload != t.payload && allocs != [] && allocs[0] {
      var grown := Fresh(cfg, t, payload, size);
      if t.used == 0 {
        if payload > 0 {
          EmptyInv(cfg, grown);
          assert forall j :: 0 <= j < |t.buckets| ==> !t.buckets[j].flags.occupied;
        }
      } else if payload > 0 {
        RehashSpec(cfg, t, w, grown);
      }
    } else {
      assert Valid(cfg, t);
    }
  }

  /**
   uhtbl_set on a valid table, growth included (uhtbl.h:202-240): it never
   hangs, and is undefined only when a doubled payload wraps to zero and
   `sizeFor(0)` is positive.  On success the table is valid, stores the key
   in the bucket returned, keeps every other entry, and grows `used` by one
   for a new key.  It fails only when the key was absent, every bucket
   occupied, and a resize answered EINVAL or ENOMEM; the table, possibly
   grown, then holds the same entries as before.
   */
  lemma {:induction false} SetSpec(cfg: Config, t: Table, w: Shape, k: Key, allocs: seq<bool>)
    requires Inv(cfg, t, w) && ValidKey(k)
    ensures var kb := KeyBytes(k);
            var (o, at) := Set(cfg, t, k, allocs);
            && (o.Undefined? ==> cfg.sizeFor(0) > 0)
            && (o.Done? && o.code == UHTBL_OK ==>
                  && at.Some? && Valid(cfg, o.t) && Stores(o.t.buckets, at.value, kb)
                  && (forall e :: Holds(o.t.buckets, e) <==> (Holds(t.buckets, e) && e.key != kb) || e == EntryOf(o.t.buckets[at.value]))
                  && o.t.used == (if Present(t, kb) then t.used else t.used + 1))
            && (o.Done? && o.code != UHTBL_OK ==>
                  && at.None? && o.code in {UHTBL_EINVAL, UHTBL_ENOMEM} && t.used == |t.buckets|
                  && Valid(cfg, o.t) && !Present(t, kb) && o.t.used == t.used
                  && forall e :: Holds(o.t.buckets, e) <==> Holds(t.buckets, e))
    decreases |allocs|
  {
    var kb := KeyBytes(k);
    PlaceSpec(cfg, t, w, k);
    match Place(cfg, t, k)
    case Placed(t2, at) =>
    case NoRoom =>
      var grow := Doubled(t.payload);
      ResizeSpec(cfg, t, w, grow, allocs);
      match Resize(cfg, t, grow, allocs)
      case Done(code, t3, rest) =>
        if code != UHTBL_OK {
          assert Valid(cfg, t);
        } else if t3.payload > 0 {
          var w3 :| Inv(cfg, t3, w3);
          SetSpec(cfg, t3, w3, k, rest);
          PresentHolds(t, kb);
          PresentHolds(t3, kb);
        }
      case Undefined =>
  }

  /** A successful set is seen by the next lookup: get answers with the bucket set returned. */
  lemma SetThenGet(cfg: Config, t: Table, w: Shape, k: Key, allocs: seq<bool>)
    requires Inv(cfg, t, w) && ValidKey(k)
    ensures var (o, at) := Set(cfg, t, k, allocs);
            o.Done? && o.code == UHTBL_OK ==> WellFormed(o.t) && Get(cfg, o.t, k) == at
  {
    SetSpec(cfg, t, w, k, allocs);
    var (o, at) := Set(cfg, t, k, allocs);
    if o.Done? && o.code == UHTBL_OK {
      var w2 :| Inv(cfg, o.t, w2);
      GetSpec(cfg, o.t, w2, k);
    }
  }

  /**
   uhtbl_init (uhtbl.c:36-50, uhtbl.h:123-175): EINVAL exactly for a missing
   hash function, a bucket smaller than the header, or a size below the
   payload; ENOMEM exactly when calloc fails; otherwise an empty valid table
   of `sizehint` (16 for 0) hash-addressable buckets.
   */
  lemma InitSpec(bucketSize: nat, sizehint: u32, hash: Option<seq<byte> -> u32>, hasGc: bool,
                 sizeFor: u32 -> u32, allocs: seq<bool>)
    ensures var hint := if sizehint == 0 then MINIMUM_SIZE else sizehint;
            var r := Init(bucketSize, sizehint, hash, hasGc, sizeFor, allocs);
            && (r.0 == UHTBL_EINVAL <==> hash.None? || bucketSize < HEAD_SIZE || sizeFor(hint) < hint)
            && (r.0 == UHTBL_ENOMEM <==> hash.Some? && bucketSize >= HEAD_SIZE && sizeFor(hint) >= hint
                                         && (allocs == [] || !allocs[0]))
            && (r.0 == UHTBL_OK ==>
                  var (cfg, t) := r.1.value;
                  && cfg.hash == hash.value && cfg.hasGc == hasGc && cfg.bucketSize == bucketSize
                  && t.payload == hint && |t.buckets| == sizeFor(hint)
                  && Valid(cfg, t) && t.used == 0 && forall e :: !Holds(t.buckets, e))
  {
    var hint := if sizehint == 0 then MINIMUM_SIZE else sizehint;
    if hash.Some? && bucketSize >= HEAD_SIZE && sizeFor(hint) >= hint && allocs != [] && allocs[0] {
      var cfg := Config(hash.value, hasGc, sizeFor, bucketSize);
      var t0 := Table([], 0, 0, 0, []);
      EmptyInv(cfg, Fresh(cfg, t0, hint, sizeFor(hint)));
    }
  }
}
