/**
 The whole of one insertion attempt and of lookup, against the contents
 view: a valid table is a finite map from keys to entries, `Get` reads it and
 `Place` updates it.
 */
module UhtblPlace {
  import opened Wrappers
  import opened UhtblFlags
  import opened UhtblKey
  import opened Uhtbl
  import opened UhtblShape
  import opened UhtblAlloc
  import opened UhtblInsert

  /** Some bucket of `t` stores key `kb`. */
  ghost predicate Present(t: Table, kb: seq<byte>) {
    exists j :: Stores(t.buckets, j, kb)
  }

  /**
   uhtbl_get (uhtbl.c:64-66) on a valid table answers with exactly the bucket
   that stores the key, and with NULL exactly when no bucket does.
   */
  lemma GetSpec(cfg: Config, t: Table, w: Shape, k: Key)
    requires Inv(cfg, t, w) && ValidKey(k)
    ensures forall i :: Get(cfg, t, k) == Some(i) <==> Stores(t.buckets, i, KeyBytes(k))
    ensures Get(cfg, t, k).None? <==> !Present(t, KeyBytes(k))
  {
    var kb := KeyBytes(k);
    FindSpec(cfg, t, w, -1, kb);
    var r := Find(cfg, t, kb, false);
    forall i ensures Get(cfg, t, k) == Some(i) <==> Stores(t.buckets, i, kb) {
      if Stores(t.buckets, i, kb) && r.Hit? {
        assert Twins(t.buckets, i, r.at);
      }
    }
  }

  /** The allocator's outcome for a valid table, in the terms of `Allocated`. */
  lemma AllocateValid(cfg: Config, t: Table, w: Shape)
    requires Inv(cfg, t, w)
    ensures Allocate(t).None? <==> t.used == |t.buckets|
    ensures Allocate(t).Some? ==> exists w1 :: Allocated(cfg, t, w, Allocate(t).value.t, w1, Allocate(t).value.at)
  {
    AllocateFailsOnlyWhenFull(cfg, t, w);
    if Allocate(t).Some? {
      AllocateShape(cfg, t, w);
    }
  }

  /** The allocator handed out the home itself: the key takes it in place. */
  lemma EvictInPlace(cfg: Config, t: Table, t1: Table, w1: Shape, h: nat, k: Key)
    requires Squatted(cfg, t1, w1, h, h, k) && Leftover(t, t1, h) && WellFormed(t)
    requires Allocate(t) == Some(Allocation(t1, h)) && h < |t.buckets|
    requires forall j :: 0 <= j < |t.buckets| ==> !Stores(t.buckets, j, KeyBytes(k))
    ensures var r := Evict(cfg, t, h, k);
            && r.Placed? && r.at == h && Valid(cfg, r.t) && r.t.used == t.used + 1 && r.t.gcLog == t.gcLog
            && Inserted(t, KeyBytes(k), r.t, h)
  {
    InPlaceShape(cfg, t, t1, w1, h, k);
    var t2 := TakeHome(t1, h, k);
    assert Evict(cfg, t, h, k) == Placed(t2, h);
    assert Valid(cfg, t2) by { assert Inv(cfg, t2, Shape(w1.owner[h := h], w1.pos[h := 0], w1.pred)); }
  }

  /** The allocator handed out another slot: the squatter moves there. */
  lemma EvictMove(cfg: Config, t: Table, t1: Table, w1: Shape, s: nat, h: nat, k: Key)
    requires Squatted(cfg, t1, w1, s, h, k) && s != h && Leftover(t, t1, s) && WellFormed(t)
    requires Allocate(t) == Some(Allocation(t1, s)) && h < |t.buckets|
    requires forall j :: 0 <= j < |t.buckets| ==> !Stores(t.buckets, j, KeyBytes(k))
    ensures var r := Evict(cfg, t, h, k);
            && r.Placed? && r.at == h && Valid(cfg, r.t) && r.t.used == t.used + 1 && r.t.gcLog == t.gcLog
            && Inserted(t, KeyBytes(k), r.t, h)
  {
    MoveShape(cfg, t, t1, w1, s, h, k);
    var q := w1.pred[h];
    var t2 := MoveSquatter(t1, h, s, q, k);
    assert Evict(cfg, t, h, k) == Placed(t2, h);
    assert Valid(cfg, t2) by { assert Inv(cfg, t2, Moved(t1, w1, h, s, q)); }
  }

  /** The eviction case once the allocator has handed out slot `s`. */
  lemma EvictAllocated(cfg: Config, t: Table, w: Shape, t1: Table, w1: Shape, s: nat, k: Key)
    requires EvictCase(cfg, t, w, t1, w1, s, k) && Allocate(t) == Some(Allocation(t1, s))
    ensures var h := Home(cfg, t.payload, KeyBytes(k));
            var r := Evict(cfg, t, h, k);
            && r.Placed? && r.at == h && Valid(cfg, r.t) && r.t.used == t.used + 1 && r.t.gcLog == t.gcLog
            && Inserted(t, KeyBytes(k), r.t, h)
  {
    var h := Home(cfg, t.payload, KeyBytes(k));
    EvictSplit(cfg, t, w, t1, w1, s, k);
    if s == h {
      EvictInPlace(cfg, t, t1, w1, h, k);
    } else {
      EvictMove(cfg, t, t1, w1, s, h, k);
    }
  }

  /** The eviction case on a valid table: never diverges, and fails only on a full table. */
  lemma EvictSpec(cfg: Config, t: Table, w: Shape, k: Key)
    requires Inv(cfg, t, w) && ValidKey(k)
    requires var h := Home(cfg, t.payload, KeyBytes(k));
             t.buckets[h].flags.occupied && t.buckets[h].flags.stranger
    requires !Present(t, KeyBytes(k))
    ensures var h := Home(cfg, t.payload, KeyBytes(k));
            var r := Evict(cfg, t, h, k);
            && !r.Diverges?
            && (r.NoRoom? <==> t.used == |t.buckets|)
            && (r.Placed? ==> r.at == h && Valid(cfg, r.t) && r.t.used == t.used + 1 && r.t.gcLog == t.gcLog
                              && Inserted(t, KeyBytes(k), r.t, h))
  {
    AllocateValid(cfg, t, w);
    if Allocate(t).Some? {
      var t1 := Allocate(t).value.t;
      var s := Allocate(t).value.at;
      var w1 :| Allocated(cfg, t, w, t1, w1, s);
      EvictAllocated(cfg, t, w, t1, w1, s, k);
    }
  }

  /** The collision case on a valid table: fails only on a full table. */
  lemma AppendSpec(cfg: Config, t: Table, w: Shape, last: nat, k: Key)
    requires Inv(cfg, t, w) && ValidKey(k)
    requires var h := Home(cfg, t.payload, KeyBytes(k));
             && t.buckets[h].flags.occupied && !t.buckets[h].flags.stranger
             && last < |t.buckets| && w.owner[last] == h && !t.buckets[last].flags.withNext
    requires !Present(t, KeyBytes(k))
    ensures var r := Append(t, last, k);
            && !r.Diverges?
            && (r.NoRoom? <==> t.used == |t.buckets|)
            && (r.Placed? ==> Valid(cfg, r.t) && r.t.used == t.used + 1 && r.t.gcLog == t.gcLog
                              && Inserted(t, KeyBytes(k), r.t, r.at))
  {
    AllocateValid(cfg, t, w);
    if Allocate(t).Some? {
      var t1 := Allocate(t).value.t;
      var s := Allocate(t).value.at;
      var w1 :| Allocated(cfg, t, w, t1, w1, s);
      assert AttachCase(cfg, t, w, t1, w1, s, last, k);
      AttachShape(cfg, t, w, t1, w1, s, last, k);
    }
  }

  /**
   One insertion attempt on a valid table (uhtbl.c:68-149, repaired): it
   never loops; it runs out of room exactly when the key is new and every
   bucket is taken; otherwise the table stays valid, the key is stored in the
   bucket returned, every other entry is kept, `used` grows by one for a new
   key, and a replaced entry goes to the garbage collector.
   */
  lemma PlaceSpec(cfg: Config, t: Table, w: Shape, k: Key)
    requires Inv(cfg, t, w) && ValidKey(k)
    ensures var r := Place(cfg, t, k);
            && !r.Diverges?
            && (r.NoRoom? <==> !Present(t, KeyBytes(k)) && t.used == |t.buckets|)
            && (r.Placed? ==> Valid(cfg, r.t) && Inserted(t, KeyBytes(k), r.t, r.at))
            && (r.Placed? && Present(t, KeyBytes(k)) ==>
                  r.t.used == t.used && Stores(t.buckets, r.at, KeyBytes(k))
                  && r.t.gcLog == GcNote(cfg, t.gcLog, t.buckets[r.at]))
            && (r.Placed? && !Present(t, KeyBytes(k)) ==> r.t.used == t.used + 1 && r.t.gcLog == t.gcLog)
  {
    var kb := KeyBytes(k);
    var h := Home(cfg, t.payload, kb);
    FindSpec(cfg, t, w, -1, kb);
    var look := Find(cfg, t, kb, false);
    assert Node(cfg, t, w, -1, h);
    if look.Hit? {
      OverwriteShape(cfg, t, w, look.at, k);
      assert Present(t, kb) by { assert Stores(t.buckets, look.at, kb); }
    } else {
      assert !Present(t, kb);
      if !t.buckets[h].flags.occupied {
        ClaimShape(cfg, t, w, k);
      } else if t.buckets[h].flags.stranger {
        EvictSpec(cfg, t, w, k);
      } else {
        AppendSpec(cfg, t, w, look.last, k);
      }
    }
  }
}
