/**
 Insertion keeps the table invariant and changes the contents exactly as
 uhtbl_set promises (uhtbl.h:208-210): the key ends up in one occupied bucket,
 every other key keeps its bucket contents, and no other key appears.
 */
module UhtblInsert {
  import opened Wrappers
  import opened UhtblFlags
  import opened UhtblKey
  import opened Uhtbl
  import opened UhtblShape
  import opened UhtblAlloc

  /**
   `t2` is `t` with key `kb` stored at `at`: every entry of another key is
   kept and the only entry for `kb` is the one at `at`.
   */
  ghost predicate Inserted(t: Table, kb: seq<byte>, t2: Table, at: nat) {
    && |t2.buckets| == |t.buckets| && t2.payload == t.payload
    && Stores(t2.buckets, at, kb)
    && (forall e :: Holds(t2.buckets, e) <==> (Holds(t.buckets, e) && e.key != kb) || e == EntryOf(t2.buckets[at]))
  }

  /** The key-bytes form of a stored key is readable back. */
  lemma WrittenKeyForm(b: Bucket, k: Key, base: Flags)
    requires ValidKey(k)
    ensures KeyForm(WriteKey(b, k, base))
  {
  }

  /** When `i` is the one bucket holding `kb`, the other buckets hold exactly the other keys. */
  lemma OthersHold(cfg: Config, t: Table, w: Shape, i: nat, kb: seq<byte>, e: Entry)
    requires Inv(cfg, t, w) && Stores(t.buckets, i, kb)
    ensures HoldsExcept(t.buckets, i, e) <==> Holds(t.buckets, e) && e.key != kb
  {
    if HoldsExcept(t.buckets, i, e) {
      var j :| 0 <= j < |t.buckets| && j != i && t.buckets[j].flags.occupied && EntryOf(t.buckets[j]) == e;
      assert !Twins(t.buckets, i, j);
    }
    if Holds(t.buckets, e) && e.key != kb {
      var j :| 0 <= j < |t.buckets| && t.buckets[j].flags.occupied && EntryOf(t.buckets[j]) == e;
      assert j != i;
    }
  }

  /** A key absent from the table leaves the contents of every bucket to the other keys. */
  lemma AbsentHolds(t: Table, kb: seq<byte>, e: Entry)
    requires forall j :: 0 <= j < |t.buckets| ==> !Stores(t.buckets, j, kb)
    ensures Holds(t.buckets, e) <==> Holds(t.buckets, e) && e.key != kb
  {
    if Holds(t.buckets, e) {
      var j :| 0 <= j < |t.buckets| && t.buckets[j].flags.occupied && EntryOf(t.buckets[j]) == e;
      assert !Stores(t.buckets, j, kb);
    }
  }

  /** Overwriting the bucket that already holds the key (uhtbl.c:81-89). */
  lemma OverwriteShape(cfg: Config, t: Table, w: Shape, i: nat, k: Key)
    requires Inv(cfg, t, w) && ValidKey(k) && Stores(t.buckets, i, KeyBytes(k))
    ensures var t2 := Overwrite(cfg, t, i, k);
            && Inv(cfg, t2, w) && t2.used == t.used
            && Inserted(t, KeyBytes(k), t2, i)
  {
    var t2 := Overwrite(cfg, t, i, k);
    var bs := t.buckets;
    var bs2 := t2.buckets;
    WrittenKeyForm(bs[i], k, bs[i].flags);
    forall j | 0 <= j < |bs| ensures Node(cfg, t2, w, -1, j) {
      assert Node(cfg, t, w, -1, j);
      if bs[j].flags.stranger { assert bs2[w.pred[j]].flags.withNext == bs[w.pred[j]].flags.withNext; }
    }
    assert DistinctKeys(t2, -1) by {
      forall x, y | Twins(bs2, x, y) ensures x == y { assert Twins(bs, x, y); }
    }
    CountUpdate(bs, i, bs2[i]);
    forall e ensures Holds(bs2, e) <==> (Holds(bs, e) && e.key != KeyBytes(k)) || e == EntryOf(bs2[i]) {
      HoldsUpdate(bs, i, bs2[i], e);
      OthersHold(cfg, t, w, i, KeyBytes(k), e);
    }
  }

  /** One bucket's chain facts after an unoccupied home is claimed. */
  lemma ClaimNode(cfg: Config, t: Table, w: Shape, k: Key, j: nat)
    requires Inv(cfg, t, w) && ValidKey(k) && j < |t.buckets|
    requires var h := Home(cfg, t.payload, KeyBytes(k)); !t.buckets[h].flags.occupied
    ensures Node(cfg, ClaimHome(t, Home(cfg, t.payload, KeyBytes(k)), k), w, -1, j)
  {
    var h := Home(cfg, t.payload, KeyBytes(k));
    var bs := t.buckets;
    var bs2 := ClaimHome(t, h, k).buckets;
    assert Node(cfg, t, w, -1, h);
    WrittenKeyForm(bs[h], k, bs[h].flags);
    assert Node(cfg, t, w, -1, j);
    if bs[j].flags.stranger { assert bs2[w.pred[j]].flags.withNext == bs[w.pred[j]].flags.withNext; }
    if bs[j].flags.withNext { assert bs2[bs[j].next].flags.stranger == bs[bs[j].next].flags.stranger; }
  }

  /** Keys stay distinct when an absent key claims its home. */
  lemma ClaimKeys(cfg: Config, t: Table, w: Shape, k: Key)
    requires Inv(cfg, t, w) && ValidKey(k)
    requires var h := Home(cfg, t.payload, KeyBytes(k)); !t.buckets[h].flags.occupied
    requires forall j :: 0 <= j < |t.buckets| ==> !Stores(t.buckets, j, KeyBytes(k))
    ensures DistinctKeys(ClaimHome(t, Home(cfg, t.payload, KeyBytes(k)), k), -1)
  {
    var kb := KeyBytes(k);
    var h := Home(cfg, t.payload, kb);
    var bs := t.buckets;
    var bs2 := ClaimHome(t, h, k).buckets;
    forall x, y | Twins(bs2, x, y) ensures x == y {
      if x != h && y != h { assert Twins(bs, x, y); }
      else if x != h { assert !Stores(bs, x, kb); }
      else if y != h { assert !Stores(bs, y, kb); }
    }
  }

  /** Claiming an unoccupied home for an absent key (uhtbl.c:309-313, 136-147). */
  lemma ClaimShape(cfg: Config, t: Table, w: Shape, k: Key)
    requires Inv(cfg, t, w) && ValidKey(k)
    requires var h := Home(cfg, t.payload, KeyBytes(k)); !t.buckets[h].flags.occupied
    requires forall j :: 0 <= j < |t.buckets| ==> !Stores(t.buckets, j, KeyBytes(k))
    ensures var h := Home(cfg, t.payload, KeyBytes(k));
            var t2 := ClaimHome(t, h, k);
            && Inv(cfg, t2, w) && t2.used == t.used + 1 && t2.gcLog == t.gcLog
            && Inserted(t, KeyBytes(k), t2, h)
  {
    var kb := KeyBytes(k);
    var h := Home(cfg, t.payload, kb);
    var t2 := ClaimHome(t, h, k);
    var bs := t.buckets;
    var bs2 := t2.buckets;
    forall j | 0 <= j < |bs| ensures Node(cfg, t2, w, -1, j) {
      ClaimNode(cfg, t, w, k, j);
    }
    ClaimKeys(cfg, t, w, k);
    CountUpdate(bs, h, bs2[h]);
    forall e ensures Holds(bs2, e) <==> (Holds(bs, e) && e.key != kb) || e == EntryOf(bs2[h]) {
      HoldsUpdate(bs, h, bs2[h], e);
      if HoldsExcept(bs, h, e) {
        var j :| 0 <= j < |bs| && j != h && bs[j].flags.occupied && EntryOf(bs[j]) == e;
        assert !Stores(bs, j, kb);
      }
      if Holds(bs, e) {
        var j :| 0 <= j < |bs| && bs[j].flags.occupied && EntryOf(bs[j]) == e;
        assert j != h;
      }
    }
  }

  /** The premise of the collision case after allocation. */
  ghost predicate AttachCase(cfg: Config, t: Table, w: Shape, t1: Table, w1: Shape, s: nat, last: nat, k: Key) {
    && Allocated(cfg, t, w, t1, w1, s)
    && ValidKey(k)
    && var h := Home(cfg, t.payload, KeyBytes(k));
       && t.buckets[h].flags.occupied && !t.buckets[h].flags.stranger
       && last < |t.buckets| && w.owner[last] == h && !t.buckets[last].flags.withNext
       && (forall j :: 0 <= j < |t.buckets| ==> !Stores(t.buckets, j, KeyBytes(k)))
  }

  /** The witness after `s` joins the chain of `last` (home `h`) behind it. */
  ghost function Attached(w1: Shape, s: nat, last: nat, h: nat): Shape
    requires s < |w1.owner| && s < |w1.pos| && s < |w1.pred| && last < |w1.pos|
  {
    Shape(w1.owner[s := h], w1.pos[s := w1.pos[last] + 1], w1.pred[s := last])
  }

  lemma AttachFacts(cfg: Config, t: Table, w: Shape, t1: Table, w1: Shape, s: nat, last: nat, k: Key)
    requires AttachCase(cfg, t, w, t1, w1, s, last, k)
    ensures var h := Home(cfg, t.payload, KeyBytes(k));
            && last != s && w1.owner[last] == h && w.owner[s] != h
            && t1.buckets[last] == t.buckets[last] && w1.pos[last] == w.pos[last] && w1.pred[last] == w.pred[last]
            && w1.pos[last] + 1 < |t.buckets|
            && (forall j :: 0 <= j < |t1.buckets| && j != s ==> !Stores(t1.buckets, j, KeyBytes(k)))
  {
    var h := Home(cfg, t.payload, KeyBytes(k));
    assert Node(cfg, t, w, -1, h);
    if t.buckets[s].flags.stranger {
      assert w.owner[s] != h;
    }
    ChainRoom(cfg, t1, w1, s, last, s);
    AllocatedKeys(cfg, t, w, t1, w1, s, KeyBytes(k));
  }

  /** The collision case's writes, bucket by bucket and witness entry by witness entry. */
  ghost predicate AttachFrame(t1: Table, w1: Shape, t2: Table, w2: Shape, s: nat, last: nat, h: nat) {
    && WellFormed(t1) && WellFormed(t2) && Sized(t1, w1) && Sized(t2, w2)
    && |t2.buckets| == |t1.buckets| && t2.payload == t1.payload
    && s < |t1.buckets| && last < |t1.buckets| && last != s && !t1.buckets[last].flags.withNext
    && t2.buckets[last] == t1.buckets[last].(flags := t1.buckets[last].flags.(withNext := true), next := s)
    && (forall x :: 0 <= x < |t1.buckets| && x != s && x != last ==> t2.buckets[x] == t1.buckets[x])
    && (forall x :: 0 <= x < |t1.buckets| && x != s ==>
          w2.owner[x] == w1.owner[x] && w2.pos[x] == w1.pos[x] && w2.pred[x] == w1.pred[x])
    && w2.owner[s] == h && w1.owner[last] == h && w2.pos[s] == w1.pos[last] + 1 && w2.pred[s] == last
  }

  lemma AttachFrameOf(cfg: Config, t: Table, w: Shape, t1: Table, w1: Shape, s: nat, last: nat, k: Key)
    requires AttachCase(cfg, t, w, t1, w1, s, last, k)
    ensures var h := Home(cfg, t.payload, KeyBytes(k));
            AttachFrame(t1, w1, LinkStranger(t1, last, s, k), Attached(w1, s, last, h), s, last, h)
  {
    AttachFacts(cfg, t, w, t1, w1, s, last, k);
  }

  lemma AttachNodeFrame(cfg: Config, t1: Table, w1: Shape, t2: Table, w2: Shape, s: nat, last: nat, h: nat, i: nat)
    requires AttachFrame(t1, w1, t2, w2, s, last, h)
    requires i < |t1.buckets| && (i != s ==> Node(cfg, t1, w1, s, i))
    requires && KeyForm(t2.buckets[s]) && t2.buckets[s].flags.occupied && t2.buckets[s].flags.stranger
             && !t2.buckets[s].flags.withNext && h < t1.payload && w2.pos[s] < |t1.buckets|
             && Home(cfg, t1.payload, t2.buckets[s].key) == h
    ensures Node(cfg, t2, w2, -1, i)
  {
    var bs1 := t1.buckets;
    var bs2 := t2.buckets;
    if i == last {
      if bs1[last].flags.stranger {
        var p := w1.pred[last];
        assert p != last;
        assert bs2[p] == bs1[p];
      }
    } else if i != s {
      assert bs2[i] == bs1[i];
      if bs1[i].flags.stranger {
        var p := w1.pred[i];
        assert p != s && p != last;
        assert bs2[p] == bs1[p];
      }
      if bs1[i].flags.withNext {
        var n := bs1[i].next;
        assert n != s;
        assert bs2[n].flags.stranger == bs1[n].flags.stranger;
      }
    }
  }

  lemma AttachNode(cfg: Config, t: Table, w: Shape, t1: Table, w1: Shape, s: nat, last: nat, k: Key, i: nat)
    requires AttachCase(cfg, t, w, t1, w1, s, last, k)
    requires i < |t.buckets|
    ensures Node(cfg, LinkStranger(t1, last, s, k), Attached(w1, s, last, Home(cfg, t.payload, KeyBytes(k))), -1, i)
  {
    var h := Home(cfg, t.payload, KeyBytes(k));
    AttachFacts(cfg, t, w, t1, w1, s, last, k);
    AttachFrameOf(cfg, t, w, t1, w1, s, last, k);
    WrittenKeyForm(t1.buckets[last := t1.buckets[last].(flags := t1.buckets[last].flags.(withNext := true), next := s)][s], k, Flags(false, true, false, false));
    if i != s {
      assert Node(cfg, t1, w1, s, i);
    }
    AttachNodeFrame(cfg, t1, w1, LinkStranger(t1, last, s, k), Attached(w1, s, last, h), s, last, h, i);
  }

  /** The collision case (uhtbl.c:116-133) keeps the invariant and adds the key. */
  lemma AttachShape(cfg: Config, t: Table, w: Shape, t1: Table, w1: Shape, s: nat, last: nat, k: Key)
    requires AttachCase(cfg, t, w, t1, w1, s, last, k)
    ensures var t2 := LinkStranger(t1, last, s, k);
            && Inv(cfg, t2, Attached(w1, s, last, Home(cfg, t.payload, KeyBytes(k))))
            && t2.used == t.used + 1 && t2.gcLog == t.gcLog
            && Inserted(t, KeyBytes(k), t2, s)
  {
    var kb := KeyBytes(k);
    var h := Home(cfg, t.payload, kb);
    AttachFacts(cfg, t, w, t1, w1, s, last, k);
    var t2 := LinkStranger(t1, last, s, k);
    var w2 := Attached(w1, s, last, h);
    var bs1 := t1.buckets;
    var bs2 := t2.buckets;
    forall i | 0 <= i < |bs2| ensures Node(cfg, t2, w2, -1, i) {
      AttachNode(cfg, t, w, t1, w1, s, last, k, i);
    }
    AttachKeys(cfg, t, w, t1, w1, s, last, k);
    AllocatedLeftover(cfg, t, w, t1, w1, s);
    AttachHolds(t, t1, s, last, k);
    AttachCount(cfg, t, w, t1, w1, s, last, k);
  }

  lemma AttachKeys(cfg: Config, t: Table, w: Shape, t1: Table, w1: Shape, s: nat, last: nat, k: Key)
    requires AttachCase(cfg, t, w, t1, w1, s, last, k)
    ensures DistinctKeys(LinkStranger(t1, last, s, k), -1)
  {
    var kb := KeyBytes(k);
    AttachFacts(cfg, t, w, t1, w1, s, last, k);
    var t2 := LinkStranger(t1, last, s, k);
    var bs1 := t1.buckets;
    var bs2 := t2.buckets;
    forall i, j | Twins(bs2, i, j) ensures i == j {
      if i != s && j != s {
        assert Twins(bs1, i, j);
      } else if i != s {
        assert Stores(bs1, i, kb);
      } else if j != s {
        assert Stores(bs1, j, kb);
      }
    }
  }

  lemma AttachHolds(t: Table, t1: Table, s: nat, last: nat, k: Key)
    requires WellFormed(t1) && ValidKey(k) && Leftover(t, t1, s) && last < |t1.buckets| && last != s
    requires forall j :: 0 <= j < |t.buckets| ==> !Stores(t.buckets, j, KeyBytes(k))
    ensures Inserted(t, KeyBytes(k), LinkStranger(t1, last, s, k), s)
  {
    var kb := KeyBytes(k);
    var t2 := LinkStranger(t1, last, s, k);
    var bs1 := t1.buckets;
    var bs2 := t2.buckets;
    var tail := bs1[last].(flags := bs1[last].flags.(withNext := true), next := s);
    var mid := bs1[last := tail];
    assert bs2 == mid[s := bs2[s]];
    forall e ensures Holds(bs2, e) <==> (Holds(t.buckets, e) && e.key != kb) || e == EntryOf(bs2[s]) {
      HoldsUpdate(mid, s, bs2[s], e);
      assert HoldsExcept(mid, s, e) <==> HoldsExcept(bs1, s, e) by {
        if HoldsExcept(bs1, s, e) {
          var j :| 0 <= j < |bs1| && j != s && bs1[j].flags.occupied && EntryOf(bs1[j]) == e;
          assert mid[j].flags.occupied && EntryOf(mid[j]) == e;
        }
        if HoldsExcept(mid, s, e) {
          var j :| 0 <= j < |mid| && j != s && mid[j].flags.occupied && EntryOf(mid[j]) == e;
          assert bs1[j].flags.occupied && EntryOf(bs1[j]) == e;
        }
      }
      AbsentHolds(t, kb, e);
    }
  }

  lemma AttachCount(cfg: Config, t: Table, w: Shape, t1: Table, w1: Shape, s: nat, last: nat, k: Key)
    requires AttachCase(cfg, t, w, t1, w1, s, last, k)
    ensures var t2 := LinkStranger(t1, last, s, k);
            t2.used == Count(t2.buckets) && FreeBelow(t2)
  {
    AttachFacts(cfg, t, w, t1, w1, s, last, k);
    var t2 := LinkStranger(t1, last, s, k);
    var bs1 := t1.buckets;
    var bs2 := t2.buckets;
    var tail := bs1[last].(flags := bs1[last].flags.(withNext := true), next := s);
    var mid := bs1[last := tail];
    assert bs2 == mid[s := bs2[s]];
    CountUpdate(bs1, last, tail);
    CountUpdate(mid, s, bs2[s]);
    forall j | t2.nextfree < j < |bs2| ensures bs2[j].flags.occupied {
      if j != s && j != last { assert bs2[j] == bs1[j]; }
    }
  }

  /** The premise of the eviction case after allocation. */
  ghost predicate EvictCase(cfg: Config, t: Table, w: Shape, t1: Table, w1: Shape, s: nat, k: Key) {
    && Allocated(cfg, t, w, t1, w1, s)
    && ValidKey(k)
    && var h := Home(cfg, t.payload, KeyBytes(k));
       && t.buckets[h].flags.occupied && t.buckets[h].flags.stranger
       && (forall j :: 0 <= j < |t.buckets| ==> !Stores(t.buckets, j, KeyBytes(k)))
  }

  /**
   The state after allocation, reduced to what the eviction's writes need:
   the chains with the stale slot `s` exempted, the squatter at the home `h`
   and the key absent everywhere but `s`.
   */
  ghost predicate Squatted(cfg: Config, t1: Table, w1: Shape, s: nat, h: nat, k: Key) {
    && Chains(cfg, t1, w1, s) && ValidKey(k)
    && h == Home(cfg, t1.payload, KeyBytes(k))
    && s < |t1.buckets|
    && t1.buckets[h].flags.stranger && t1.buckets[h].flags.occupied
    && (s != h ==> w1.pred[h] < |t1.buckets| && w1.pred[h] != h)
    && (forall j :: 0 <= j < |t1.buckets| && j != s ==> !Stores(t1.buckets, j, KeyBytes(k)))
  }

  /** The bookkeeping the allocator leaves: count, free cursor, contents. */
  ghost predicate Leftover(t: Table, t1: Table, s: nat) {
    && |t1.buckets| == |t.buckets| && t1.payload == t.payload && s < |t1.buckets| && t1.used == t.used && t1.gcLog == t.gcLog
    && Count(t1.buckets) == t.used + (if t1.buckets[s].flags.occupied then 1 else 0)
    && (forall j :: t1.nextfree < j < |t1.buckets| && j != s ==> t1.buckets[j].flags.occupied)
    && (forall e :: HoldsExcept(t1.buckets, s, e) <==> Holds(t.buckets, e))
  }

  lemma AllocatedLeftover(cfg: Config, t: Table, w: Shape, t1: Table, w1: Shape, s: nat)
    requires Allocated(cfg, t, w, t1, w1, s)
    ensures Leftover(t, t1, s)
  {
  }

  lemma EvictSplit(cfg: Config, t: Table, w: Shape, t1: Table, w1: Shape, s: nat, k: Key)
    requires EvictCase(cfg, t, w, t1, w1, s, k)
    ensures Squatted(cfg, t1, w1, s, Home(cfg, t.payload, KeyBytes(k)), k)
    ensures Leftover(t, t1, s)
    ensures forall j :: 0 <= j < |t.buckets| ==> !Stores(t.buckets, j, KeyBytes(k))
    ensures t1.buckets[Home(cfg, t.payload, KeyBytes(k))] == t.buckets[Home(cfg, t.payload, KeyBytes(k))]
  {
    AllocatedKeys(cfg, t, w, t1, w1, s, KeyBytes(k));
    var h := Home(cfg, t.payload, KeyBytes(k));
    if h != s {
      assert Node(cfg, t1, w1, s, h);
    } else {
      assert Node(cfg, t, w, -1, h);
    }
  }

  lemma InPlaceNode(cfg: Config, t1: Table, w1: Shape, h: nat, k: Key, i: nat)
    requires Squatted(cfg, t1, w1, h, h, k) && i < |t1.buckets|
    ensures Node(cfg, TakeHome(t1, h, k), Shape(w1.owner[h := h], w1.pos[h := 0], w1.pred), -1, i)
  {
    var bs1 := t1.buckets;
    var bs2 := TakeHome(t1, h, k).buckets;
    WrittenKeyForm(bs1[h], k, NoFlags);
    if i != h {
      assert Node(cfg, t1, w1, h, i);
      assert bs2[i] == bs1[i];
      if bs1[i].flags.stranger {
        assert bs2[w1.pred[i]] == bs1[w1.pred[i]];
      }
      if bs1[i].flags.withNext {
        assert bs2[bs1[i].next] == bs1[bs1[i].next];
      }
    }
  }

  /** The allocator handed out the home itself: the home just becomes the key's head. */
  lemma InPlaceShape(cfg: Config, t: Table, t1: Table, w1: Shape, h: nat, k: Key)
    requires Squatted(cfg, t1, w1, h, h, k) && Leftover(t, t1, h)
    requires forall j :: 0 <= j < |t.buckets| ==> !Stores(t.buckets, j, KeyBytes(k))
    ensures var t2 := TakeHome(t1, h, k);
            && Inv(cfg, t2, Shape(w1.owner[h := h], w1.pos[h := 0], w1.pred))
            && t2.used == t.used + 1 && t2.gcLog == t.gcLog
            && Inserted(t, KeyBytes(k), t2, h)
  {
    var kb := KeyBytes(k);
    var t2 := TakeHome(t1, h, k);
    var w2 := Shape(w1.owner[h := h], w1.pos[h := 0], w1.pred);
    var bs1 := t1.buckets;
    var bs2 := t2.buckets;
    forall i | 0 <= i < |bs2| ensures Node(cfg, t2, w2, -1, i) {
      InPlaceNode(cfg, t1, w1, h, k, i);
    }
    forall x | 0 <= x < |bs2| && x != h && bs2[x].flags.occupied ensures bs2[x].key != kb {
      assert !Stores(bs1, x, kb);
    }
    forall x, y | Twins(bs2, x, y) ensures x == y {
      if x != h && y != h { assert Twins(bs1, x, y); }
    }
    CountUpdate(bs1, h, bs2[h]);
    forall j | t2.nextfree < j < |bs2| ensures bs2[j].flags.occupied {
      if j != h { assert bs2[j] == bs1[j]; }
    }
    InPlaceHolds(t, t1, h, k);
  }

  lemma InPlaceHolds(t: Table, t1: Table, h: nat, k: Key)
    requires WellFormed(t1) && ValidKey(k) && Leftover(t, t1, h)
    requires forall j :: 0 <= j < |t.buckets| ==> !Stores(t.buckets, j, KeyBytes(k))
    ensures Inserted(t, KeyBytes(k), TakeHome(t1, h, k), h)
  {
    var bs1 := t1.buckets;
    var bs2 := TakeHome(t1, h, k).buckets;
    forall e ensures Holds(bs2, e) <==> (Holds(t.buckets, e) && e.key != KeyBytes(k)) || e == EntryOf(bs2[h]) {
      HoldsUpdate(bs1, h, bs2[h], e);
      AbsentHolds(t, KeyBytes(k), e);
    }
  }

  /** The witness after the squatter at `h` moves to `s` behind `q` and `h` becomes a head. */
  ghost function Moved(t1: Table, w1: Shape, h: nat, s: nat, q: nat): (w2: Shape)
    requires Sized(t1, w1) && h < |t1.buckets| && s < |t1.buckets|
    ensures Sized(t1, w2)
  {
    var sq := t1.buckets[h];
    var pred2 := w1.pred[s := q];
    Shape(w1.owner[s := w1.owner[h]][h := h], w1.pos[s := w1.pos[h]][h := 0],
          if sq.flags.withNext && sq.next < |t1.buckets| then pred2[sq.next := s] else pred2)
  }

  /** The squatter's predecessor, as the repaired eviction looks it up. */
  lemma MovePred(cfg: Config, t1: Table, w1: Shape, s: nat, h: nat, k: Key)
    requires Squatted(cfg, t1, w1, s, h, k) && s != h
    ensures PrevAfterFind(cfg, t1, t1.buckets[h].key, h) == Some(w1.pred[h])
  {
    assert Node(cfg, t1, w1, s, h);
    FindSpec(cfg, t1, w1, s, t1.buckets[h].key);
    var r := Find(cfg, t1, t1.buckets[h].key, false);
    assert Stores(t1.buckets, h, t1.buckets[h].key);
    assert r.Hit? && Twins(t1.buckets, r.at, h);
  }

  /** The facts behind a move: the squatter's predecessor and successor. */
  lemma MoveFacts(cfg: Config, t1: Table, w1: Shape, s: nat, h: nat, k: Key)
    requires Squatted(cfg, t1, w1, s, h, k) && s != h
    ensures var q := w1.pred[h];
            var sq := t1.buckets[h];
            && q < |t1.buckets| && q != h && q != s
            && t1.buckets[q].flags.withNext && t1.buckets[q].next == h
            && w1.owner[q] == w1.owner[h] && w1.pos[q] + 1 == w1.pos[h] && 0 <= w1.owner[h]
            && (sq.flags.withNext ==>
                  var y := sq.next;
                  y < |t1.buckets| && y != h && y != s && y != q && t1.buckets[y].flags.stranger && w1.pred[y] == h
                  && w1.owner[y] == w1.owner[h] && w1.pos[y] == w1.pos[h] + 1)
  {
    var sq := t1.buckets[h];
    assert Node(cfg, t1, w1, s, h);
    var q := w1.pred[h];
    assert Node(cfg, t1, w1, s, q);
    if sq.flags.withNext {
      assert Node(cfg, t1, w1, s, sq.next);
    }
  }

  /** The move's writes, bucket by bucket and witness entry by witness entry. */
  ghost predicate MoveFrame(t1: Table, w1: Shape, t2: Table, w2: Shape, s: nat, h: nat, q: nat) {
    && WellFormed(t1) && WellFormed(t2) && Sized(t1, w1) && Sized(t2, w2)
    && |t2.buckets| == |t1.buckets| && t2.payload == t1.payload
    && h < |t1.buckets| && s < |t1.buckets| && q < |t1.buckets| && h != s && h != q && s != q
    && t2.buckets[s] == t1.buckets[h] && t2.buckets[q] == t1.buckets[q].(next := s)
    && (forall x :: 0 <= x < |t1.buckets| && x != h && x != s && x != q ==> t2.buckets[x] == t1.buckets[x])
    && (forall x :: 0 <= x < |t1.buckets| && x != h && x != s ==> w2.owner[x] == w1.owner[x] && w2.pos[x] == w1.pos[x])
    && w2.owner[s] == w1.owner[h] && w2.pos[s] == w1.pos[h] && w2.owner[h] == h && w2.pos[h] == 0
    && w2.pred[s] == q
    && (t1.buckets[h].flags.withNext ==> t1.buckets[h].next < |t1.buckets| && w2.pred[t1.buckets[h].next] == s)
    && (forall x :: 0 <= x < |t1.buckets| && x != s && !(t1.buckets[h].flags.withNext && x == t1.buckets[h].next) ==>
          w2.pred[x] == w1.pred[x])
  }

  lemma MoveFrameOf(cfg: Config, t1: Table, w1: Shape, s: nat, h: nat, k: Key)
    requires Squatted(cfg, t1, w1, s, h, k) && s != h
    ensures var q := w1.pred[h];
            MoveFrame(t1, w1, MoveSquatter(t1, h, s, q, k), Moved(t1, w1, h, s, q), s, h, q)
  {
    MoveFacts(cfg, t1, w1, s, h, k);
  }

  /** A bucket the move does not touch keeps its facts. */
  lemma MoveNodeOther(cfg: Config, t1: Table, w1: Shape, t2: Table, w2: Shape, s: nat, h: nat, q: nat, i: nat)
    requires MoveFrame(t1, w1, t2, w2, s, h, q)
    requires t1.buckets[q].flags.withNext && t1.buckets[q].next == h && w1.pred[h] == q
    requires t1.buckets[h].flags.withNext ==> w1.pred[t1.buckets[h].next] == h
    requires i < |t1.buckets| && i != h && i != s && i != q && Node(cfg, t1, w1, s, i)
    ensures Node(cfg, t2, w2, -1, i)
  {
    var bs1 := t1.buckets;
    var bs2 := t2.buckets;
    assert bs2[i] == bs1[i];
    if bs1[i].flags.stranger {
      var p := w1.pred[i];
      if !(bs1[h].flags.withNext && i == bs1[h].next) {
        assert p != h && p != q;
        assert bs2[p] == bs1[p];
      }
    }
    if bs1[i].flags.withNext {
      var n := bs1[i].next;
      assert n != h;
      if bs1[h].flags.withNext && n == bs1[h].next {
        assert false;
      }
    }
  }

  /** The squatter's predecessor now links to the new slot. */
  lemma MoveNodePred(cfg: Config, t1: Table, w1: Shape, t2: Table, w2: Shape, s: nat, h: nat, q: nat)
    requires MoveFrame(t1, w1, t2, w2, s, h, q)
    requires t1.buckets[q].flags.withNext && t1.buckets[q].next == h && w1.pred[h] == q
    requires Node(cfg, t1, w1, s, q) && Node(cfg, t1, w1, s, h) && t1.buckets[h].flags.stranger
    ensures Node(cfg, t2, w2, -1, q)
  {
    var bs1 := t1.buckets;
    var bs2 := t2.buckets;
    if bs1[q].flags.stranger {
      var p := w1.pred[q];
      assert p != q && p != h;
      assert bs2[p] == bs1[p];
    }
  }

  /** The new slot holds the squatter, one link below its predecessor. */
  lemma MoveNodeSlot(cfg: Config, t1: Table, w1: Shape, t2: Table, w2: Shape, s: nat, h: nat, q: nat)
    requires MoveFrame(t1, w1, t2, w2, s, h, q)
    requires t1.buckets[q].flags.withNext && t1.buckets[q].next == h && w1.pred[h] == q
    requires Node(cfg, t1, w1, s, q) && Node(cfg, t1, w1, s, h) && t1.buckets[h].flags.stranger
    requires t1.buckets[h].flags.withNext ==> Node(cfg, t1, w1, s, t1.buckets[h].next)
    ensures Node(cfg, t2, w2, -1, s)
  {
    var bs1 := t1.buckets;
    var bs2 := t2.buckets;
    if bs1[h].flags.withNext {
      var y := bs1[h].next;
      assert y != h && y != q;
      assert bs2[y] == bs1[y];
    }
  }

  /** The home becomes the head of its own chain, holding the key. */
  lemma MoveNodeHome(cfg: Config, t1: Table, w1: Shape, s: nat, h: nat, k: Key)
    requires Squatted(cfg, t1, w1, s, h, k) && s != h
    ensures var q := w1.pred[h];
            Node(cfg, MoveSquatter(t1, h, s, q, k), Moved(t1, w1, h, s, q), -1, h)
  {
    WrittenKeyForm(t1.buckets[s := t1.buckets[h]][h], k, NoFlags);
  }

  lemma MoveNode(cfg: Config, t1: Table, w1: Shape, s: nat, h: nat, k: Key, i: nat)
    requires Squatted(cfg, t1, w1, s, h, k) && s != h && i < |t1.buckets|
    ensures var q := w1.pred[h];
            Node(cfg, MoveSquatter(t1, h, s, q, k), Moved(t1, w1, h, s, q), -1, i)
  {
    var q := w1.pred[h];
    var t2 := MoveSquatter(t1, h, s, q, k);
    var w2 := Moved(t1, w1, h, s, q);
    MoveFacts(cfg, t1, w1, s, h, k);
    MoveFrameOf(cfg, t1, w1, s, h, k);
    assert Node(cfg, t1, w1, s, h) && Node(cfg, t1, w1, s, q);
    if i == h {
      MoveNodeHome(cfg, t1, w1, s, h, k);
    } else if i == s {
      if t1.buckets[h].flags.withNext {
        assert Node(cfg, t1, w1, s, t1.buckets[h].next);
      }
      MoveNodeSlot(cfg, t1, w1, t2, w2, s, h, q);
    } else if i == q {
      MoveNodePred(cfg, t1, w1, t2, w2, s, h, q);
    } else {
      assert Node(cfg, t1, w1, s, i);
      MoveNodeOther(cfg, t1, w1, t2, w2, s, h, q, i);
    }
  }

  lemma MoveKeys(cfg: Config, t1: Table, w1: Shape, s: nat, h: nat, k: Key)
    requires Squatted(cfg, t1, w1, s, h, k) && s != h
    ensures DistinctKeys(MoveSquatter(t1, h, s, w1.pred[h], k), -1)
  {
    var kb := KeyBytes(k);
    var q := w1.pred[h];
    MoveFacts(cfg, t1, w1, s, h, k);
    var bs1 := t1.buckets;
    var bs2 := MoveSquatter(t1, h, s, q, k).buckets;
    forall x | 0 <= x < |bs2| && x != h
      ensures var x0 := if x == s then h else x;
              x0 != s && bs2[x].key == bs1[x0].key && bs2[x].flags.occupied == bs1[x0].flags.occupied
    {
    }
    forall x | 0 <= x < |bs2| && x != h && bs2[x].flags.occupied ensures bs2[x].key != kb {
      var x0 := if x == s then h else x;
      assert !Stores(bs1, x0, kb);
    }
    forall x, y | Twins(bs2, x, y) ensures x == y {
      var x0 := if x == s then h else x;
      var y0 := if y == s then h else y;
      if x != h && y != h { assert Twins(bs1, x0, y0); }
    }
  }

  lemma MoveHolds(cfg: Config, t: Table, t1: Table, w1: Shape, s: nat, h: nat, k: Key)
    requires Squatted(cfg, t1, w1, s, h, k) && s != h && Leftover(t, t1, s)
    requires forall j :: 0 <= j < |t.buckets| ==> !Stores(t.buckets, j, KeyBytes(k))
    ensures Inserted(t, KeyBytes(k), MoveSquatter(t1, h, s, w1.pred[h], k), h)
  {
    var q := w1.pred[h];
    MoveFrameOf(cfg, t1, w1, s, h, k);
    MoveHoldsFrame(t, t1, w1, MoveSquatter(t1, h, s, q, k), Moved(t1, w1, h, s, q), s, h, q, KeyBytes(k));
  }

  lemma MoveHoldsFrame(t: Table, t1: Table, w1: Shape, t2: Table, w2: Shape, s: nat, h: nat, q: nat, kb: seq<byte>)
    requires MoveFrame(t1, w1, t2, w2, s, h, q) && Leftover(t, t1, s) && Stores(t2.buckets, h, kb)
    requires forall j :: 0 <= j < |t.buckets| ==> !Stores(t.buckets, j, kb)
    ensures Inserted(t, kb, t2, h)
  {
    var bs1 := t1.buckets;
    var bs2 := t2.buckets;
    forall x | 0 <= x < |bs2| && x != h
      ensures bs2[x] == bs1[if x == s then h else x] || bs2[x] == bs1[x].(next := s)
    {
    }
    MoveContent(t, bs1, bs2, s, h, kb);
  }

  /** Contents after a move that relocates bucket `h` to `s` and rewrites `h`. */
  lemma MoveContent(t: Table, bs1: seq<Bucket>, bs2: seq<Bucket>, s: nat, h: nat, kb: seq<byte>)
    requires |bs2| == |bs1| == |t.buckets| && s < |bs1| && h < |bs1| && s != h
    requires forall x :: 0 <= x < |bs2| && x != h ==>
               var x0 := if x == s then h else x;
               EntryOf(bs2[x]) == EntryOf(bs1[x0]) && bs2[x].flags.occupied == bs1[x0].flags.occupied
    requires forall e :: HoldsExcept(bs1, s, e) <==> Holds(t.buckets, e)
    requires Stores(bs2, h, kb)
    requires forall j :: 0 <= j < |t.buckets| ==> !Stores(t.buckets, j, kb)
    ensures forall e :: Holds(bs2, e) <==> (Holds(t.buckets, e) && e.key != kb) || e == EntryOf(bs2[h])
  {
    forall e ensures Holds(bs2, e) <==> (Holds(t.buckets, e) && e.key != kb) || e == EntryOf(bs2[h]) {
      if Holds(bs2, e) && e != EntryOf(bs2[h]) {
        var j :| 0 <= j < |bs2| && bs2[j].flags.occupied && EntryOf(bs2[j]) == e;
        var j0 := if j == s then h else j;
        assert HoldsExcept(bs1, s, e) by {
          assert j0 != s && bs1[j0].flags.occupied && EntryOf(bs1[j0]) == e;
        }
      }
      if Holds(t.buckets, e) {
        assert HoldsExcept(bs1, s, e);
        var j :| 0 <= j < |bs1| && j != s && bs1[j].flags.occupied && EntryOf(bs1[j]) == e;
        var j2 := if j == h then s else j;
        assert bs2[j2].flags.occupied && EntryOf(bs2[j2]) == e;
      }
      AbsentHolds(t, kb, e);
    }
  }

  lemma MoveCount(cfg: Config, t: Table, t1: Table, w1: Shape, s: nat, h: nat, k: Key)
    requires Squatted(cfg, t1, w1, s, h, k) && s != h && Leftover(t, t1, s)
    ensures var t2 := MoveSquatter(t1, h, s, w1.pred[h], k);
            t2.used == t.used + 1 && Count(t2.buckets) == t2.used && FreeBelow(t2) && t2.gcLog == t.gcLog
  {
    var q := w1.pred[h];
    MoveFrameOf(cfg, t1, w1, s, h, k);
    MoveCountFrame(t, t1, w1, MoveSquatter(t1, h, s, q, k), Moved(t1, w1, h, s, q), s, h, q);
  }

  lemma MoveCountFrame(t: Table, t1: Table, w1: Shape, t2: Table, w2: Shape, s: nat, h: nat, q: nat)
    requires MoveFrame(t1, w1, t2, w2, s, h, q) && Leftover(t, t1, s)
    requires t1.buckets[h].flags.occupied && t2.buckets[h].flags.occupied
    requires t2.used == t1.used + 1 && t2.nextfree == t1.nextfree && t2.gcLog == t1.gcLog
    ensures t2.used == t.used + 1 && Count(t2.buckets) == t2.used && FreeBelow(t2) && t2.gcLog == t.gcLog
  {
    var bs1 := t1.buckets;
    var b1 := bs1[s := bs1[h]];
    var b2 := b1[q := b1[q].(next := s)];
    assert t2.buckets == b2[h := t2.buckets[h]];
    CountUpdate(bs1, s, bs1[h]);
    CountUpdate(b1, q, b1[q].(next := s));
    CountUpdate(b2, h, t2.buckets[h]);
    forall j | t2.nextfree < j < |bs1| ensures t2.buckets[j].flags.occupied {
      if j != s && j != h && j != q { assert t2.buckets[j] == bs1[j]; }
    }
  }

  /** The eviction case (uhtbl.c:93-115, repaired) keeps the invariant and adds the key. */
  lemma MoveShape(cfg: Config, t: Table, t1: Table, w1: Shape, s: nat, h: nat, k: Key)
    requires Squatted(cfg, t1, w1, s, h, k) && s != h && Leftover(t, t1, s)
    requires forall j :: 0 <= j < |t.buckets| ==> !Stores(t.buckets, j, KeyBytes(k))
    ensures var q := w1.pred[h];
            var t2 := MoveSquatter(t1, h, s, q, k);
            && PrevAfterFind(cfg, t1, t1.buckets[h].key, h) == Some(q)
            && Inv(cfg, t2, Moved(t1, w1, h, s, q))
            && t2.used == t.used + 1 && t2.gcLog == t.gcLog
            && Inserted(t, KeyBytes(k), t2, h)
  {
    var q := w1.pred[h];
    var t2 := MoveSquatter(t1, h, s, q, k);
    MovePred(cfg, t1, w1, s, h, k);
    forall i | 0 <= i < |t2.buckets| ensures Node(cfg, t2, Moved(t1, w1, h, s, q), -1, i) {
      MoveNode(cfg, t1, w1, s, h, k, i);
    }
    MoveKeys(cfg, t1, w1, s, h, k);
    MoveHolds(cfg, t, t1, w1, s, h, k);
    MoveCount(cfg, t, t1, w1, s, h, k);
  }
}
