/**
 Removal keeps the table invariant and takes exactly the one entry of the
 key out (uhtbl.h:268-300): a chain head only loses OCCUPIED and stays the
 head, a STRANGER is spliced out and its chain closes up behind it.
 */
module UhtblUnset {
  import opened Wrappers
  import opened UhtblFlags
  import opened UhtblKey
  import opened Uhtbl
  import opened UhtblShape
  import opened UhtblPlace
  import opened UhtblScan

  /** `t2` is `t` without key `kb`: no bucket stores it and every other entry stays. */
  ghost predicate Removed(t: Table, kb: seq<byte>, t2: Table) {
    && |t2.buckets| == |t.buckets| && t2.payload == t.payload
    && (forall j :: 0 <= j < |t2.buckets| ==> !Stores(t2.buckets, j, kb))
    && (forall e :: Holds(t2.buckets, e) <==> Holds(t.buckets, e) && e.key != kb)
  }

  /**
   Emptying the one bucket `i` that stores a key, and keeping the entries of
   all others, removes exactly that key.
   */
  lemma VacatedContents(t: Table, i: nat, bs2: seq<Bucket>)
    requires DistinctKeys(t, -1) && i < |t.buckets| && t.buckets[i].flags.occupied
    requires |bs2| == |t.buckets| && !bs2[i].flags.occupied
    requires forall x :: 0 <= x < |bs2| && x != i ==>
               EntryOf(bs2[x]) == EntryOf(t.buckets[x]) && bs2[x].flags.occupied == t.buckets[x].flags.occupied
    ensures forall j :: 0 <= j < |bs2| ==> !Stores(bs2, j, t.buckets[i].key)
    ensures forall e :: Holds(bs2, e) <==> Holds(t.buckets, e) && e.key != t.buckets[i].key
  {
    var bs := t.buckets;
    var kb := bs[i].key;
    forall j | 0 <= j < |bs2| ensures !Stores(bs2, j, kb) {
      if j != i && Stores(bs2, j, kb) {
        assert Twins(bs, i, j);
      }
    }
    forall e ensures Holds(bs2, e) <==> Holds(bs, e) && e.key != kb {
      if Holds(bs2, e) {
        var j :| 0 <= j < |bs2| && bs2[j].flags.occupied && EntryOf(bs2[j]) == e;
        assert bs[j].flags.occupied && EntryOf(bs[j]) == e;
        assert !Stores(bs2, j, kb);
      }
      if Holds(bs, e) && e.key != kb {
        var j :| 0 <= j < |bs| && bs[j].flags.occupied && EntryOf(bs[j]) == e;
        assert j != i;
        assert bs2[j].flags.occupied && EntryOf(bs2[j]) == e;
      }
    }
  }

  /** The count after vacating an occupied bucket, and the cursor's promise. */
  lemma VacatedCount(cfg: Config, t: Table, i: nat, bs2: seq<Bucket>)
    requires t.used == Count(t.buckets) && FreeBelow(t) && i < |t.buckets| && t.buckets[i].flags.occupied
    requires |bs2| == |t.buckets| && !bs2[i].flags.occupied
    requires forall x :: 0 <= x < |bs2| && x != i ==> bs2[x].flags.occupied == t.buckets[x].flags.occupied
    ensures var t2 := Vacate(cfg, t, i, bs2);
            t2.used == t.used - 1 && t2.used == Count(bs2) && FreeBelow(t2)
  {
    var bs := t.buckets;
    var mid := bs[i := bs2[i]];
    CountUpdate(bs, i, bs2[i]);
    CountSame(mid, bs2);
  }

  /** Arrays that agree on occupancy have the same count. */
  lemma {:induction false} CountSame(a: seq<Bucket>, b: seq<Bucket>)
    requires |a| == |b| && forall x :: 0 <= x < |a| ==> a[x].flags.occupied == b[x].flags.occupied
    ensures Count(a) == Count(b)
    decreases |a|
  {
    if |a| > 0 {
      CountSame(a[1..], b[1..]);
    }
  }

  /** Clearing OCCUPIED on a chain head keeps every bucket's chain facts under the same witness. */
  lemma HeadChains(cfg: Config, t: Table, w: Shape, i: nat)
    requires Chains(cfg, t, w, -1) && i < |t.buckets| && t.buckets[i].flags.occupied && !t.buckets[i].flags.stranger
    ensures var t2 := t.(buckets := Unlink(t.buckets, i, None));
            Chains(cfg, t2, w, -1)
  {
    var bs := t.buckets;
    var bs2 := Unlink(bs, i, None);
    var t2 := t.(buckets := bs2);
    assert bs2 == bs[i := bs[i].(flags := bs[i].flags.(occupied := false))];
    forall j | 0 <= j < |bs| ensures Node(cfg, t2, w, -1, j) {
      assert Node(cfg, t, w, -1, j);
      if bs[j].flags.stranger { assert bs2[w.pred[j]].flags.withNext == bs[w.pred[j]].flags.withNext; }
    }
    forall x, y | Twins(bs2, x, y) ensures x == y { assert Twins(bs, x, y); }
  }

  /** Unsetting a chain head (uhtbl.c:178-179): OCCUPIED goes, the chain stays. */
  lemma UnsetHeadShape(cfg: Config, t: Table, w: Shape, i: nat)
    requires Inv(cfg, t, w) && i < |t.buckets| && t.buckets[i].flags.occupied && !t.buckets[i].flags.stranger
    ensures var t2 := Vacate(cfg, t, i, Unlink(t.buckets, i, None));
            && Inv(cfg, t2, w) && t2.used == t.used - 1
            && Removed(t, t.buckets[i].key, t2)
  {
    var bs := t.buckets;
    var bs2 := Unlink(bs, i, None);
    var t2 := Vacate(cfg, t, i, bs2);
    assert bs2 == bs[i := bs[i].(flags := bs[i].flags.(occupied := false))];
    HeadChains(cfg, t, w, i);
    assert Chains(cfg, t2, w, -1) by {
      var t3 := t.(buckets := bs2);
      assert forall j :: 0 <= j < |bs| ==> Node(cfg, t3, w, -1, j) == Node(cfg, t2, w, -1, j);
    }
    VacatedCount(cfg, t, i, bs2);
    VacatedContents(t, i, bs2);
  }

  /** The witness after the STRANGER `i` leaves its chain: the tail behind it moves up one place. */
  ghost function Spliced(t: Table, w: Shape, i: nat): (w2: Shape)
    requires Sized(t, w) && i < |t.buckets|
    ensures Sized(t, w2)
  {
    var b := t.buckets[i];
    var o := w.owner[i];
    var pos2 := seq(|t.buckets|, x requires 0 <= x < |t.buckets| =>
                  if x == i then 0 else if w.owner[x] == o && w.pos[x] > w.pos[i] then w.pos[x] - 1 else w.pos[x]);
    Shape(w.owner[i := if i < t.payload then i else -1], pos2,
          if b.flags.withNext && b.next < |t.buckets| then w.pred[b.next := w.pred[i]] else w.pred)
  }

  /** The splice's writes, bucket by bucket and witness entry by witness entry. */
  ghost predicate SpliceFrame(t: Table, w: Shape, t2: Table, w2: Shape, i: nat, p: nat) {
    && WellFormed(t) && WellFormed(t2) && Sized(t, w) && Sized(t2, w2)
    && |t2.buckets| == |t.buckets| && t2.payload == t.payload
    && i < |t.buckets| && p < |t.buckets| && i != p
    && t.buckets[i].flags.stranger && w.pred[i] == p
    && t.buckets[p].flags.withNext && t.buckets[p].next == i
    && w.owner[p] == w.owner[i] && w.pos[p] + 1 == w.pos[i]
    && (forall x :: 0 <= x < |t.buckets| && w.owner[x] == w.owner[i] && w.pos[x] == w.pos[i] ==> x == i)
    && (t.buckets[i].flags.withNext ==>
          var n := t.buckets[i].next;
          && n < |t.buckets| && n != i && n != p && t.buckets[n].flags.stranger
          && w.pred[n] == i && w2.pred[n] == p && w.owner[n] == w.owner[i] && w.pos[n] == w.pos[i] + 1)
    && t2.buckets[i] == t.buckets[i].(flags := NoFlags)
    && t2.buckets[p] == (if t.buckets[i].flags.withNext then t.buckets[p].(next := t.buckets[i].next)
                         else t.buckets[p].(flags := t.buckets[p].flags.(withNext := false)))
    && (forall x :: 0 <= x < |t.buckets| && x != i && x != p ==> t2.buckets[x] == t.buckets[x])
    && w2.owner[i] == (if i < t.payload then i else -1) && w2.pos[i] == 0
    && (forall x :: 0 <= x < |t.buckets| && x != i ==>
          && w2.owner[x] == w.owner[x]
          && w2.pos[x] == (if w.owner[x] == w.owner[i] && w.pos[x] > w.pos[i] then w.pos[x] - 1 else w.pos[x]))
    && (forall x :: 0 <= x < |t.buckets| && !(t.buckets[i].flags.withNext && x == t.buckets[i].next) ==>
          w2.pred[x] == w.pred[x])
  }

  lemma SpliceFrameOf(cfg: Config, t: Table, w: Shape, i: nat)
    requires Inv(cfg, t, w) && i < |t.buckets| && t.buckets[i].flags.occupied && t.buckets[i].flags.stranger
    requires w.pred[i] < |t.buckets|
    ensures SpliceFrame(t, w, Vacate(cfg, t, i, Unlink(t.buckets, i, Some(w.pred[i]))), Spliced(t, w, i), i, w.pred[i])
  {
    var bs := t.buckets;
    assert Node(cfg, t, w, -1, i);
    forall x | 0 <= x < |bs| && w.owner[x] == w.owner[i] && w.pos[x] == w.pos[i] ensures x == i {
      SamePlace(cfg, t, w, -1, x, i);
    }
    if bs[i].flags.withNext {
      assert Node(cfg, t, w, -1, bs[i].next);
    }
  }

  /** A bucket other than the spliced one and its predecessor keeps its facts. */
  lemma SpliceNodeOther(cfg: Config, t: Table, w: Shape, t2: Table, w2: Shape, i: nat, p: nat, x: nat)
    requires SpliceFrame(t, w, t2, w2, i, p)
    requires x < |t.buckets| && x != i && x != p && Node(cfg, t, w, -1, x)
    ensures Node(cfg, t2, w2, -1, x)
  {
    var bs := t.buckets;
    var bs2 := t2.buckets;
    assert bs2[x] == bs[x];
    if bs[x].flags.stranger {
      var y := w.pred[x];
      if !(bs[i].flags.withNext && x == bs[i].next) {
        assert y != i && y != p;
        assert bs2[y] == bs[y];
        assert w.pos[y] != w.pos[i] || w.owner[y] != w.owner[i];
      }
    }
    if bs[x].flags.withNext {
      var nx := bs[x].next;
      assert nx != i;
    }
  }

  /** The predecessor of the spliced bucket takes over its successor, or ends the chain. */
  lemma SpliceNodePred(cfg: Config, t: Table, w: Shape, t2: Table, w2: Shape, i: nat, p: nat)
    requires SpliceFrame(t, w, t2, w2, i, p) && Node(cfg, t, w, -1, p)
    ensures Node(cfg, t2, w2, -1, p)
  {
    var bs := t.buckets;
    var bs2 := t2.buckets;
    if bs[p].flags.stranger {
      var y := w.pred[p];
      assert y != i && y != p;
      assert bs2[y] == bs[y];
    }
  }

  /** The spliced bucket itself: zero flags, an empty head or a free cellar bucket. */
  lemma SpliceNodeSelf(cfg: Config, t: Table, w: Shape, t2: Table, w2: Shape, i: nat, p: nat)
    requires SpliceFrame(t, w, t2, w2, i, p) && KeyForm(t.buckets[i])
    ensures Node(cfg, t2, w2, -1, i)
  {
  }

  /** The splice rewrites only the links: every other bucket keeps its entry and occupancy. */
  lemma SpliceKeeps(t: Table, w: Shape, t2: Table, w2: Shape, i: nat, p: nat)
    requires SpliceFrame(t, w, t2, w2, i, p)
    ensures !t2.buckets[i].flags.occupied
    ensures forall x :: 0 <= x < |t2.buckets| && x != i ==>
              EntryOf(t2.buckets[x]) == EntryOf(t.buckets[x])
              && t2.buckets[x].flags.occupied == t.buckets[x].flags.occupied
  {
  }

  /** The chains after the splice, bucket by bucket. */
  lemma SpliceChains(cfg: Config, t: Table, w: Shape, t2: Table, w2: Shape, i: nat, p: nat)
    requires SpliceFrame(t, w, t2, w2, i, p) && Chains(cfg, t, w, -1)
    ensures Chains(cfg, t2, w2, -1)
  {
    var bs := t.buckets;
    var bs2 := t2.buckets;
    forall x | 0 <= x < |bs| ensures Node(cfg, t2, w2, -1, x) {
      assert Node(cfg, t, w, -1, x);
      if x == i {
        SpliceNodeSelf(cfg, t, w, t2, w2, i, p);
      } else if x == p {
        SpliceNodePred(cfg, t, w, t2, w2, i, p);
      } else {
        SpliceNodeOther(cfg, t, w, t2, w2, i, p, x);
      }
    }
    SpliceKeeps(t, w, t2, w2, i, p);
    forall x, y | Twins(bs2, x, y) ensures x == y { assert Twins(bs, x, y); }
  }

  /** Unsetting a STRANGER (uhtbl.c:178-189) keeps the invariant under the spliced witness. */
  lemma UnsetStrangerShape(cfg: Config, t: Table, w: Shape, i: nat)
    requires Inv(cfg, t, w) && i < |t.buckets| && t.buckets[i].flags.occupied && t.buckets[i].flags.stranger
    requires w.pred[i] < |t.buckets|
    ensures var t2 := Vacate(cfg, t, i, Unlink(t.buckets, i, Some(w.pred[i])));
            && Inv(cfg, t2, Spliced(t, w, i)) && t2.used == t.used - 1
            && Removed(t, t.buckets[i].key, t2)
  {
    var p := w.pred[i];
    var bs2 := Unlink(t.buckets, i, Some(p));
    var t2 := Vacate(cfg, t, i, bs2);
    var w2 := Spliced(t, w, i);
    SpliceFrameOf(cfg, t, w, i);
    SpliceChains(cfg, t, w, t2, w2, i, p);
    SpliceKeeps(t, w, t2, w2, i, p);
    VacatedCount(cfg, t, i, bs2);
    VacatedContents(t, i, bs2);
  }

  /**
   uhtbl_unset on a valid table: ENOENT exactly when the key is absent, with
   the table untouched; otherwise the table stays valid, loses exactly the
   key's entry and one from `used`, and the removed bucket goes to the
   garbage collector.
   */
  lemma UnsetSpec(cfg: Config, t: Table, w: Shape, k: Key)
    requires Inv(cfg, t, w) && ValidKey(k)
    ensures var r := Unset(cfg, t, k);
            && (r.0 == UHTBL_ENOENT <==> !Present(t, KeyBytes(k)))
            && (r.0 == UHTBL_OK ==>
                  && Valid(cfg, r.1) && Removed(t, KeyBytes(k), r.1) && r.1.used == t.used - 1
                  && exists i :: Stores(t.buckets, i, KeyBytes(k)) && r.1.gcLog == GcNote(cfg, t.gcLog, t.buckets[i]))
  {
    var kb := KeyBytes(k);
    GetSpec(cfg, t, w, k);
    FindSpec(cfg, t, w, -1, kb);
    match Find(cfg, t, kb, false)
    case Hit(i, prev) =>
      assert Stores(t.buckets, i, kb);
      assert Node(cfg, t, w, -1, i);
      if t.buckets[i].flags.stranger {
        UnsetStrangerShape(cfg, t, w, i);
        assert Inv(cfg, Unset(cfg, t, k).1, Spliced(t, w, i));
      } else {
        UnsetHeadShape(cfg, t, w, i);
        assert Inv(cfg, Unset(cfg, t, k).1, w);
      }
    case _ =>
  }

  /**
   uhtbl_remove (uhtbl.c:160-165) of an occupied bucket on a valid table
   succeeds and removes exactly that bucket's entry.
   */
  lemma RemoveSpec(cfg: Config, t: Table, w: Shape, i: nat)
    requires Inv(cfg, t, w) && i < |t.buckets| && t.buckets[i].flags.occupied
    ensures KeyForm(t.buckets[i])
    ensures var r := Remove(cfg, t, i);
            && r.0 == UHTBL_OK && Valid(cfg, r.1) && Removed(t, t.buckets[i].key, r.1)
            && r.1.used == t.used - 1 && r.1.gcLog == GcNote(cfg, t.gcLog, t.buckets[i])
  {
    assert Node(cfg, t, w, -1, i);
    var k := KeyOf(t.buckets[i]);
    UnsetSpec(cfg, t, w, k);
    assert Stores(t.buckets, i, KeyBytes(k));
    forall j | Stores(t.buckets, j, KeyBytes(k)) ensures j == i {
      assert Twins(t.buckets, i, j);
    }
  }

  /** After uhtbl_unset the key is gone: the next lookup answers NULL. */
  lemma UnsetThenGet(cfg: Config, t: Table, w: Shape, k: Key)
    requires Inv(cfg, t, w) && ValidKey(k)
    ensures Get(cfg, Unset(cfg, t, k).1, k).None?
  {
    UnsetSpec(cfg, t, w, k);
    var r := Unset(cfg, t, k);
    var w2 :| Inv(cfg, r.1, w2);
    GetSpec(cfg, r.1, w2, k);
    if r.0 == UHTBL_ENOENT {
      GetSpec(cfg, t, w, k);
    }
  }

  /**
   Unsetting in the middle of an iteration (uhtbl.h:252-254): from the saved
   cursor, the iteration goes on to visit exactly the buckets it would have
   visited, less the one that held the unset key.
   */
  lemma UnsetDuringScan(cfg: Config, t: Table, w: Shape, k: Key, iter: nat)
    requires Inv(cfg, t, w) && ValidKey(k) && iter <= |t.buckets|
    ensures var t2 := Unset(cfg, t, k).1;
            forall x :: x in Scan(t2, iter) <==>
                          0 <= x < |t.buckets| && x in Scan(t, iter) && t.buckets[x].key != KeyBytes(k)
  {
    var t2 := Unset(cfg, t, k).1;
    UnsetSpec(cfg, t, w, k);
    ScanSpec(t, iter);
    ScanSpec(t2, iter);
    forall x | 0 <= x < |t.buckets| && t.buckets[x].key == KeyBytes(k)
      ensures !t2.buckets[x].flags.occupied
    {
      assert !Stores(t2.buckets, x, KeyBytes(k));
    }
  }
}
