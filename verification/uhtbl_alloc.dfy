/**
 What `_uhtbl_allocate` (uhtbl.c:279-298) does to the invariant.

 The slot it hands out is left stale: when the candidate was a deleted chain
 head, the head now holds a copy of its old successor and the successor's
 slot still holds the original.  `Allocated` describes the state in between:
 every bucket except the handed-out slot satisfies the chain invariant, the
 contents are those of the table before, and only the compacted chain has
 been renumbered.
 */
module UhtblAlloc {
  import opened Wrappers
  import opened UhtblFlags
  import opened UhtblKey
  import opened Uhtbl
  import opened UhtblShape

  /** `(t1, s)` is what the allocator made of `t`, described with witnesses `w` and `w1`. */
  ghost predicate Allocated(cfg: Config, t: Table, w: Shape, t1: Table, w1: Shape, s: nat) {
    && Inv(cfg, t, w)
    && s < |t.buckets|
    && Chains(cfg, t1, w1, s)
    && |t1.buckets| == |t.buckets| && t1.payload == t.payload && t1.used == t.used && t1.gcLog == t.gcLog
    && t1.buckets[s] == t.buckets[s]
    && w1.owner == w.owner
    && (forall x :: 0 <= x < |t.buckets| && w.owner[x] != w.owner[s] ==>
          t1.buckets[x] == t.buckets[x] && w1.pos[x] == w.pos[x] && w1.pred[x] == w.pred[x])
    && (forall x :: 0 <= x < |t.buckets| && t.buckets[x].flags.occupied ==> t1.buckets[x] == t.buckets[x])
    && (t.buckets[s].flags.stranger ==> 0 <= w.owner[s] < |t.buckets| && !t.buckets[w.owner[s]].flags.occupied)
    && (!t.buckets[s].flags.stranger ==> !t.buckets[s].flags.occupied && (w.owner[s] == s || w.owner[s] == -1))
    && Count(t1.buckets) == t.used + (if t1.buckets[s].flags.occupied then 1 else 0)
    && (forall j :: t1.nextfree < j < |t1.buckets| && j != s ==> t1.buckets[j].flags.occupied)
    && (forall e :: HoldsExcept(t1.buckets, s, e) <==> Holds(t.buckets, e))
  }

  /** No bucket other than the handed-out slot stores a key the table did not store. */
  lemma AllocatedKeys(cfg: Config, t: Table, w: Shape, t1: Table, w1: Shape, s: nat, k: seq<byte>)
    requires Allocated(cfg, t, w, t1, w1, s)
    requires forall j :: 0 <= j < |t.buckets| ==> !Stores(t.buckets, j, k)
    ensures forall j :: 0 <= j < |t1.buckets| && j != s ==> !Stores(t1.buckets, j, k)
  {
    forall j | 0 <= j < |t1.buckets| && j != s && Stores(t1.buckets, j, k) ensures false {
      assert HoldsExcept(t1.buckets, s, EntryOf(t1.buckets[j]));
      var i :| 0 <= i < |t.buckets| && t.buckets[i].flags.occupied && EntryOf(t.buckets[i]) == EntryOf(t1.buckets[j]);
      assert Stores(t.buckets, i, k);
    }
  }

  /** The free candidate had no successor: it is handed out as it is. */
  lemma AllocatePlain(cfg: Config, t: Table, w: Shape, a: nat)
    requires Inv(cfg, t, w)
    requires FirstFree(t, t.nextfree) == Some(a) && !t.buckets[a].flags.withNext
    ensures Allocate(t).Some? && Allocate(t).value.at == a
    ensures Allocated(cfg, t, w, Allocate(t).value.t, w, a)
  {
    var t1 := Allocate(t).value.t;
    assert t1.buckets == t.buckets;
    assert Node(cfg, t, w, -1, a);
    forall i | 0 <= i < |t.buckets| && i != a ensures Node(cfg, t1, w, a, i) {
      assert Node(cfg, t, w, -1, i);
      if t.buckets[i].flags.stranger {
        assert t.buckets[w.pred[i]].flags.withNext;
      }
      if t.buckets[i].flags.withNext {
        assert t.buckets[t.buckets[i].next].flags.stranger;
      }
    }
    forall e ensures HoldsExcept(t1.buckets, a, e) <==> Holds(t.buckets, e) {
      if Holds(t.buckets, e) {
        var i :| 0 <= i < |t.buckets| && t.buckets[i].flags.occupied && EntryOf(t.buckets[i]) == e;
        assert i != a;
      }
    }
  }

  /** The witness after compacting the deleted head `a` with its successor `s`. */
  ghost function Compacted(t: Table, w: Shape, a: nat, s: nat): (w1: Shape)
    requires Sized(t, w) && s < |t.buckets|
    ensures Sized(t, w1) && w1.owner == w.owner
  {
    var pos1 := seq(|t.buckets|, x requires 0 <= x < |t.buckets| =>
                  if w.owner[x] == a && x != a && x != s && w.pos[x] > 0 then w.pos[x] - 1 else w.pos[x]);
    var pred1 := if t.buckets[s].flags.withNext && t.buckets[s].next < |t.buckets|
                 then w.pred[t.buckets[s].next := a] else w.pred;
    Shape(w.owner, pos1, pred1)
  }

  /** The premise of compaction: `a` is the allocator's candidate and a deleted head. */
  ghost predicate CompactCase(cfg: Config, t: Table, w: Shape, a: nat) {
    Inv(cfg, t, w) && FirstFree(t, t.nextfree) == Some(a) && t.buckets[a].flags.withNext
  }

  /** The buckets after `a` has taken in its successor. */
  function CompactBuckets(t: Table, a: nat): seq<Bucket>
    requires WellFormed(t) && a < |t.buckets| && t.buckets[a].flags.withNext
  {
    var s := t.buckets[a].next;
    t.buckets[a := t.buckets[s].(flags := t.buckets[s].flags.(stranger := false))]
  }

  /** The basic facts about a deleted head and its successor. */
  lemma CompactFacts(cfg: Config, t: Table, w: Shape, a: nat)
    requires CompactCase(cfg, t, w, a)
    ensures var s := t.buckets[a].next;
            && a < t.payload && w.owner[a] == a && w.pos[a] == 0 && !t.buckets[a].flags.occupied
            && !t.buckets[a].flags.stranger
            && s < |t.buckets| && s != a && t.buckets[s].flags.stranger && t.buckets[s].flags.occupied
            && w.pred[s] == a && w.owner[s] == a && w.pos[s] == 1
            && (forall x :: 0 <= x < |t.buckets| && w.owner[x] == a && x != a && x != s ==> w.pos[x] >= 2)
            && (t.buckets[s].flags.withNext ==>
                  var y := t.buckets[s].next;
                  y != s && y != a && t.buckets[y].flags.stranger && w.pred[y] == s && w.owner[y] == a && w.pos[y] == 2)
  {
    var s := t.buckets[a].next;
    assert Node(cfg, t, w, -1, a);
    assert Node(cfg, t, w, -1, s);
    forall x | 0 <= x < |t.buckets| && w.owner[x] == a && x != a && x != s ensures w.pos[x] >= 2 {
      if w.pos[x] == 0 { SamePlace(cfg, t, w, -1, x, a); }
      if w.pos[x] == 1 { SamePlace(cfg, t, w, -1, x, s); }
    }
    if t.buckets[s].flags.withNext {
      assert Node(cfg, t, w, -1, t.buckets[s].next);
    }
  }

  /** The table the allocator leaves behind when it compacts `a`. */
  function CompactTable(t: Table, a: nat): Table
    requires WellFormed(t) && a < |t.buckets| && t.buckets[a].flags.withNext
  {
    t.(buckets := CompactBuckets(t, a), nextfree := if a > 0 then a - 1 else 0)
  }

  /** The new head `a` satisfies the chain facts after compaction. */
  lemma CompactHead(cfg: Config, t: Table, w: Shape, a: nat)
    requires CompactCase(cfg, t, w, a)
    ensures WellFormed(CompactTable(t, a))
    ensures Node(cfg, CompactTable(t, a), Compacted(t, w, a, t.buckets[a].next), t.buckets[a].next, a)
  {
    CompactFacts(cfg, t, w, a);
    var s := t.buckets[a].next;
    assert Node(cfg, t, w, -1, s);
  }

  /** Compaction's writes, bucket by bucket and witness entry by witness entry. */
  ghost predicate CompactFrame(t: Table, w: Shape, t1: Table, w1: Shape, a: nat, s: nat) {
    && WellFormed(t) && WellFormed(t1) && Sized(t, w) && Sized(t1, w1)
    && |t1.buckets| == |t.buckets| && t1.payload == t.payload
    && a < |t.buckets| && s < |t.buckets| && a != s
    && t.buckets[a].flags.withNext && t.buckets[a].next == s && !t.buckets[a].flags.stranger
    && w.owner[a] == a && w.pos[a] == 0 && w.pred[s] == a && w.owner[s] == a && w.pos[s] == 1
    && (forall x :: 0 <= x < |t.buckets| && w.owner[x] == a && x != a && x != s ==> w.pos[x] >= 2)
    && (t.buckets[s].flags.withNext ==>
          var y := t.buckets[s].next;
          y < |t.buckets| && y != s && y != a && w.pred[y] == s && w1.pred[y] == a)
    && t1.buckets[a] == t.buckets[s].(flags := t.buckets[s].flags.(stranger := false))
    && (forall x :: 0 <= x < |t.buckets| && x != a ==> t1.buckets[x] == t.buckets[x])
    && w1.owner == w.owner
    && (forall x :: 0 <= x < |t.buckets| ==>
          w1.pos[x] == if w.owner[x] == a && x != a && x != s && w.pos[x] > 0 then w.pos[x] - 1 else w.pos[x])
    && (forall x :: 0 <= x < |t.buckets| && !(t.buckets[s].flags.withNext && x == t.buckets[s].next) ==>
          w1.pred[x] == w.pred[x])
  }

  lemma CompactFrameOf(cfg: Config, t: Table, w: Shape, a: nat)
    requires CompactCase(cfg, t, w, a)
    ensures WellFormed(CompactTable(t, a))
    ensures CompactFrame(t, w, CompactTable(t, a), Compacted(t, w, a, t.buckets[a].next), a, t.buckets[a].next)
  {
    CompactFacts(cfg, t, w, a);
  }

  /** A bucket other than the new head and the stale slot keeps its chain facts. */
  lemma CompactOtherFrame(cfg: Config, t: Table, w: Shape, t1: Table, w1: Shape, a: nat, s: nat, i: nat)
    requires CompactFrame(t, w, t1, w1, a, s)
    requires i < |t.buckets| && i != a && i != s && Node(cfg, t, w, -1, i)
    ensures Node(cfg, t1, w1, s, i)
  {
    var bs := t.buckets;
    var bs1 := t1.buckets;
    assert bs1[i] == bs[i];
    if bs[i].flags.stranger {
      var p := w.pred[i];
      if !(bs[s].flags.withNext && i == bs[s].next) {
        assert p != s && p != a;
        assert bs1[p] == bs[p];
      }
    }
    if bs[i].flags.withNext {
      var n := bs[i].next;
      assert n != s && n != a;
      assert bs1[n] == bs[n];
    }
  }

  lemma CompactOther(cfg: Config, t: Table, w: Shape, a: nat, i: nat)
    requires CompactCase(cfg, t, w, a)
    requires i < |t.buckets| && i != a && i != t.buckets[a].next
    ensures WellFormed(CompactTable(t, a))
    ensures Node(cfg, CompactTable(t, a), Compacted(t, w, a, t.buckets[a].next), t.buckets[a].next, i)
  {
    CompactFrameOf(cfg, t, w, a);
    assert Node(cfg, t, w, -1, i);
    CompactOtherFrame(cfg, t, w, CompactTable(t, a), Compacted(t, w, a, t.buckets[a].next), a, t.buckets[a].next, i);
  }

  /** Keys stay distinct and contents stay the same after compaction, the stale slot aside. */
  lemma CompactKeys(cfg: Config, t: Table, w: Shape, a: nat)
    requires CompactCase(cfg, t, w, a)
    ensures var s := t.buckets[a].next;
            && DistinctKeys(t.(buckets := CompactBuckets(t, a)), s)
            && (forall e :: HoldsExcept(CompactBuckets(t, a), s, e) <==> Holds(t.buckets, e))
  {
    var bs := t.buckets;
    var N := |bs|;
    var s := bs[a].next;
    var bs1 := CompactBuckets(t, a);
    CompactFacts(cfg, t, w, a);
    forall i, j | i != s && j != s && Twins(bs1, i, j) ensures i == j {
      var i0 := if i == a then s else i;
      var j0 := if j == a then s else j;
      assert Twins(bs, i0, j0);
    }
    forall e ensures HoldsExcept(bs1, s, e) <==> Holds(bs, e) {
      if Holds(bs, e) {
        var i :| 0 <= i < N && bs[i].flags.occupied && EntryOf(bs[i]) == e;
        var i1 := if i == s then a else i;
        assert bs1[i1].flags.occupied && EntryOf(bs1[i1]) == e;
      }
      if HoldsExcept(bs1, s, e) {
        var i :| 0 <= i < N && i != s && bs1[i].flags.occupied && EntryOf(bs1[i]) == e;
        var i0 := if i == a then s else i;
        assert bs[i0].flags.occupied && EntryOf(bs[i0]) == e;
      }
    }
  }

  /**
   After compaction the chains hold, the stale slot exempted: the free
   candidate `a` is a deleted head whose successor is pulled into `a`, and
   the successor's slot is handed out.
   */
  lemma CompactChains(cfg: Config, t: Table, w: Shape, a: nat)
    requires CompactCase(cfg, t, w, a)
    ensures Chains(cfg, CompactTable(t, a), Compacted(t, w, a, t.buckets[a].next), t.buckets[a].next)
  {
    var s := t.buckets[a].next;
    var t1 := CompactTable(t, a);
    var w1 := Compacted(t, w, a, s);
    CompactFacts(cfg, t, w, a);
    forall i | 0 <= i < |t.buckets| && i != s ensures Node(cfg, t1, w1, s, i) {
      if i == a { CompactHead(cfg, t, w, a); } else { CompactOther(cfg, t, w, a, i); }
    }
    CompactKeys(cfg, t, w, a);
  }

  /** Compaction moves one occupant: the count and the cursor's promise survive. */
  lemma CompactCount(cfg: Config, t: Table, w: Shape, a: nat)
    requires CompactCase(cfg, t, w, a)
    ensures var s := t.buckets[a].next;
            var t1 := CompactTable(t, a);
            && Count(t1.buckets) == t.used + 1
            && (forall j :: t1.nextfree < j < |t1.buckets| && j != s ==> t1.buckets[j].flags.occupied)
  {
    var bs := t.buckets;
    var t1 := CompactTable(t, a);
    var bs1 := t1.buckets;
    CompactFacts(cfg, t, w, a);
    CountUpdate(bs, a, bs1[a]);
    forall j | t1.nextfree < j < |bs| && j != bs[a].next ensures bs1[j].flags.occupied {
      if j != a { assert bs1[j] == bs[j]; }
    }
  }

  lemma AllocateCompact(cfg: Config, t: Table, w: Shape, a: nat)
    requires CompactCase(cfg, t, w, a)
    ensures Allocate(t).Some? && Allocate(t).value.at == t.buckets[a].next
    ensures Allocated(cfg, t, w, Allocate(t).value.t, Compacted(t, w, a, t.buckets[a].next), t.buckets[a].next)
  {
    var bs := t.buckets;
    var s := bs[a].next;
    var t1 := Allocate(t).value.t;
    var w1 := Compacted(t, w, a, s);
    assert t1 == CompactTable(t, a);
    CompactFacts(cfg, t, w, a);
    CompactChains(cfg, t, w, a);
    CompactKeys(cfg, t, w, a);
    CompactCount(cfg, t, w, a);
    forall x | 0 <= x < |bs| && w.owner[x] != w.owner[s]
      ensures t1.buckets[x] == bs[x] && w1.pos[x] == w.pos[x] && w1.pred[x] == w.pred[x]
    {
    }
  }

  /** Whenever the allocator succeeds, its result is described by `Allocated`. */
  lemma AllocateShape(cfg: Config, t: Table, w: Shape)
    requires Inv(cfg, t, w) && Allocate(t).Some?
    ensures exists w1 :: Allocated(cfg, t, w, Allocate(t).value.t, w1, Allocate(t).value.at)
  {
    var a := FirstFree(t, t.nextfree).value;
    if t.buckets[a].flags.withNext {
      assert CompactCase(cfg, t, w, a);
      AllocateCompact(cfg, t, w, a);
    } else {
      AllocatePlain(cfg, t, w, a);
    }
  }

  /** The allocator fails exactly when every bucket is occupied. */
  lemma AllocateFailsOnlyWhenFull(cfg: Config, t: Table, w: Shape)
    requires Inv(cfg, t, w)
    ensures Allocate(t).None? <==> t.used == |t.buckets|
  {
    if FirstFree(t, t.nextfree).None? {
      assert forall j :: 0 <= j < |t.buckets| ==> t.buckets[j].flags.occupied by {
        forall j | 0 <= j < |t.buckets| ensures t.buckets[j].flags.occupied {
          if j > t.nextfree { assert FreeBelow(t); }
        }
      }
    }
  }
}
