/**
 The structural invariant of a `uhtbl` and what it buys for lookup.

 A ghost `Shape` names, for every bucket, the home address of the chain it
 belongs to (`owner`, -1 for a bucket in no chain), its distance from that
 home along the chain (`pos`) and, for a STRANGER, the bucket linking to it
 (`pred`).  With these the chain properties become per-bucket facts:

   - a bucket that is not a STRANGER is the head of the chain of its own
     address when that address is hash-addressable, and free otherwise;
   - a STRANGER is occupied and is linked from exactly one bucket of its own
     chain, one step closer to the home;
   - an occupied bucket belongs to the chain of its key's home;
   - positions are below the array size, so chains are acyclic and a walk
     from a home ends within `size` steps.

 `skip` exempts one slot from all of this: the slot `_uhtbl_allocate` has just
 handed out, whose old contents are stale until the caller overwrites them.
 */
module UhtblShape {
  import opened Wrappers
  import opened UhtblFlags
  import opened UhtblKey
  import opened Uhtbl

  datatype Shape = Shape(owner: seq<int>, pos: seq<nat>, pred: seq<nat>)

  ghost predicate Sized(t: Table, w: Shape) {
    |w.owner| == |t.buckets| && |w.pos| == |t.buckets| && |w.pred| == |t.buckets|
  }

  /** The facts about bucket `i`. */
  ghost predicate Node(cfg: Config, t: Table, w: Shape, skip: int, i: nat)
    requires WellFormed(t) && Sized(t, w) && i < |t.buckets|
  {
    var b := t.buckets[i];
    && KeyForm(b)
    && w.pos[i] < |t.buckets|
    && (!b.flags.stranger && i < t.payload ==> w.owner[i] == i && w.pos[i] == 0)
    && (!b.flags.stranger && i >= t.payload ==> w.owner[i] == -1 && !b.flags.occupied && !b.flags.withNext)
    && (b.flags.stranger ==>
          && 0 <= w.owner[i] < t.payload && 1 <= w.pos[i] && b.flags.occupied
          && w.pred[i] < |t.buckets| && w.pred[i] != skip
          && t.buckets[w.pred[i]].flags.withNext && t.buckets[w.pred[i]].next == i
          && w.owner[w.pred[i]] == w.owner[i] && w.pos[w.pred[i]] + 1 == w.pos[i])
    && (b.flags.withNext ==> b.next != skip && t.buckets[b.next].flags.stranger && w.pred[b.next] == i)
    && (b.flags.occupied ==> Home(cfg, t.payload, b.key) == w.owner[i])
  }

  /** What the exempted slot may look like: a STRANGER, or a free bucket with no successor. */
  predicate SkipSlot(b: Bucket) {
    b.flags.stranger || (!b.flags.occupied && !b.flags.withNext)
  }

  /** Buckets `i` and `j` are both occupied and hold the same key. */
  predicate Twins(bs: seq<Bucket>, i: int, j: int) {
    0 <= i < |bs| && 0 <= j < |bs| && bs[i].flags.occupied && bs[j].flags.occupied && bs[i].key == bs[j].key
  }

  /** Keys of occupied buckets, other than `skip`, are pairwise distinct. */
  ghost predicate DistinctKeys(t: Table, skip: int) {
    forall i, j :: i != skip && j != skip && Twins(t.buckets, i, j) ==> i == j
  }

  ghost predicate Chains(cfg: Config, t: Table, w: Shape, skip: int) {
    && WellFormed(t) && Sized(t, w) && -1 <= skip < |t.buckets|
    && (skip >= 0 ==> SkipSlot(t.buckets[skip]))
    && (forall i :: 0 <= i < |t.buckets| && i != skip ==> Node(cfg, t, w, skip, i))
    && DistinctKeys(t, skip)
  }

  /** Every bucket above `nextfree` is occupied, so the allocator misses no free bucket. */
  ghost predicate FreeBelow(t: Table) {
    forall j :: t.nextfree < j < |t.buckets| ==> t.buckets[j].flags.occupied
  }

  /** The table invariant: chains, the `used` count, and the allocator's cursor. */
  ghost predicate Inv(cfg: Config, t: Table, w: Shape) {
    && Chains(cfg, t, w, -1)
    && t.used == Count(t.buckets)
    && FreeBelow(t)
  }

  ghost predicate Valid(cfg: Config, t: Table) {
    exists w :: Inv(cfg, t, w)
  }

  /** The key-value content of an occupied bucket, independent of where it sits. */
  datatype Entry = Entry(key: seq<byte>, localKey: bool, user: byte, data: seq<byte>)

  function EntryOf(b: Bucket): Entry {
    Entry(b.key, b.flags.localKey, b.user, b.data)
  }

  /** `e` is the content of some occupied bucket. */
  ghost predicate Holds(bs: seq<Bucket>, e: Entry) {
    exists i :: 0 <= i < |bs| && bs[i].flags.occupied && EntryOf(bs[i]) == e
  }

  /** Bucket `j` stores key `k`. */
  predicate Stores(bs: seq<Bucket>, j: int, k: seq<byte>) {
    0 <= j < |bs| && bs[j].flags.occupied && bs[j].key == k
  }

  /** The bucket at position `p` on the chain of `j`, found by following `pred` back. */
  ghost function Ancestor(cfg: Config, t: Table, w: Shape, skip: int, j: nat, p: nat): (a: nat)
    requires Chains(cfg, t, w, skip) && j < |t.buckets| && j != skip && w.owner[j] >= 0 && p <= w.pos[j]
    ensures a < |t.buckets| && a != skip && w.owner[a] == w.owner[j] && w.pos[a] == p
    decreases w.pos[j] - p
  {
    assert Node(cfg, t, w, skip, j);
    if p == w.pos[j] then j
    else Ancestor(cfg, t, w, skip, w.pred[j], p)
  }

  /** Consecutive ancestors are linked. */
  lemma {:induction false} AncestorLink(cfg: Config, t: Table, w: Shape, skip: int, j: nat, p: nat)
    requires Chains(cfg, t, w, skip) && j < |t.buckets| && j != skip && w.owner[j] >= 0 && p < w.pos[j]
    ensures var a := Ancestor(cfg, t, w, skip, j, p);
            t.buckets[a].flags.withNext && t.buckets[a].next == Ancestor(cfg, t, w, skip, j, p + 1)
    decreases w.pos[j] - p
  {
    assert Node(cfg, t, w, skip, j);
    if p + 1 < w.pos[j] {
      AncestorLink(cfg, t, w, skip, w.pred[j], p);
    }
  }

  /** The bucket at position 0 of a chain is its home, a non-STRANGER head. */
  lemma HeadOfChain(cfg: Config, t: Table, w: Shape, skip: int, j: nat)
    requires Chains(cfg, t, w, skip) && j < |t.buckets| && j != skip && w.owner[j] >= 0
    ensures var o := w.owner[j];
            o < t.payload && o != skip && !t.buckets[o].flags.stranger
            && w.pos[o] == 0 && w.owner[o] == o
            && Ancestor(cfg, t, w, skip, j, 0) == o
  {
    var a := Ancestor(cfg, t, w, skip, j, 0);
    assert Node(cfg, t, w, skip, a);
  }

  /** A chain has one bucket per position. */
  lemma {:induction false} SamePlace(cfg: Config, t: Table, w: Shape, skip: int, i: nat, j: nat)
    requires Chains(cfg, t, w, skip) && i < |t.buckets| && j < |t.buckets| && i != skip && j != skip
    requires w.owner[i] >= 0 && w.owner[i] == w.owner[j] && w.pos[i] == w.pos[j]
    ensures i == j
    decreases w.pos[i]
  {
    assert Node(cfg, t, w, skip, i) && Node(cfg, t, w, skip, j);
    if w.pos[i] > 0 {
      SamePlace(cfg, t, w, skip, w.pred[i], w.pred[j]);
    }
  }

  /** Distinct values below `n` number at most `n`. */
  lemma {:induction false} DistinctBound(s: seq<nat>, n: nat)
    requires forall i :: 0 <= i < |s| ==> s[i] < n
    requires forall i, j :: 0 <= i < j < |s| ==> s[i] != s[j]
    ensures |s| <= n
    decreases n
  {
    if |s| > 0 {
      assert s[0] < n;
      var rest: seq<nat>;
      if k :| 0 <= k < |s| && s[k] == n - 1 {
        rest := s[..k] + s[k + 1..];
        assert forall i :: 0 <= i < |rest| ==> rest[i] == (if i < k then s[i] else s[i + 1]);
      } else {
        rest := s;
      }
      DistinctBound(rest, n - 1);
    }
  }

  /**
   A chain ending in `last` leaves room for one more bucket when some bucket
   `s` lies outside it.
   */
  lemma ChainRoom(cfg: Config, t: Table, w: Shape, skip: int, last: nat, s: nat)
    requires Chains(cfg, t, w, skip) && last < |t.buckets| && last != skip && w.owner[last] >= 0
    requires s < |t.buckets| && w.owner[s] != w.owner[last]
    ensures w.pos[last] + 1 < |t.buckets|
  {
    var path := seq(w.pos[last] + 1, p requires 0 <= p <= w.pos[last] => Ancestor(cfg, t, w, skip, last, p)) + [s];
    forall i, j | 0 <= i < j < |path| ensures path[i] != path[j] {
      if j < |path| - 1 {
        assert w.pos[path[i]] == i && w.pos[path[j]] == j;
      }
    }
    DistinctBound(path, |t.buckets|);
  }

  /**
   The walk of `_uhtbl_find` from a chain bucket `i` ends, returns the key's
   bucket with its chain predecessor if the key is stored further down the
   chain, and otherwise the chain's last bucket.
   */
  lemma {:induction false} WalkSpec(cfg: Config, t: Table, w: Shape, skip: int, k: seq<byte>, i: nat, prev: Option<nat>, fuel: nat)
    requires Chains(cfg, t, w, skip) && i < |t.buckets| && i != skip && w.owner[i] >= 0
    requires prev == (if w.pos[i] == 0 then None else Some(w.pred[i]))
    requires w.pos[i] + fuel >= |t.buckets|
    ensures prev.Some? ==> prev.value < |t.buckets|
    ensures var r := Walk(t, k, i, prev, fuel);
            && (r.Hit? || r.Miss?)
            && (r.Hit? ==> r.at != skip && w.owner[r.at] == w.owner[i]
                           && r.prev == (if w.pos[r.at] == 0 then None else Some(w.pred[r.at])))
            && (r.Miss? ==> r.last != skip && w.owner[r.last] == w.owner[i])
            && (r.Miss? ==> forall j :: 0 <= j < |t.buckets| && j != skip ==>
                              (w.owner[j] == w.owner[i] && w.pos[j] >= w.pos[i] ==> !Stores(t.buckets, j, k)))
    decreases fuel
  {
    assert Node(cfg, t, w, skip, i);
    var b := t.buckets[i];
    if b.flags.occupied && b.key == k {
    } else if !b.flags.withNext {
      forall j | 0 <= j < |t.buckets| && j != skip && w.owner[j] == w.owner[i] && w.pos[j] >= w.pos[i]
        ensures !Stores(t.buckets, j, k)
      {
        if w.pos[j] == w.pos[i] {
          SamePlace(cfg, t, w, skip, i, j);
        } else {
          SamePlace(cfg, t, w, skip, i, Ancestor(cfg, t, w, skip, j, w.pos[i]));
          AncestorLink(cfg, t, w, skip, j, w.pos[i]);
        }
      }
    } else {
      assert Node(cfg, t, w, skip, b.next);
      WalkSpec(cfg, t, w, skip, k, b.next, Some(i), fuel - 1);
      forall j | 0 <= j < |t.buckets| && j != skip && w.owner[j] == w.owner[i] && w.pos[j] == w.pos[i]
        ensures j == i
      {
        SamePlace(cfg, t, w, skip, i, j);
      }
    }
  }

  /**
   `_uhtbl_find` without `mainaddress` (uhtbl.c:307-339) finds the bucket
   storing the key, if any, together with its chain predecessor; when the key
   is absent it ends on the last bucket of the home's chain.
   */
  lemma FindSpec(cfg: Config, t: Table, w: Shape, skip: int, k: seq<byte>)
    requires Chains(cfg, t, w, skip)
    ensures var r := Find(cfg, t, k, false);
            && (r.Hit? || r.Miss?)
            && (r.Hit? ==> r.at != skip
                           && r.prev == (if w.pos[r.at] == 0 then None else Some(w.pred[r.at])))
            && (r.Miss? ==> forall j :: 0 <= j < |t.buckets| && j != skip ==> !Stores(t.buckets, j, k))
            && (r.Miss? && !t.buckets[Home(cfg, t.payload, k)].flags.stranger && Home(cfg, t.payload, k) != skip ==>
                  r.last != skip && w.owner[r.last] == Home(cfg, t.payload, k) && !t.buckets[r.last].flags.withNext)
  {
    var h := Home(cfg, t.payload, k);
    forall j | 0 <= j < |t.buckets| && j != skip && Stores(t.buckets, j, k)
      ensures w.owner[j] == h && h != skip && !t.buckets[h].flags.stranger
    {
      assert Node(cfg, t, w, skip, j);
      HeadOfChain(cfg, t, w, skip, j);
    }
    if !t.buckets[h].flags.stranger && h != skip {
      assert Node(cfg, t, w, skip, h);
      WalkSpec(cfg, t, w, skip, k, h, None, |t.buckets|);
    }
  }

  /** A node of a chain is a stranger exactly when it is not at position 0. */
  lemma StrangerIffDeep(cfg: Config, t: Table, w: Shape, skip: int, i: nat)
    requires Chains(cfg, t, w, skip) && i < |t.buckets| && i != skip && w.owner[i] >= 0
    ensures t.buckets[i].flags.stranger <==> w.pos[i] > 0
  {
    assert Node(cfg, t, w, skip, i);
  }

  /** `e` is the content of some occupied bucket other than `skip`. */
  ghost predicate HoldsExcept(bs: seq<Bucket>, skip: int, e: Entry) {
    exists i :: 0 <= i < |bs| && i != skip && bs[i].flags.occupied && EntryOf(bs[i]) == e
  }

  /** Rewriting one bucket changes the count by that bucket's change in occupancy. */
  lemma {:induction false} CountUpdate(bs: seq<Bucket>, i: nat, b: Bucket)
    requires i < |bs|
    ensures Count(bs[i := b]) == Count(bs) - (if bs[i].flags.occupied then 1 else 0) + (if b.flags.occupied then 1 else 0)
    decreases |bs|
  {
    if i > 0 {
      assert bs[i := b][1..] == bs[1..][i - 1 := b];
      CountUpdate(bs[1..], i - 1, b);
    } else {
      assert bs[i := b][1..] == bs[1..];
    }
  }

  /** The contents after rewriting bucket `i`. */
  lemma HoldsUpdate(bs: seq<Bucket>, i: nat, b: Bucket, e: Entry)
    requires i < |bs|
    ensures Holds(bs[i := b], e) <==> HoldsExcept(bs, i, e) || (b.flags.occupied && EntryOf(b) == e)
    ensures HoldsExcept(bs[i := b], i, e) <==> HoldsExcept(bs, i, e)
  {
    var bs2 := bs[i := b];
    if Holds(bs2, e) {
      var j :| 0 <= j < |bs2| && bs2[j].flags.occupied && EntryOf(bs2[j]) == e;
      if j != i { assert bs[j] == bs2[j]; }
    }
    if HoldsExcept(bs, i, e) {
      var j :| 0 <= j < |bs| && j != i && bs[j].flags.occupied && EntryOf(bs[j]) == e;
      assert bs2[j] == bs[j];
    }
    if HoldsExcept(bs2, i, e) {
      var j :| 0 <= j < |bs2| && j != i && bs2[j].flags.occupied && EntryOf(bs2[j]) == e;
      assert bs[j] == bs2[j];
    }
    if b.flags.occupied && EntryOf(b) == e {
      assert bs2[i] == b;
    }
  }

  /** Without an exempted slot, holding and holding outside nothing agree. */
  lemma HoldsNoSkip(bs: seq<Bucket>, e: Entry)
    ensures HoldsExcept(bs, -1, e) <==> Holds(bs, e)
  {
  }
}
