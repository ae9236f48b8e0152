/**
 One insertion attempt of uhtbl_set exactly as uhtbl.c writes it, and two
 small valid tables on which it goes wrong.  `Uhtbl.Place` is the repaired
 attempt the rest of the model uses; `UhtblPlace.PlaceSpec` is what is proved
 about it.
 */
module UhtblFindings {
  import opened Wrappers
  import opened UhtblFlags
  import opened UhtblKey
  import opened Uhtbl
  import opened UhtblShape
  import opened UhtblPlace

  /**
   The eviction as written (uhtbl.c:93-115): the squatter's predecessor is
   looked up first, and only then does `_uhtbl_allocate` run, whose
   compaction may move that predecessor.
   */
  function EvictAsWritten(cfg: Config, t: Table, h: nat, k: Key): (r: Step)
    requires WellFormed(t) && h < |t.buckets| && ValidKey(k)
    ensures r.Placed? ==> WellFormed(r.t) && r.at == h && |r.t.buckets| == |t.buckets|
    ensures r.Placed? ==> r.t.buckets[h].key == KeyBytes(k)
  {
    match PrevAfterFind(cfg, t, t.buckets[h].key, h)
    case None => Diverges
    case Some(q) =>
      match Allocate(t)
      case None => NoRoom
      case Some(Allocation(t1, s)) => Placed(MoveSquatter(t1, h, s, q, k), h)
  }

  /**
   One attempt of uhtbl_set as written (uhtbl.c:79-149): `_uhtbl_find` is
   asked for the main address, so an unoccupied home is claimed at once
   (uhtbl.c:309-313) without looking at the chain that may still hang off it.
   */
  function PlaceAsWritten(cfg: Config, t: Table, k: Key): (r: Step)
    requires WellFormed(t) && ValidKey(k)
    ensures r.Placed? ==> WellFormed(r.t) && r.at < |r.t.buckets| && r.t.buckets[r.at].key == KeyBytes(k)
  {
    var kb := KeyBytes(k);
    var h := Home(cfg, t.payload, kb);
    match Find(cfg, t, kb, true)
    case HomeFree(_) => Placed(ClaimHome(t, h, k), h)
    case Hit(i, _) => Placed(Overwrite(cfg, t, i, k), i)
    case Miss(last) =>
      var m := t.buckets[last];
      if m.flags.stranger && last == h then EvictAsWritten(cfg, t, h, k)
      else if m.flags.occupied then Append(t, last, k)
      else Placed(ClaimHome(t, last, k), last)
    case Stuck => Diverges
  }

  // The example tables: three buckets, two of them hash-addressable.

  /** Key [3] hashes to 1, every other key to 0. */
  function ExampleHash(kb: seq<byte>): u32 {
    if kb == [3] then 1 else 0
  }

  /**
   The array size for a payload is left to the build (UHTBL_PAYLOADFACTOR,
   uhtbl.h:43-44); here a payload of 2 gets the three buckets of the
   examples, as a factor of 2/3 would give, and other payloads no cellar.
   */
  function ExampleConfig(): Config {
    Config(ExampleHash, false, p => if p == 2 then 3 else p, HEAD_SIZE)
  }

  function Held(key: seq<byte>, flags: Flags, next: nat): Bucket {
    Bucket(0, flags, next, key, [])
  }

  const Head := Flags(true, false, false, false)
  const HeadWithNext := Flags(true, false, true, false)
  const FreeWithNext := Flags(false, false, true, false)
  const Stranger := Flags(true, true, false, false)
  const StrangerWithNext := Flags(true, true, true, false)

  /**
   After setting [1] and then [2] (both of home 0) and unsetting [1]: the home
   is a free head still linked to [2] in the cellar, and the allocator's
   cursor stays at 1, where handing out bucket 2 left it.
   */
  function EmptiedHead(): Table {
    Table([Held([1], FreeWithNext, 2), Held([], NoFlags, 0), Held([2], Stranger, 0)], 2, 1, 1, [])
  }

  lemma EmptiedHeadNodes()
    ensures forall i :: 0 <= i < 3 ==> Node(ExampleConfig(), EmptiedHead(), Shape([0, 1, 0], [0, 0, 1], [0, 0, 0]), -1, i)
  {
    var t := EmptiedHead();
    var cfg := ExampleConfig();
    var w := Shape([0, 1, 0], [0, 0, 1], [0, 0, 0]);
    assert Node(cfg, t, w, -1, 0);
    assert Node(cfg, t, w, -1, 1);
    assert Node(cfg, t, w, -1, 2);
  }

  lemma EmptiedHeadValid()
    ensures Inv(ExampleConfig(), EmptiedHead(), Shape([0, 1, 0], [0, 0, 1], [0, 0, 0]))
  {
    var t := EmptiedHead();
    EmptiedHeadNodes();
    assert Count(t.buckets) == 1 by {
      assert t.buckets[1..] == [t.buckets[1], t.buckets[2]];
      assert t.buckets[1..][1..] == [t.buckets[2]];
    }
  }

  /**
   Setting [2] again on that table stores it a second time at its home, and
   unsetting it afterwards leaves the older copy visible to get.
   */
  lemma DuplicateKey()
    ensures var cfg := ExampleConfig();
            var t := EmptiedHead();
            && Valid(cfg, t) && Stores(t.buckets, 2, [2])
            && var r := PlaceAsWritten(cfg, t, Pointer([2]));
            && r.Placed? && r.at == 0
            && Stores(r.t.buckets, 0, [2]) && Stores(r.t.buckets, 2, [2])
            && var u := Unset(cfg, r.t, Pointer([2]));
            && u.0 == UHTBL_OK && Get(cfg, u.1, Pointer([2])) == Some(2)
  {
    EmptiedHeadValid();
    var cfg := ExampleConfig();
    var t := EmptiedHead();
    assert Home(cfg, t.payload, [2]) == 0;
    var r := PlaceAsWritten(cfg, t, Pointer([2]));
    assert r == Placed(ClaimHome(t, 0, Pointer([2])), 0);
    var t2 := r.t;
    assert Find(cfg, t2, [2], false) == Hit(0, None);
    var u := Unset(cfg, t2, Pointer([2]));
    assert u.1.buckets[0].flags == FreeWithNext;
    assert u.1.buckets[2] == t.buckets[2];
    assert Walk(u.1, [2], 2, Some(0), |u.1.buckets| - 1) == Hit(2, Some(0));
    assert Find(cfg, u.1, [2], false) == Hit(2, Some(0));
  }

  /** The repaired attempt on the same table overwrites the one copy in the cellar. */
  lemma DuplicateKeyRepaired()
    ensures var cfg := ExampleConfig();
            var r := Place(cfg, EmptiedHead(), Pointer([2]));
            && r.Placed? && r.at == 2 && r.t.used == 1
            && !Stores(r.t.buckets, 0, [2])
  {
    var cfg := ExampleConfig();
    var t := EmptiedHead();
    assert Home(cfg, t.payload, [2]) == 0;
    assert Walk(t, [2], 2, Some(0), |t.buckets| - 1) == Hit(2, Some(0));
    assert Walk(t, [2], 0, None, |t.buckets|) == Hit(2, Some(0));
  }

  /**
   A free head 0 whose chain goes on through [1] in the cellar to [2], which
   squats on bucket 1, the home of key [3].
   */
  function Squatter(): Table {
    Table([Held([], FreeWithNext, 2), Held([2], Stranger, 0), Held([1], StrangerWithNext, 1)], 2, 2, 0, [])
  }

  lemma SquatterNodes()
    ensures forall i :: 0 <= i < 3 ==> Node(ExampleConfig(), Squatter(), Shape([0, 0, 0], [0, 2, 1], [0, 2, 0]), -1, i)
  {
    var t := Squatter();
    var cfg := ExampleConfig();
    var w := Shape([0, 0, 0], [0, 2, 1], [0, 2, 0]);
    assert Node(cfg, t, w, -1, 0);
    assert Node(cfg, t, w, -1, 1);
    assert Node(cfg, t, w, -1, 2);
  }

  lemma SquatterValid()
    ensures Inv(ExampleConfig(), Squatter(), Shape([0, 0, 0], [0, 2, 1], [0, 2, 0]))
  {
    var t := Squatter();
    SquatterNodes();
    assert Count(t.buckets) == 2 by {
      assert t.buckets[1..] == [t.buckets[1], t.buckets[2]];
      assert t.buckets[1..][1..] == [t.buckets[2]];
    }
    forall i, j | Twins(t.buckets, i, j) ensures i == j {
      assert t.buckets[i].key == t.buckets[j].key;
    }
  }

  /**
   Setting [3] on that table as written: the allocator pulls [1] into the
   free head and hands out bucket 2, so the predecessor found beforehand is
   stale, and [2] ends up in no chain: get no longer finds it.
   */
  lemma LostEntry()
    ensures var cfg := ExampleConfig();
            var t := Squatter();
            && Valid(cfg, t) && Get(cfg, t, Pointer([2])) == Some(1)
            && var r := PlaceAsWritten(cfg, t, Pointer([3]));
            && r.Placed? && Stores(r.t.buckets, 2, [2])
            && Get(cfg, r.t, Pointer([2])).None?
  {
    SquatterValid();
    var cfg := ExampleConfig();
    var t := Squatter();
    assert Home(cfg, t.payload, [2]) == 0;
    assert Home(cfg, t.payload, [3]) == 1;
    assert Walk(t, [2], 1, Some(2), |t.buckets| - 2) == Hit(1, Some(2));
    assert Walk(t, [2], 2, Some(0), |t.buckets| - 1) == Hit(1, Some(2));
    assert Find(cfg, t, [2], false) == Hit(1, Some(2));
    assert PrevAfterFind(cfg, t, [2], 1) == Some(2);
    var t1 := Allocate(t).value.t;
    assert FirstFree(t, 0) == Some(0);
    assert Allocate(t).value.at == 2;
    var r := PlaceAsWritten(cfg, t, Pointer([3]));
    assert r == Placed(MoveSquatter(t1, 1, 2, 2, Pointer([3])), 1);
    var t2 := r.t;
    assert t2.buckets[0].flags == HeadWithNext && t2.buckets[0].next == 1 && t2.buckets[0].key == [1];
    assert t2.buckets[1].flags == Head;
    assert Walk(t2, [2], 1, Some(0), |t2.buckets| - 1) == Miss(1);
    assert Walk(t2, [2], 0, None, |t2.buckets|) == Miss(1);
  }

  /** The repaired attempt on the same table keeps both old entries reachable. */
  lemma LostEntryRepaired()
    ensures var cfg := ExampleConfig();
            var r := Place(cfg, Squatter(), Pointer([3]));
            && r.Placed? && Get(cfg, r.t, Pointer([2])) == Some(2) && Get(cfg, r.t, Pointer([1])) == Some(0)
  {
    var cfg := ExampleConfig();
    var t := Squatter();
    assert Home(cfg, t.payload, [3]) == 1;
    assert FirstFree(t, 0) == Some(0);
    var t1 := Allocate(t).value.t;
    assert Allocate(t).value.at == 2;
    assert Walk(t1, [2], 1, Some(0), |t1.buckets| - 1) == Hit(1, Some(0));
    assert Find(cfg, t1, [2], false) == Hit(1, Some(0));
    var r := Place(cfg, t, Pointer([3]));
    assert r == Placed(MoveSquatter(t1, 1, 2, 0, Pointer([3])), 1);
    var t2 := r.t;
    assert t2.buckets[0].flags == HeadWithNext && t2.buckets[0].next == 2 && t2.buckets[0].key == [1];
    assert t2.buckets[2].key == [2] && t2.buckets[2].flags.occupied;
    assert Walk(t2, [2], 2, Some(0), |t2.buckets| - 1) == Hit(2, Some(0));
    assert Find(cfg, t2, [2], false) == Hit(2, Some(0));
    assert Find(cfg, t2, [1], false) == Hit(0, None);
  }
}
