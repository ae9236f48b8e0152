/**
 The coalesced hash table `uhtbl` as a functional state transformer.

 All buckets live in one array.  The first `payload` of them are hash-addressable
 (a key's home is `hash(key) % payload`); the rest of the array is a cellar for
 overflow.  A collision chain starts at a home slot and continues through `next`
 links while WITHNEXT is set; every bucket after the head carries STRANGER.

 This module holds the data model and the operations that work on one array:
 lookup, the free-slot allocator, one insertion attempt, removal, iteration and
 clearing.  Growth and rehashing, which re-run insertion on a fresh array, are in
 module `UhtblGrowth`; the invariants and their proofs are in `UhtblShape`.

 Pointers into the array become indices.  The caller's hash function and the
 size derived from a payload (`payload / 0.86` in C) are parameters in `Config`.
 */
module Uhtbl {
  import opened Wrappers
  import opened UhtblFlags
  import opened UhtblKey

  /** Status codes (uhtbl.h:66-69). */
  const UHTBL_OK: int := 0
  const UHTBL_EINVAL: int := -1
  const UHTBL_ENOMEM: int := -2
  const UHTBL_ENOENT: int := -3

  /** Compile-time configurables (uhtbl.h:47-53). */
  const GROW_FACTOR: nat := 2
  const MINIMUM_SIZE: nat := 16
  /** sizeof(uhtbl_head_t) on the modelled LP64 host: 1 + 1 + 2 + 4 + 8 bytes. */
  const HEAD_SIZE: nat := 16
  /** uhtbl_size_t is uint32_t. */
  const SIZE_LIMIT: nat := 0x1_0000_0000

  type u32 = x: nat | x < SIZE_LIMIT

  /**
   One bucket: the header (`user` byte, flags, `next`, key) followed by the
   caller's payload bytes.  `key` is the byte string the header's key union
   denotes: the pointed-to bytes, or the eight bytes of a local handle; its
   length is the header's `keysize`.
   */
  datatype Bucket = Bucket(user: byte, flags: Flags, next: nat, key: seq<byte>, data: seq<byte>)

  /**
   The settings fixed at uhtbl_init: the hash function, whether a garbage
   collector was given, the array size chosen for a payload, and the bucket size.
   */
  datatype Config = Config(hash: seq<byte> -> u32, hasGc: bool, sizeFor: u32 -> u32, bucketSize: nat)

  /**
   The mutable part of `struct uhtbl`.  `gcLog` records, in call order, every
   bucket handed to the garbage collector.
   */
  datatype Table = Table(buckets: seq<Bucket>, payload: nat, used: nat, nextfree: nat, gcLog: seq<Bucket>)

  /** Lookup outcomes of `_uhtbl_find`. */
  datatype Lookup =
    | Hit(at: nat, prev: Option<nat>)  // matching bucket; `prev` is what `*previous` holds
    | HomeFree(home: nat)              // unoccupied home slot returned for a caller that claims it
    | Miss(last: nat)                  // NULL; `*previous` is the last bucket visited
    | Stuck                            // the chain never ends: the C loop does not terminate

  /** Outcomes of one insertion attempt. */
  datatype Step =
    | Placed(t: Table, at: nat)  // the bucket now holding the key
    | NoRoom                     // `_uhtbl_allocate` found no free bucket
    | Diverges                   // a lookup on the way never terminates

  datatype Allocation = Allocation(t: Table, at: nat)

  /** The shape every table the C code works on has: indices stay inside the array. */
  predicate WellFormed(t: Table) {
    && 0 < t.payload <= |t.buckets| < SIZE_LIMIT
    && t.nextfree < |t.buckets|
    && forall i :: 0 <= i < |t.buckets| && t.buckets[i].flags.withNext ==> t.buckets[i].next < |t.buckets|
  }

  /** A header whose key fields can be read back by uhtbl_key. */
  predicate KeyForm(b: Bucket) {
    if b.flags.localKey then |b.key| == LONG_SIZE else |b.key| < KEYSIZE_LIMIT
  }

  /** Bytes of caller payload behind each header. */
  function PayloadSize(cfg: Config): nat {
    if cfg.bucketSize >= HEAD_SIZE then cfg.bucketSize - HEAD_SIZE else 0
  }

  /** A bucket as calloc returns it. */
  function ZeroBucket(cfg: Config): Bucket {
    Bucket(0, NoFlags, 0, [], seq<byte>(PayloadSize(cfg), _ => 0))
  }

  /** The home address of a key (uhtbl.c:307). */
  function Home(cfg: Config, payload: nat, k: seq<byte>): (h: nat)
    requires payload > 0
    ensures h < payload
  {
    cfg.hash(k) % payload
  }

  /** Hands a bucket to the garbage collector, if there is one. */
  function GcNote(cfg: Config, log: seq<Bucket>, b: Bucket): (r: seq<Bucket>)
    ensures r == if cfg.hasGc then log + [b] else log
  {
    if cfg.hasGc then log + [b] else log
  }

  /**
   The chain walk of `_uhtbl_find` (uhtbl.c:321-339), from bucket `i` with
   `prev` the bucket visited before it.  A bucket matches when it is OCCUPIED
   and holds the same key bytes.  `fuel` bounds the number of `next` steps.
   */
  function Walk(t: Table, k: seq<byte>, i: nat, prev: Option<nat>, fuel: nat): (r: Lookup)
    requires WellFormed(t) && i < |t.buckets|
    requires prev.Some? ==> prev.value < |t.buckets|
    ensures !r.HomeFree?
    ensures r.Hit? ==> r.at < |t.buckets| && t.buckets[r.at].flags.occupied && t.buckets[r.at].key == k
    ensures r.Hit? ==> (r.prev.Some? ==> r.prev.value < |t.buckets|)
    ensures r.Hit? && r.prev.None? ==> r.at == i && prev.None?
    ensures r.Miss? ==> r.last < |t.buckets| && !t.buckets[r.last].flags.withNext
    decreases fuel
  {
    var b := t.buckets[i];
    if b.flags.occupied && b.key == k then Hit(i, prev)
    else if !b.flags.withNext then Miss(i)
    else if fuel == 0 then Stuck
    else Walk(t, k, b.next, Some(i), fuel - 1)
  }

  /**
   `_uhtbl_find` (uhtbl.c:300-340).  `claimHome` says the caller passed
   `mainaddress`: then an unoccupied home is returned at once.  A STRANGER at
   the home means no chain starts there.  Otherwise the chain is walked.
   */
  function Find(cfg: Config, t: Table, k: seq<byte>, claimHome: bool): (r: Lookup)
    requires WellFormed(t)
    ensures r.HomeFree? ==> claimHome && r.home == Home(cfg, t.payload, k)
                            && !t.buckets[r.home].flags.occupied
    ensures r.Hit? ==> r.at < |t.buckets| && t.buckets[r.at].flags.occupied && t.buckets[r.at].key == k
    ensures r.Hit? ==> (r.prev.Some? ==> r.prev.value < |t.buckets|)
    ensures r.Hit? && r.prev.None? ==> r.at == Home(cfg, t.payload, k) && !t.buckets[r.at].flags.stranger
    ensures r.Miss? ==> r.last < |t.buckets|
    ensures r.Miss? && t.buckets[Home(cfg, t.payload, k)].flags.stranger ==> r.last == Home(cfg, t.payload, k)
  {
    var h := Home(cfg, t.payload, k);
    var home := t.buckets[h];
    if claimHome && !home.flags.occupied then HomeFree(h)
    else if home.flags.stranger then Miss(h)
    else Walk(t, k, h, None, |t.buckets|)
  }

  /** uhtbl_get (uhtbl.c:64-66): the bucket holding the key, or NULL. */
  function Get(cfg: Config, t: Table, k: Key): (r: Option<nat>)
    requires WellFormed(t) && ValidKey(k)
    ensures r.Some? ==> r.value < |t.buckets| && t.buckets[r.value].flags.occupied
                        && t.buckets[r.value].key == KeyBytes(k)
  {
    match Find(cfg, t, KeyBytes(k), false)
    case Hit(i, _) => Some(i)
    case _ => None
  }

  /**
   The scan of `_uhtbl_allocate` (uhtbl.c:280-296): from `a` down to 0, the
   first bucket that is not OCCUPIED.
   */
  function FirstFree(t: Table, a: nat): (r: Option<nat>)
    requires a < |t.buckets|
    ensures r.Some? ==> r.value <= a && !t.buckets[r.value].flags.occupied
    ensures r.Some? ==> forall j :: r.value < j <= a ==> t.buckets[j].flags.occupied
    ensures r.None? ==> forall j :: 0 <= j <= a ==> t.buckets[j].flags.occupied
    decreases a
  {
    if !t.buckets[a].flags.occupied then Some(a)
    else if a == 0 then None
    else FirstFree(t, a - 1)
  }

  /**
   `_uhtbl_allocate` (uhtbl.c:279-298).  A free candidate that still has a
   successor is a former chain head: the successor is pulled into it with
   STRANGER cleared and the successor's old slot is handed out instead.
   `nextfree` drops below the candidate.
   */
  function Allocate(t: Table): (r: Option<Allocation>)
    requires WellFormed(t)
    ensures r.None? <==> FirstFree(t, t.nextfree).None?
    ensures r.Some? ==> WellFormed(r.value.t) && r.value.at < |t.buckets|
    ensures r.Some? ==> var a := FirstFree(t, t.nextfree).value;
                        && r.value.t.nextfree == (if a > 0 then a - 1 else 0)
                        && (!t.buckets[a].flags.withNext ==> r.value.at == a && r.value.t.buckets == t.buckets)
                        && (t.buckets[a].flags.withNext ==>
                              r.value.at == t.buckets[a].next
                              && r.value.t.buckets == t.buckets[a := t.buckets[r.value.at].(flags := t.buckets[r.value.at].flags.(stranger := false))])
    ensures r.Some? ==> r.value.t.payload == t.payload && r.value.t.used == t.used && r.value.t.gcLog == t.gcLog
  {
    match FirstFree(t, t.nextfree)
    case None => None
    case Some(a) =>
      var nf := if a > 0 then a - 1 else 0;
      if t.buckets[a].flags.withNext then
        var s := t.buckets[a].next;
        var moved := t.buckets[s].(flags := t.buckets[s].flags.(stranger := false));
        Some(Allocation(t.(buckets := t.buckets[a := moved], nextfree := nf), s))
      else
        Some(Allocation(t.(nextfree := nf), a))
  }

  /**
   The common tail of uhtbl_set (uhtbl.c:136-145): store the key, set or
   clear LOCALKEY for its form, and set OCCUPIED on top of `base`.
   */
  function WriteKey(b: Bucket, k: Key, base: Flags): (r: Bucket)
    requires ValidKey(k)
    ensures r.key == KeyBytes(k) && r.flags.occupied && r.flags.localKey == k.Local?
    ensures r.flags.stranger == base.stranger && r.flags.withNext == base.withNext
    ensures r.next == b.next && r.user == b.user && r.data == b.data
  {
    b.(key := KeyBytes(k), flags := base.(localKey := k.Local?, occupied := true))
  }

  /** Overwrite (uhtbl.c:81-89): gc on the old occupant, `used` down and up again. */
  function Overwrite(cfg: Config, t: Table, i: nat, k: Key): (r: Table)
    requires WellFormed(t) && i < |t.buckets| && ValidKey(k)
    ensures WellFormed(r) && |r.buckets| == |t.buckets| && r.payload == t.payload
    ensures r.buckets[i].flags.occupied && r.buckets[i].key == KeyBytes(k) && r.buckets[i].flags.localKey == k.Local?
  {
    var b := t.buckets[i];
    t.(buckets := t.buckets[i := WriteKey(b, k, b.flags)], gcLog := GcNote(cfg, t.gcLog, b))
  }

  /** An unoccupied home becomes the key's bucket, keeping its chain link. */
  function ClaimHome(t: Table, h: nat, k: Key): (r: Table)
    requires WellFormed(t) && h < |t.buckets| && ValidKey(k)
    ensures WellFormed(r) && |r.buckets| == |t.buckets| && r.payload == t.payload
    ensures r.buckets[h].flags.occupied && r.buckets[h].key == KeyBytes(k) && r.buckets[h].flags.localKey == k.Local?
  {
    t.(buckets := t.buckets[h := WriteKey(t.buckets[h], k, t.buckets[h].flags)], used := t.used + 1)
  }

  /**
   The collision case's writes (uhtbl.c:128-133, 136-147): the chain's last
   bucket `last` gains WITHNEXT and points at the fresh bucket `s`, which takes
   the key as a STRANGER with no successor.
   */
  function LinkStranger(t: Table, last: nat, s: nat, k: Key): (r: Table)
    requires WellFormed(t) && last < |t.buckets| && s < |t.buckets| && ValidKey(k)
    ensures WellFormed(r) && |r.buckets| == |t.buckets| && r.payload == t.payload
    ensures r.buckets[s].flags.occupied && r.buckets[s].key == KeyBytes(k) && r.buckets[s].flags.localKey == k.Local?
    ensures r.buckets[s].flags.stranger && !r.buckets[s].flags.withNext
  {
    var tail := t.buckets[last].(flags := t.buckets[last].flags.(withNext := true), next := s);
    var bs := t.buckets[last := tail];
    t.(buckets := bs[s := WriteKey(bs[s], k, Flags(false, true, false, false))], used := t.used + 1)
  }

  /** The home `h` becomes a non-STRANGER head holding the key, with no successor. */
  function TakeHome(t: Table, h: nat, k: Key): (r: Table)
    requires WellFormed(t) && h < |t.buckets| && ValidKey(k)
    ensures WellFormed(r) && |r.buckets| == |t.buckets| && r.payload == t.payload
    ensures r.buckets[h].flags.occupied && r.buckets[h].key == KeyBytes(k) && r.buckets[h].flags.localKey == k.Local?
    ensures !r.buckets[h].flags.stranger && !r.buckets[h].flags.withNext
  {
    t.(buckets := t.buckets[h := WriteKey(t.buckets[h], k, NoFlags)], used := t.used + 1)
  }

  /**
   The eviction's writes (uhtbl.c:113-115): the squatter at `h` is copied
   whole to `s`, its predecessor `q` now points at `s`, and `h` is taken for
   the key.
   */
  function MoveSquatter(t: Table, h: nat, s: nat, q: nat, k: Key): (r: Table)
    requires WellFormed(t) && h < |t.buckets| && s < |t.buckets| && q < |t.buckets| && ValidKey(k)
    ensures WellFormed(r) && |r.buckets| == |t.buckets| && r.payload == t.payload
    ensures r.buckets[h].flags.occupied && r.buckets[h].key == KeyBytes(k) && r.buckets[h].flags.localKey == k.Local?
  {
    var bs := t.buckets[s := t.buckets[h]];
    TakeHome(t.(buckets := bs[q := bs[q].(next := s)]), h, k)
  }

  /**
   A home holding another key of the same home address (uhtbl.c:116-133): a
   fresh bucket becomes a STRANGER appended to the chain's last bucket `last`.
   */
  function Append(t: Table, last: nat, k: Key): (r: Step)
    requires WellFormed(t) && last < |t.buckets| && ValidKey(k)
    ensures r.Placed? ==> WellFormed(r.t) && r.at < |r.t.buckets|
    ensures r.Placed? ==> |r.t.buckets| == |t.buckets| && r.t.payload == t.payload
    ensures r.Placed? ==> r.t.buckets[r.at].flags.occupied && r.t.buckets[r.at].key == KeyBytes(k)
                          && r.t.buckets[r.at].flags.localKey == k.Local?
    ensures r.NoRoom? ==> FirstFree(t, t.nextfree).None?
  {
    match Allocate(t)
    case None => NoRoom
    case Some(Allocation(t1, s)) => Placed(LinkStranger(t1, last, s, k), s)
  }

  /**
   The value `_uhtbl_find` leaves in `*previous` when asked for key `k` with
   `*previous` initially `prev0`; None when the lookup never terminates.
   */
  function PrevAfterFind(cfg: Config, t: Table, k: seq<byte>, prev0: nat): (r: Option<nat>)
    requires WellFormed(t) && prev0 < |t.buckets|
    ensures r.Some? ==> r.value < |t.buckets|
  {
    match Find(cfg, t, k, false)
    case Hit(_, p) => Some(if p.Some? then p.value else prev0)
    case Miss(last) => Some(last)
    case _ => None
  }

  /**
   A STRANGER squatting at the home `h` of the new key is moved out
   (uhtbl.c:93-115).  The allocation is done first and the squatter's
   predecessor is looked up afterwards, so a compaction inside the allocator
   cannot leave a stale predecessor behind.  When the allocator hands out `h`
   itself, the squatter has just been pulled into its own home and nothing is
   left to move.  The home then becomes a non-STRANGER head for the new key.
   */
  function Evict(cfg: Config, t: Table, h: nat, k: Key): (r: Step)
    requires WellFormed(t) && h < |t.buckets| && ValidKey(k)
    ensures r.Placed? ==> WellFormed(r.t) && r.at < |r.t.buckets|
    ensures r.Placed? ==> |r.t.buckets| == |t.buckets| && r.t.payload == t.payload
    ensures r.Placed? ==> r.t.buckets[r.at].flags.occupied && r.t.buckets[r.at].key == KeyBytes(k)
                          && r.t.buckets[r.at].flags.localKey == k.Local?
    ensures r.NoRoom? ==> FirstFree(t, t.nextfree).None?
  {
    match Allocate(t)
    case None => NoRoom
    case Some(Allocation(t1, s)) =>
      if s == h then Placed(TakeHome(t1, h, k), h)
      else
        match PrevAfterFind(cfg, t1, t1.buckets[h].key, h)
        case None => Diverges
        case Some(q) => Placed(MoveSquatter(t1, h, s, q, k), h)
  }

  /**
   One attempt of uhtbl_set without growth (uhtbl.c:68-149, with the two
   repairs described in README "## Findings"): the chain of the home is walked
   even when the home itself is unoccupied, so a key already stored further
   down is overwritten rather than stored twice.
   */
  function Place(cfg: Config, t: Table, k: Key): (r: Step)
    requires WellFormed(t) && ValidKey(k)
    ensures r.Placed? ==> WellFormed(r.t) && r.at < |r.t.buckets|
    ensures r.Placed? ==> |r.t.buckets| == |t.buckets| && r.t.payload == t.payload
    ensures r.Placed? ==> r.t.buckets[r.at].flags.occupied && r.t.buckets[r.at].key == KeyBytes(k)
                          && r.t.buckets[r.at].flags.localKey == k.Local?
    ensures r.NoRoom? ==> FirstFree(t, t.nextfree).None?
  {
    var kb := KeyBytes(k);
    var h := Home(cfg, t.payload, kb);
    var home := t.buckets[h];
    var look := if home.flags.stranger then Miss(h) else Walk(t, kb, h, None, |t.buckets|);
    match look
    case Hit(i, _) => Placed(Overwrite(cfg, t, i, k), i)
    case Miss(last) =>
      if !home.flags.occupied then Placed(ClaimHome(t, h, k), h)
      else if home.flags.stranger then Evict(cfg, t, h, k)
      else Append(t, last, k)
    case _ => Diverges
  }

  /**
   The bucket writes of uhtbl_unset (uhtbl.c:178, 182-189) for bucket `i`,
   whose chain predecessor is `prev`.  OCCUPIED is cleared; a STRANGER is
   also spliced out of its chain (its predecessor takes over its successor or
   loses WITHNEXT) and its flags are zeroed, while a chain head keeps its link.
   */
  function Unlink(bs: seq<Bucket>, i: nat, prev: Option<nat>): (r: seq<Bucket>)
    requires i < |bs| && (bs[i].flags.stranger ==> prev.Some? && prev.value < |bs|)
    ensures |r| == |bs| && !r[i].flags.occupied
    ensures forall j :: 0 <= j < |r| ==>
              && r[j].key == bs[j].key
              && (r[j].flags.occupied <==> bs[j].flags.occupied && j != i)
  {
    var b := bs[i];
    var cleared := b.flags.(occupied := false);
    var bs0 := bs[i := b.(flags := cleared)];
    if cleared.stranger then
      var p := prev.value;
      var bs1 := if cleared.withNext then bs0[p := bs0[p].(next := bs0[i].next)]
                 else bs0[p := bs0[p].(flags := bs0[p].flags.(withNext := false))];
      bs1[i := bs1[i].(flags := NoFlags)]
    else bs0
  }

  /**
   The bookkeeping of uhtbl_unset (uhtbl.c:174-179, 191-194) once bucket `i`
   is vacated and the buckets are `bs`: the old bucket goes to the garbage
   collector, `used` drops by one (wrapping as a uint32_t would) and
   `nextfree` rises to `i`.
   */
  function Vacate(cfg: Config, t: Table, i: nat, bs: seq<Bucket>): (r: Table)
    requires i < |t.buckets|
    ensures r.buckets == bs && r.payload == t.payload
    ensures r.nextfree >= i && r.nextfree >= t.nextfree && (r.nextfree == i || r.nextfree == t.nextfree)
    ensures t.used < SIZE_LIMIT ==> r.used == (t.used - 1) % SIZE_LIMIT
  {
    t.(buckets := bs,
       used := if t.used > 0 then t.used - 1 else SIZE_LIMIT - 1,
       nextfree := if i > t.nextfree then i else t.nextfree,
       gcLog := GcNote(cfg, t.gcLog, t.buckets[i]))
  }

  /** uhtbl_unset (uhtbl.c:167-197). */
  function Unset(cfg: Config, t: Table, k: Key): (r: (int, Table))
    requires WellFormed(t) && ValidKey(k)
    ensures r.0 == UHTBL_OK || r.0 == UHTBL_ENOENT
    ensures r.0 == UHTBL_ENOENT ==> r.1 == t
    ensures WellFormed(r.1) && |r.1.buckets| == |t.buckets| && r.1.payload == t.payload
    ensures r.0 == UHTBL_OK ==> r.1.nextfree >= t.nextfree
    ensures forall j :: 0 <= j < |t.buckets| ==>
              && r.1.buckets[j].key == t.buckets[j].key
              && (r.1.buckets[j].flags.occupied ==> t.buckets[j].flags.occupied)
              && (t.buckets[j].flags.occupied && t.buckets[j].key != KeyBytes(k) ==> r.1.buckets[j].flags.occupied)
  {
    match Find(cfg, t, KeyBytes(k), false)
    case Hit(i, prev) =>
      var bs := Unlink(t.buckets, i, prev);
      assert forall j :: 0 <= j < |bs| && bs[j].flags.withNext ==> bs[j].next < |bs|;
      (UHTBL_OK, Vacate(cfg, t, i, bs))
    case _ => (UHTBL_ENOENT, t)
  }

  /** uhtbl_key (uhtbl.c:250-259): the key arguments that name a bucket's key. */
  function KeyOf(b: Bucket): (k: Key)
    requires KeyForm(b)
    ensures ValidKey(k) && KeyBytes(k) == b.key && k.Local? == b.flags.localKey
  {
    if b.flags.localKey then
      BytesRoundTrip(b.key);
      Local(LongOf(b.key))
    else Pointer(b.key)
  }

  /** uhtbl_remove (uhtbl.c:160-165): unset the key a bucket holds. */
  function Remove(cfg: Config, t: Table, i: nat): (r: (int, Table))
    requires WellFormed(t) && i < |t.buckets| && KeyForm(t.buckets[i])
  {
    Unset(cfg, t, KeyOf(t.buckets[i]))
  }

  /**
   uhtbl_next (uhtbl.c:151-158): the first occupied bucket at or after `iter`,
   and the advanced cursor.
   */
  function Next(t: Table, iter: nat): (r: (Option<nat>, nat))
    ensures r.0.Some? ==> iter <= r.0.value < |t.buckets| && t.buckets[r.0.value].flags.occupied
                          && r.1 == r.0.value + 1
    ensures r.0.Some? ==> forall j :: iter <= j < r.0.value ==> !t.buckets[j].flags.occupied
    ensures r.0.None? ==> forall j :: iter <= j < |t.buckets| ==> !t.buckets[j].flags.occupied
    ensures r.0.None? ==> r.1 == if iter < |t.buckets| then |t.buckets| else iter
    decreases |t.buckets| - iter
  {
    if iter >= |t.buckets| then (None, iter)
    else if t.buckets[iter].flags.occupied then (Some(iter), iter + 1)
    else Next(t, iter + 1)
  }

  /** The number of OCCUPIED buckets, the quantity `used` keeps. */
  function Count(bs: seq<Bucket>): (n: nat)
    ensures n <= |bs|
    ensures n == 0 <==> forall i :: 0 <= i < |bs| ==> !bs[i].flags.occupied
    ensures n == |bs| <==> forall i :: 0 <= i < |bs| ==> bs[i].flags.occupied
  {
    if bs == [] then 0
    else
      var rest := Count(bs[1..]);
      assert forall i :: 1 <= i < |bs| ==> bs[i] == bs[1..][i - 1];
      (if bs[0].flags.occupied then 1 else 0) + rest
  }

  /** The occupied buckets of an array, in index order. */
  function OccupiedOf(bs: seq<Bucket>): (r: seq<Bucket>)
    ensures |r| == Count(bs)
    ensures forall x :: x in r ==> x in bs && x.flags.occupied
  {
    if bs == [] then []
    else (if bs[0].flags.occupied then [bs[0]] else []) + OccupiedOf(bs[1..])
  }

  /**
   uhtbl_clear (uhtbl.c:52-62): gc every occupied bucket in index order, zero
   every flag byte, and reset `used` and `nextfree`.
   */
  function Clear(cfg: Config, t: Table): (r: Table)
    ensures |r.buckets| == |t.buckets| && r.payload == t.payload
    ensures r.used == 0 && Count(r.buckets) == 0
    ensures forall i :: 0 <= i < |r.buckets| ==> !r.buckets[i].flags.withNext && r.buckets[i].key == t.buckets[i].key
    ensures |r.gcLog| == |t.gcLog| + (if cfg.hasGc then Count(t.buckets) else 0)
    ensures r.gcLog[..|t.gcLog|] == t.gcLog
    ensures |t.buckets| > 0 ==> r.nextfree == |r.buckets| - 1
    ensures |t.buckets| == 0 ==> r.nextfree == SIZE_LIMIT - 1
  {
    t.(buckets := seq(|t.buckets|, i requires 0 <= i < |t.buckets| => t.buckets[i].(flags := NoFlags)),
       used := 0,
       nextfree := if |t.buckets| > 0 then |t.buckets| - 1 else SIZE_LIMIT - 1,
       gcLog := t.gcLog + (if cfg.hasGc then OccupiedOf(t.buckets) else []))
  }
}
