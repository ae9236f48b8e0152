/**
 Whole-array operations: iteration with uhtbl_next and uhtbl_clear.
 */
module UhtblScan {
  import opened Wrappers
  import opened UhtblFlags
  import opened UhtblKey
  import opened Uhtbl
  import opened UhtblShape

  /**
   The buckets a caller visits by calling uhtbl_next from cursor `iter` until
   it answers NULL, in visiting order.
   */
  function Scan(t: Table, iter: nat): (r: seq<nat>)
    decreases |t.buckets| - iter
  {
    match Next(t, iter).0
    case None => []
    case Some(j) => [j] + Scan(t, j + 1)
  }

  /** The number of occupied buckets from `from` on. */
  function CountFrom(bs: seq<Bucket>, from: nat): nat
    decreases |bs| - from
  {
    if from >= |bs| then 0
    else (if bs[from].flags.occupied then 1 else 0) + CountFrom(bs, from + 1)
  }

  /** Counting from a cursor agrees with counting the suffix. */
  lemma {:induction false} CountFromSuffix(bs: seq<Bucket>, from: nat)
    requires from <= |bs|
    ensures CountFrom(bs, from) == Count(bs[from..])
    decreases |bs| - from
  {
    if from < |bs| {
      CountFromSuffix(bs, from + 1);
      assert bs[from..][1..] == bs[from + 1..];
    }
  }

  /** Unoccupied buckets between two cursors do not change the count. */
  lemma {:induction false} CountSkip(bs: seq<Bucket>, from: nat, stop: nat)
    requires from <= stop <= |bs|
    requires forall j :: from <= j < stop ==> !bs[j].flags.occupied
    ensures CountFrom(bs, from) == CountFrom(bs, stop)
    decreases stop - from
  {
    if from < stop {
      CountSkip(bs, from + 1, stop);
    }
  }

  /** Iteration from a cursor visits exactly the occupied buckets from there on. */
  lemma {:induction false} ScanMembers(t: Table, iter: nat)
    requires iter <= |t.buckets|
    ensures forall x :: x in Scan(t, iter) <==> iter <= x < |t.buckets| && t.buckets[x].flags.occupied
    decreases |t.buckets| - iter
  {
    match Next(t, iter).0
    case None =>
    case Some(j) =>
      ScanMembers(t, j + 1);
  }

  /** Iteration visits buckets in increasing index order, so none twice. */
  lemma {:induction false} ScanSorted(t: Table, iter: nat)
    requires iter <= |t.buckets|
    ensures forall x :: x in Scan(t, iter) ==> iter <= x
    ensures forall a, b :: 0 <= a < b < |Scan(t, iter)| ==> Scan(t, iter)[a] < Scan(t, iter)[b]
    decreases |t.buckets| - iter
  {
    match Next(t, iter).0
    case None =>
    case Some(j) =>
      ScanSorted(t, j + 1);
      var rest := Scan(t, j + 1);
      var r := Scan(t, iter);
      assert r == [j] + rest;
      forall a, b | 0 <= a < b < |r| ensures r[a] < r[b] {
        assert r[b] == rest[b - 1];
        if a > 0 {
          assert r[a] == rest[a - 1];
        } else {
          assert rest[b - 1] in rest;
        }
      }
  }

  /** Iteration from a cursor visits as many buckets as are occupied from there on. */
  lemma {:induction false} ScanLength(t: Table, iter: nat)
    requires iter <= |t.buckets|
    ensures |Scan(t, iter)| == CountFrom(t.buckets, iter)
    decreases |t.buckets| - iter
  {
    var bs := t.buckets;
    match Next(t, iter).0
    case None =>
      CountSkip(bs, iter, |bs|);
    case Some(j) =>
      ScanLength(t, j + 1);
      CountSkip(bs, iter, j);
      assert Scan(t, iter) == [j] + Scan(t, j + 1);
  }

  /**
   Iteration visits every occupied bucket from the cursor on exactly once, in
   increasing index order, and nothing else (uhtbl.c:151-158, uhtbl.h:255-266).
   */
  lemma ScanSpec(t: Table, iter: nat)
    requires iter <= |t.buckets|
    ensures forall x :: x in Scan(t, iter) <==> iter <= x < |t.buckets| && t.buckets[x].flags.occupied
    ensures forall a, b :: 0 <= a < b < |Scan(t, iter)| ==> Scan(t, iter)[a] < Scan(t, iter)[b]
    ensures |Scan(t, iter)| == CountFrom(t.buckets, iter)
  {
    ScanMembers(t, iter);
    ScanSorted(t, iter);
    ScanLength(t, iter);
  }

  /** On a valid table a full iteration visits exactly `used` buckets. */
  lemma ScanCount(cfg: Config, t: Table, w: Shape)
    requires Inv(cfg, t, w)
    ensures |Scan(t, 0)| == t.used
    ensures forall x :: x in Scan(t, 0) <==> 0 <= x < |t.buckets| && t.buckets[x].flags.occupied
  {
    ScanSpec(t, 0);
    CountFromSuffix(t.buckets, 0);
    assert t.buckets[0..] == t.buckets;
  }

  /** The collector sees every occupied bucket, once each: as many as `used` counts. */
  lemma {:induction false} OccupiedOfSpec(bs: seq<Bucket>)
    ensures |OccupiedOf(bs)| == Count(bs)
    ensures forall b :: b in OccupiedOf(bs) <==> b in bs && b.flags.occupied
  {
    if bs != [] {
      OccupiedOfSpec(bs[1..]);
      forall b | b in bs && b.flags.occupied ensures b in OccupiedOf(bs) {
        if b != bs[0] {
          var i :| 0 <= i < |bs| && bs[i] == b;
          assert bs[1..][i - 1] == b;
        }
      }
    }
  }

  /** The witness of a table whose chains are all empty. */
  ghost function EmptyShape(t: Table): (w: Shape)
    ensures Sized(t, w)
  {
    var n := |t.buckets|;
    Shape(seq(n, i requires 0 <= i < n => if i < t.payload then i else -1), seq(n, _ => 0), seq(n, _ => 0))
  }

  /** A table whose flags are all zero holds nothing and is valid under the empty witness. */
  lemma EmptyInv(cfg: Config, t: Table)
    requires WellFormed(t) && t.used == 0 && t.nextfree == |t.buckets| - 1
    requires forall i :: 0 <= i < |t.buckets| ==> t.buckets[i].flags == NoFlags && KeyForm(t.buckets[i])
    ensures Inv(cfg, t, EmptyShape(t)) && Valid(cfg, t)
    ensures forall e :: !Holds(t.buckets, e)
  {
    var w := EmptyShape(t);
    forall i | 0 <= i < |t.buckets| ensures Node(cfg, t, w, -1, i) {
    }
    assert Count(t.buckets) == 0;
    assert Inv(cfg, t, w);
  }

  /** A cleared table is valid. */
  lemma ClearValid(cfg: Config, t: Table, w: Shape)
    requires Inv(cfg, t, w)
    ensures Valid(cfg, Clear(cfg, t))
  {
    var r := Clear(cfg, t);
    forall i | 0 <= i < |t.buckets| ensures KeyForm(r.buckets[i]) {
      assert Node(cfg, t, w, -1, i);
    }
    EmptyInv(cfg, r);
  }

  /**
   uhtbl_clear on a valid table (uhtbl.c:52-62, uhtbl.h:302-312): the result
   is valid and empty, and the garbage collector, when there is one, was
   handed exactly the entries the table held, `used` of them.
   */
  lemma ClearSpec(cfg: Config, t: Table, w: Shape)
    requires Inv(cfg, t, w)
    ensures var r := Clear(cfg, t);
            && Valid(cfg, r) && r.used == 0
            && (forall e :: !Holds(r.buckets, e))
            && (cfg.hasGc ==> |r.gcLog| == |t.gcLog| + t.used)
            && (cfg.hasGc ==> forall b :: b in r.gcLog[|t.gcLog|..] <==> b in t.buckets && b.flags.occupied)
            && (!cfg.hasGc ==> r.gcLog == t.gcLog)
  {
    var r := Clear(cfg, t);
    ClearValid(cfg, t, w);
    OccupiedOfSpec(t.buckets);
    if cfg.hasGc {
      assert r.gcLog[|t.gcLog|..] == OccupiedOf(t.buckets);
    }
  }
}
