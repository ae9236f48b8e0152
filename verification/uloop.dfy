/**
 The timer queue of uloop (uloop.c): pending timeouts in a doubly linked
 list ordered by deadline, compared with `tv_diff`.

 The list is the sequence of timer ids from `first_timeout` on, and each
 timer keeps its deadline and its `pending` flag; the prev/next links are
 what the sequence order states.  The clock (`gettimeofday`) is the `now`
 parameter.  `time_t` arithmetic is unbounded; the conversion of tv_diff's
 result to `int` is modelled.
 */
module ULoop {
  import opened CArith

  const MSEC_PER_SEC: int := 1000
  const USEC_PER_MSEC: int := 1000
  const USEC_PER_SEC: int := 1_000_000

  /**
   tv_diff drops the sub-millisecond part of a difference within a second,
   so the queue is in deadline order to within this many microseconds.
   */
  const SLACK: int := 999

  /** The largest distance in seconds whose count of milliseconds fits an `int`. */
  const MAX_SECS: int := 2_147_483

  /** A `struct timeval`. */
  datatype TimeVal = TimeVal(sec: int, usec: int)

  /** The microsecond field is below a second, as gettimeofday answers. */
  predicate Normal(t: TimeVal) {
    0 <= t.usec < USEC_PER_SEC
  }

  /** The instant a time stands for, in microseconds. */
  function Micros(t: TimeVal): int {
    t.sec * USEC_PER_SEC + t.usec
  }

  /** Two times whose distance in milliseconds fits an `int`. */
  predicate Near(a: TimeVal, b: TimeVal) {
    -MAX_SECS <= a.sec - b.sec <= MAX_SECS
  }

  /** Conversion of a `long` to `int`: the low 32 bits in two's complement. */
  function ToInt(x: int): (r: int)
    ensures -0x8000_0000 <= r < 0x8000_0000
    ensures -0x8000_0000 <= x < 0x8000_0000 ==> r == x
  {
    I32(U32(x))
  }

  /**
   tv_diff (uloop.c:256-262): whole seconds in milliseconds when the seconds
   differ, the microseconds divided by 1000 (toward zero) otherwise.
   */
  function TvDiff(t1: TimeVal, t2: TimeVal): (r: int)
    ensures -0x8000_0000 <= r < 0x8000_0000
  {
    if t1.sec != t2.sec then ToInt((t1.sec - t2.sec) * MSEC_PER_SEC)
    else ToInt(TruncDiv(t1.usec - t2.usec, USEC_PER_MSEC))
  }

  /**
   On normal times the sign of tv_diff is the sign of the difference of the
   instants, except that it is 0 for instants less than a millisecond apart
   within the same second.
   */
  lemma TvDiffSign(a: TimeVal, b: TimeVal)
    requires Normal(a) && Normal(b) && Near(a, b)
    ensures TvDiff(a, b) > 0 ==> Micros(a) > Micros(b)
    ensures TvDiff(a, b) < 0 ==> Micros(a) < Micros(b)
    ensures TvDiff(a, b) == 0 <==> a.sec == b.sec && -SLACK <= a.usec - b.usec <= SLACK
    ensures Micros(a) >= Micros(b) + USEC_PER_MSEC ==> TvDiff(a, b) > 0
  {
    if a.sec != b.sec {
      assert TvDiff(a, b) == (a.sec - b.sec) * MSEC_PER_SEC;
      if a.sec < b.sec {
        assert Micros(a) < (a.sec + 1) * USEC_PER_SEC <= Micros(b);
      } else {
        assert Micros(b) < (b.sec + 1) * USEC_PER_SEC <= Micros(a);
      }
    } else {
      assert TvDiff(a, b) == TruncDiv(a.usec - b.usec, USEC_PER_MSEC);
    }
  }

  /** Truncation toward zero makes tv_diff antisymmetric on normal times. */
  lemma TvDiffAntisymmetric(a: TimeVal, b: TimeVal)
    requires Normal(a) && Normal(b) && Near(a, b)
    ensures TvDiff(a, b) == -TvDiff(b, a)
  {
    if a.sec == b.sec {
      var d := a.usec - b.usec;
      assert TvDiff(a, b) == TruncDiv(d, USEC_PER_MSEC);
      assert TvDiff(b, a) == TruncDiv(-d, USEC_PER_MSEC);
    }
  }

  /** Across a second boundary the microseconds are ignored: 1 microsecond apart reads as 1000 ms. */
  lemma TvDiffIgnoresMicros()
    ensures var a, b := TimeVal(1, 0), TimeVal(0, 999_999);
            TvDiff(a, b) == 1000 && Micros(a) - Micros(b) == 1
  {
  }

  /** A `struct uloop_timeout`: its deadline and whether it is linked into the list. */
  datatype Timer = Timer(time: TimeVal, pending: bool)

  /** The timers by id, and the list from `first_timeout` on. */
  datatype Loop = Loop(timers: map<nat, Timer>, queue: seq<nat>)

  /** Every listed id is a timer. */
  predicate Known(l: Loop) {
    forall i :: 0 <= i < |l.queue| ==> l.queue[i] in l.timers
  }

  /** No timer is linked twice. */
  predicate Distinct(q: seq<nat>) {
    forall i, j :: 0 <= i < j < |q| ==> q[i] != q[j]
  }

  /** The list invariant: every listed id is a timer, none twice, and `pending` says whether it is listed. */
  predicate Wf(l: Loop) {
    && Known(l) && Distinct(l.queue)
    && forall id :: id in l.timers ==> (l.timers[id].pending <==> id in l.queue)
  }

  /** The deadlines along the list. */
  function Deadlines(l: Loop): (ds: seq<TimeVal>)
    requires Known(l)
    ensures |ds| == |l.queue| && forall i :: 0 <= i < |ds| ==> ds[i] == l.timers[l.queue[i]].time
  {
    seq(|l.queue|, i requires 0 <= i < |l.queue| => l.timers[l.queue[i]].time)
  }

  /** Normal deadlines in order to within `SLACK`: none is more than that later than one after it. */
  predicate Ordered(ds: seq<TimeVal>) {
    && (forall i :: 0 <= i < |ds| ==> Normal(ds[i]))
    && (forall i, j :: 0 <= i < j < |ds| ==> Micros(ds[i]) <= Micros(ds[j]) + SLACK)
  }

  /** `t` is within tv_diff's range of every deadline. */
  predicate NearAll(ds: seq<TimeVal>, t: TimeVal) {
    forall i :: 0 <= i < |ds| ==> Near(ds[i], t)
  }

  /** The first position from `k` on whose deadline is later than `t` by tv_diff. */
  function FirstLater(ds: seq<TimeVal>, t: TimeVal, k: nat): (p: nat)
    requires k <= |ds|
    ensures k <= p <= |ds|
    decreases |ds| - k
  {
    if k == |ds| then k
    else if TvDiff(ds[k], t) > 0 then k
    else FirstLater(ds, t, k + 1)
  }

  /** Every deadline before the position is not later than `t`; the one at it is. */
  lemma {:induction false} FirstLaterSpec(ds: seq<TimeVal>, t: TimeVal, k: nat)
    requires k <= |ds|
    ensures var p := FirstLater(ds, t, k);
            && (forall i :: k <= i < p ==> TvDiff(ds[i], t) <= 0)
            && (p < |ds| ==> TvDiff(ds[p], t) > 0)
    decreases |ds| - k
  {
    if k < |ds| && TvDiff(ds[k], t) <= 0 {
      FirstLaterSpec(ds, t, k + 1);
    }
  }

  /** Where uloop_timeout_add links a timer with deadline `t`. */
  function InsertPos(l: Loop, t: TimeVal): (p: nat)
    requires Known(l)
    ensures p <= |l.queue|
  {
    FirstLater(Deadlines(l), t, 0)
  }

  /**
   uloop_timeout_add (uloop.c:264-288): -1 for a pending timer; otherwise
   the timer is linked before the first timer whose deadline is later by
   tv_diff, and is pending.
   */
  function Add(l: Loop, id: nat): (r: (Loop, int))
    requires Known(l) && id in l.timers
    ensures r.1 == 0 || r.1 == -1
    ensures l.timers[id].pending <==> r == (l, -1)
    ensures r.1 == 0 ==> r.0.timers == l.timers[id := l.timers[id].(pending := true)]
    ensures r.1 == 0 ==> |r.0.queue| == |l.queue| + 1 && r.0.queue[InsertPos(l, l.timers[id].time)] == id
  {
    var t := l.timers[id];
    if t.pending then (l, -1)
    else
      var p := InsertPos(l, t.time);
      (Loop(l.timers[id := t.(pending := true)], l.queue[..p] + [id] + l.queue[p..]), 0)
  }

  /**
   The list after adding is the old list with the timer spliced in: every
   timer ahead of it has a deadline not later by tv_diff (so timers with
   equal deadlines fire in the order they were added), the one after it a
   later one.
   */
  lemma AddSpec(l: Loop, id: nat)
    requires Known(l) && id in l.timers && !l.timers[id].pending
    ensures var p, t := InsertPos(l, l.timers[id].time), l.timers[id].time;
            var q := Add(l, id).0.queue;
            && q[..p] == l.queue[..p] && q[p] == id && q[p + 1..] == l.queue[p..]
            && (forall i :: 0 <= i < p ==> TvDiff(Deadlines(l)[i], t) <= 0)
            && (p < |l.queue| ==> TvDiff(Deadlines(l)[p], t) > 0)
  {
    var p := InsertPos(l, l.timers[id].time);
    FirstLaterSpec(Deadlines(l), l.timers[id].time, 0);
    var q := Add(l, id).0.queue;
    assert q == l.queue[..p] + [id] + l.queue[p..];
    assert q[p + 1..] == l.queue[p..];
  }

  /** Inserting a fresh id keeps the ids distinct. */
  lemma DistinctInsert(q: seq<nat>, p: nat, id: nat)
    requires Distinct(q) && p <= |q| && id !in q
    ensures Distinct(q[..p] + [id] + q[p..])
  {
    var q2 := q[..p] + [id] + q[p..];
    forall i, j | 0 <= i < j < |q2| ensures q2[i] != q2[j] {
      if i < p && j > p {
        assert q2[i] == q[i] && q2[j] == q[j - 1];
      } else if i > p {
        assert q2[i] == q[i - 1] && q2[j] == q[j - 1];
      } else if i < p {
        assert q2[j] == id || q2[j] == q[j];
      } else {
        assert q2[j] == q[j - 1];
      }
    }
  }

  /** Adding keeps the list invariant. */
  lemma AddWf(l: Loop, id: nat)
    requires Wf(l) && id in l.timers
    ensures Wf(Add(l, id).0)
  {
    if !l.timers[id].pending {
      var p := InsertPos(l, l.timers[id].time);
      var l2 := Add(l, id).0;
      assert l2.queue == l.queue[..p] + [id] + l.queue[p..];
      DistinctInsert(l.queue, p, id);
      assert l.queue == l.queue[..p] + l.queue[p..];
      forall x | x in l2.timers ensures l2.timers[x].pending <==> x in l2.queue {
        if x != id {
          assert x in l2.queue <==> x in l.queue;
        }
      }
    }
  }

  /** The deadlines after adding are the old ones with the new one spliced in at the same place. */
  lemma AddDeadlines(l: Loop, id: nat)
    requires Known(l) && id in l.timers && !l.timers[id].pending
    ensures Known(Add(l, id).0)
    ensures var p, ds := InsertPos(l, l.timers[id].time), Deadlines(l);
            Deadlines(Add(l, id).0) == ds[..p] + [l.timers[id].time] + ds[p..]
  {
    var p, ds, t := InsertPos(l, l.timers[id].time), Deadlines(l), l.timers[id].time;
    var l2 := Add(l, id).0;
    assert l2.queue == l.queue[..p] + [id] + l.queue[p..];
    var e := ds[..p] + [t] + ds[p..];
    forall i | 0 <= i < |l2.queue| ensures l2.queue[i] in l2.timers && l2.timers[l2.queue[i]].time == e[i] {
      if i < p {
        assert l2.queue[i] == l.queue[i];
      } else if i > p {
        assert l2.queue[i] == l.queue[i - 1];
      }
    }
  }

  /** Splicing a time into an ordered list where tv_diff puts it keeps the list ordered. */
  lemma OrderedInsert(ds: seq<TimeVal>, p: nat, t: TimeVal)
    requires Ordered(ds) && Normal(t) && NearAll(ds, t) && p <= |ds|
    requires forall i :: 0 <= i < p ==> TvDiff(ds[i], t) <= 0
    requires p < |ds| ==> TvDiff(ds[p], t) > 0
    ensures Ordered(ds[..p] + [t] + ds[p..])
  {
    var e := ds[..p] + [t] + ds[p..];
    forall i | 0 <= i < |e| ensures Normal(e[i]) {
      if i > p {
        assert e[i] == ds[i - 1];
      }
    }
    forall i, j | 0 <= i < j < |e| ensures Micros(e[i]) <= Micros(e[j]) + SLACK {
      if j < p {
        assert e[i] == ds[i] && e[j] == ds[j];
      } else if j == p {
        TvDiffSign(ds[i], t);
      } else if i > p {
        assert e[i] == ds[i - 1] && e[j] == ds[j - 1];
      } else if i == p {
        TvDiffSign(ds[p], t);
        assert e[j] == ds[j - 1];
      } else {
        assert e[i] == ds[i] && e[j] == ds[j - 1];
      }
    }
  }

  /** Adding a normal deadline near all others keeps the list in deadline order. */
  lemma AddOrdered(l: Loop, id: nat)
    requires Known(l) && id in l.timers && Ordered(Deadlines(l))
    requires Normal(l.timers[id].time) && NearAll(Deadlines(l), l.timers[id].time)
    ensures Known(Add(l, id).0) && Ordered(Deadlines(Add(l, id).0))
  {
    if !l.timers[id].pending {
      AddDeadlines(l, id);
      AddSpec(l, id);
      OrderedInsert(Deadlines(l), InsertPos(l, l.timers[id].time), l.timers[id].time);
    }
  }

  /** The list without `id`, the rest in order. */
  function Without(q: seq<nat>, id: nat): (r: seq<nat>)
    ensures id !in r
  {
    if q == [] then [] else (if q[0] == id then [] else [q[0]]) + Without(q[1..], id)
  }

  /** Removing an id that is not listed changes nothing. */
  lemma {:induction false} WithoutAbsent(q: seq<nat>, id: nat)
    requires id !in q
    ensures Without(q, id) == q
  {
    if q != [] {
      WithoutAbsent(q[1..], id);
    }
  }

  /** Removing distributes over concatenation. */
  lemma {:induction false} WithoutConcat(a: seq<nat>, b: seq<nat>, id: nat)
    ensures Without(a + b, id) == Without(a, id) + Without(b, id)
  {
    if a != [] {
      WithoutConcat(a[1..], b, id);
      assert (a + b)[1..] == a[1..] + b;
    } else {
      assert a + b == b;
    }
  }

  /** The position of an id in the list. */
  function IndexOf(q: seq<nat>, id: nat): (i: nat)
    requires id in q
    ensures i < |q| && q[i] == id && id !in q[..i]
  {
    if q[0] == id then 0 else 1 + IndexOf(q[1..], id)
  }

  /** The list with position `i` unlinked. */
  function Cut<T>(q: seq<T>, i: nat): (r: seq<T>)
    requires i < |q|
    ensures |r| == |q| - 1
    ensures forall k :: 0 <= k < |r| ==> r[k] == q[if k < i then k else k + 1]
  {
    q[..i] + q[i + 1..]
  }

  /** Removing an id from around one occurrence of it leaves what surrounds it. */
  lemma WithoutSplice(a: seq<nat>, b: seq<nat>, id: nat)
    requires id !in a && id !in b
    ensures Without(a + [id] + b, id) == a + b
  {
    WithoutConcat(a + [id], b, id);
    WithoutConcat(a, [id], id);
    WithoutAbsent(a, id);
    WithoutAbsent(b, id);
    var none := Without([id], id);
    assert none == [] by {
      assert none == [] + Without([], id);
    }
    assert a + none == a;
  }

  /** Unlinking the only occurrence of an id is removing it. */
  lemma CutIsWithout(q: seq<nat>, id: nat)
    requires Distinct(q) && id in q
    ensures Cut(q, IndexOf(q, id)) == Without(q, id)
  {
    var i := IndexOf(q, id);
    var a, b := q[..i], q[i + 1..];
    assert q == a + [id] + b;
    assert id !in b by {
      forall j | 0 <= j < |b| ensures b[j] != id {
        assert b[j] == q[i + 1 + j];
      }
    }
    WithoutSplice(a, b, id);
  }

  /** Unlinking keeps the rest distinct and drops exactly the unlinked id. */
  lemma DistinctCut(q: seq<nat>, i: nat)
    requires Distinct(q) && i < |q|
    ensures Distinct(Cut(q, i))
    ensures forall x :: x in Cut(q, i) <==> x in q && x != q[i]
  {
    var r := Cut(q, i);
    forall a, b | 0 <= a < b < |r| ensures r[a] != r[b] {
      var a', b' := if a < i then a else a + 1, if b < i then b else b + 1;
      assert r[a] == q[a'] && r[b] == q[b'];
    }
    forall x ensures x in r <==> x in q && x != q[i] {
      if x in r {
        var k :| 0 <= k < |r| && r[k] == x;
        var k' := if k < i then k else k + 1;
        assert q[k'] == x;
      }
      if x in q && x != q[i] {
        var k :| 0 <= k < |q| && q[k] == x;
        var k' := if k < i then k else k - 1;
        assert r[k'] == x;
      }
    }
  }

  /**
   uloop_timeout_cancel (uloop.c:310-326): -1 for a timer that is not
   pending; otherwise it is unlinked (its neighbours, or `first_timeout`,
   now point past it) and no longer pending.
   */
  function Cancel(l: Loop, id: nat): (r: (Loop, int))
    requires Wf(l) && id in l.timers
    ensures r.1 == 0 || r.1 == -1
    ensures !l.timers[id].pending <==> r == (l, -1)
    ensures r.1 == 0 ==> r.0.timers == l.timers[id := l.timers[id].(pending := false)]
    ensures r.1 == 0 ==> |r.0.queue| == |l.queue| - 1
  {
    var t := l.timers[id];
    if !t.pending then (l, -1)
    else (Loop(l.timers[id := t.(pending := false)], Cut(l.queue, IndexOf(l.queue, id))), 0)
  }

  /** Cancelling keeps the list invariant. */
  lemma CancelWf(l: Loop, id: nat)
    requires Wf(l) && id in l.timers
    ensures Wf(Cancel(l, id).0)
  {
    if l.timers[id].pending {
      var l2 := Cancel(l, id).0;
      DistinctCut(l.queue, IndexOf(l.queue, id));
      forall x | x in l2.timers ensures l2.timers[x].pending <==> x in l2.queue { }
    }
  }

  /** The deadlines after cancelling are the old ones with the timer's unlinked. */
  lemma CancelDeadlines(l: Loop, id: nat)
    requires Wf(l) && id in l.timers && l.timers[id].pending
    ensures Known(Cancel(l, id).0)
    ensures Deadlines(Cancel(l, id).0) == Cut(Deadlines(l), IndexOf(l.queue, id))
  {
    CancelWf(l, id);
    var l2, i := Cancel(l, id).0, IndexOf(l.queue, id);
    forall k | 0 <= k < |l2.queue| ensures Deadlines(l2)[k] == Cut(Deadlines(l), i)[k] {
      assert l2.queue[k] == l.queue[if k < i then k else k + 1];
    }
  }

  /** Cancelling removes exactly that timer, keeps the others in order, and keeps the list invariant. */
  lemma CancelSpec(l: Loop, id: nat)
    requires Wf(l) && id in l.timers && l.timers[id].pending
    ensures var l2 := Cancel(l, id).0;
            && l2.queue == Without(l.queue, id)
            && Wf(l2)
            && Deadlines(l2) == Cut(Deadlines(l), IndexOf(l.queue, id))
  {
    CutIsWithout(l.queue, id);
    CancelWf(l, id);
    CancelDeadlines(l, id);
  }

  /** Adding and removing a fresh id gives back the list. */
  lemma WithoutInsert(q: seq<nat>, p: nat, id: nat)
    requires p <= |q| && id !in q
    ensures Without(q[..p] + [id] + q[p..], id) == q
  {
    var a, b := q[..p], q[p..];
    assert q == a + b;
    assert id !in a && id !in b;
    WithoutSplice(a, b, id);
  }

  /** Cancelling right after adding restores the loop. */
  lemma CancelAdd(l: Loop, id: nat)
    requires Wf(l) && id in l.timers && !l.timers[id].pending
    ensures Wf(Add(l, id).0) && Cancel(Add(l, id).0, id) == (l, 0)
  {
    AddWf(l, id);
    var l2 := Add(l, id).0;
    var p := InsertPos(l, l.timers[id].time);
    assert l2.queue == l.queue[..p] + [id] + l.queue[p..];
    CancelSpec(l2, id);
    WithoutInsert(l.queue, p, id);
    var l3 := Cancel(l2, id).0;
    assert l3.queue == l.queue;
    var t := l.timers[id];
    assert l2.timers[id].(pending := false) == t;
    MapRestore(l.timers, id, t.(pending := true));
  }

  /** Overwriting a key and writing its old value back restores the map. */
  lemma MapRestore(m: map<nat, Timer>, k: nat, v: Timer)
    requires k in m
    ensures m[k := v][k := m[k]] == m
  {
  }

  /** Removing a deadline from an ordered list keeps it ordered. */
  lemma OrderedCut(ds: seq<TimeVal>, i: nat)
    requires Ordered(ds) && i < |ds|
    ensures Ordered(Cut(ds, i))
  {
    var e := Cut(ds, i);
    forall a, b | 0 <= a < b < |e| ensures Micros(e[a]) <= Micros(e[b]) + SLACK {
      var a', b' := if a < i then a else a + 1, if b < i then b else b + 1;
      assert e[a] == ds[a'] && e[b] == ds[b'];
    }
  }

  /** Cancelling keeps the list in deadline order. */
  lemma CancelOrdered(l: Loop, id: nat)
    requires Wf(l) && id in l.timers && Ordered(Deadlines(l))
    ensures Known(Cancel(l, id).0) && Ordered(Deadlines(Cancel(l, id).0))
  {
    if l.timers[id].pending {
      CancelDeadlines(l, id);
      OrderedCut(Deadlines(l), IndexOf(l.queue, id));
    }
  }

  /**
   The deadline uloop_timeout_set means to set: `msecs` milliseconds after
   `now`, with the microseconds normalised.
   */
  function Deadline(now: TimeVal, msecs: int): (r: TimeVal)
    ensures Normal(r) && Micros(r) == Micros(now) + msecs * USEC_PER_MSEC
  {
    var total := Micros(now) + msecs * USEC_PER_MSEC;
    TimeVal(total / USEC_PER_SEC, total % USEC_PER_SEC)
  }

  /**
   The deadline as uloop_timeout_set computes it (uloop.c:297-305): the
   milliseconds below a second are added to the microsecond field
   unscaled, and an overflow past a second is reduced modulo 100000.
   */
  function DeadlineAsWritten(now: TimeVal, msecs: int): TimeVal {
    var sec := now.sec + TruncDiv(msecs, MSEC_PER_SEC);
    var usec := now.usec + TruncMod(msecs, MSEC_PER_SEC);
    if usec > USEC_PER_SEC then TimeVal(sec + 1, usec % 100_000) else TimeVal(sec, usec)
  }

  /**
   As written, 1500 ms from 0 lands 1.0005 s later instead of 1.5 s, and
   1 ms from 0.999999 s leaves a microsecond field of a whole second.
   */
  lemma DeadlineMillisAsMicros()
    ensures DeadlineAsWritten(TimeVal(0, 0), 1500) == TimeVal(1, 500)
    ensures Micros(Deadline(TimeVal(0, 0), 1500)) == 1_500_000 && Micros(TimeVal(1, 500)) == 1_000_500
    ensures DeadlineAsWritten(TimeVal(0, 999_999), 1) == TimeVal(0, 1_000_000) && !Normal(TimeVal(0, 1_000_000))
  {
  }

  /**
   uloop_timeout_set (uloop.c:290-308) with the deadline corrected: cancel
   the timer if it is pending, set its deadline `msecs` after `now`, add it.
   */
  function Set(l: Loop, id: nat, msecs: int, now: TimeVal): (r: (Loop, int))
    requires Wf(l) && id in l.timers
  {
    var l1 := if l.timers[id].pending then Cancel(l, id).0 else l;
    var t := l1.timers[id].(time := Deadline(now, msecs));
    Add(l1.(timers := l1.timers[id := t]), id)
  }

  /**
   Setting a timer always succeeds, keeps the list invariant, and leaves the
   timer pending, listed exactly once, with the new deadline; cancelling a
   pending timer first is what keeps it from being linked twice.
   */
  lemma SetSpec(l: Loop, id: nat, msecs: int, now: TimeVal)
    requires Wf(l) && id in l.timers
    ensures var r := Set(l, id, msecs, now);
            && r.1 == 0 && Wf(r.0)
            && r.0.timers[id] == Timer(Deadline(now, msecs), true)
            && id in r.0.queue
  {
    var l1 := if l.timers[id].pending then Cancel(l, id).0 else l;
    if l.timers[id].pending {
      CancelSpec(l, id);
    }
    var t := l1.timers[id].(time := Deadline(now, msecs));
    var l2 := l1.(timers := l1.timers[id := t]);
    assert Wf(l2) by {
      forall x | x in l2.timers ensures l2.timers[x].pending <==> x in l2.queue {
        if x != id {
          assert l2.timers[x] == l1.timers[x];
        }
      }
    }
    AddWf(l2, id);
  }

  /**
   uloop_get_next_timeout (uloop.c:342-354): -1 for an empty list, 0 when
   the first deadline is not later than `now` by tv_diff, else tv_diff.
   */
  function NextTimeout(l: Loop, now: TimeVal): (r: int)
    requires Known(l)
    ensures r >= -1
    ensures r == -1 <==> |l.queue| == 0
  {
    if |l.queue| == 0 then -1
    else
      var diff := TvDiff(Deadlines(l)[0], now);
      if diff < 0 then 0 else diff
  }

  /**
   On an ordered list of normal deadlines near `now`: the answer is 0
   exactly when the first deadline is at most `SLACK` microseconds after
   `now` within its second or earlier; a positive answer `r` means waiting
   `r` ms ends within a second of the first deadline, and every listed
   deadline lies after `now` but for `SLACK`.
   */
  lemma NextTimeoutSpec(l: Loop, now: TimeVal)
    requires Known(l) && Ordered(Deadlines(l)) && Normal(now) && NearAll(Deadlines(l), now)
    ensures var r, ds := NextTimeout(l, now), Deadlines(l);
            && (r == 0 <==> |ds| > 0 && TvDiff(ds[0], now) <= 0)
            && (r == 0 ==> Micros(ds[0]) <= Micros(now) + SLACK)
            && (r > 0 ==> Micros(ds[0]) - USEC_PER_SEC < Micros(now) + r * USEC_PER_MSEC < Micros(ds[0]) + USEC_PER_SEC)
            && (r > 0 ==> forall i :: 0 <= i < |ds| ==> Micros(ds[i]) > Micros(now) - SLACK)
  {
    var ds := Deadlines(l);
    if |ds| > 0 {
      var h := ds[0];
      TvDiffSign(h, now);
      if h.sec != now.sec {
        assert TvDiff(h, now) == (h.sec - now.sec) * MSEC_PER_SEC;
      } else {
        assert TvDiff(h, now) == TruncDiv(h.usec - now.usec, USEC_PER_MSEC);
      }
    }
  }

  /**
   What expiring the first `|fired|` timers of `l` leaves: they were expired
   and are unlinked and no longer pending, and nothing else changed.
   */
  predicate Expired(l: Loop, l2: Loop, fired: seq<nat>, now: TimeVal)
    requires Wf(l)
  {
    && Wf(l2) && |fired| <= |l.queue|
    && fired == l.queue[..|fired|] && l2.queue == l.queue[|fired|..]
    && (forall i :: 0 <= i < |fired| ==> TvDiff(Deadlines(l)[i], now) <= 0)
    && l2.timers.Keys == l.timers.Keys
    && forall id :: id in l.timers ==>
         l2.timers[id].time == l.timers[id].time && (l2.timers[id].pending <==> l.timers[id].pending && id !in fired)
  }

  /** Expiring the first timer of what is left extends the expired prefix by it. */
  lemma ExpireStep(l: Loop, l2: Loop, fired: seq<nat>, now: TimeVal)
    requires Wf(l) && Expired(l, l2, fired, now)
    requires |l2.queue| > 0 && TvDiff(l2.timers[l2.queue[0]].time, now) <= 0
    ensures Expired(l, Cancel(l2, l2.queue[0]).0, fired + [l2.queue[0]], now)
  {
    var id := l2.queue[0];
    assert IndexOf(l2.queue, id) == 0;
    CancelWf(l2, id);
    var l3 := Cancel(l2, id).0;
    assert l3.queue == l2.queue[1..];
    assert l.queue[..|fired| + 1] == fired + [id];
    assert Deadlines(l)[|fired|] == l.timers[id].time;
    assert id !in fired by {
      forall k | 0 <= k < |fired| ensures fired[k] != id {
        assert fired[k] == l.queue[k] && id == l.queue[|fired|];
      }
    }
    forall x | x in l.timers
      ensures l3.timers[x].time == l.timers[x].time && (l3.timers[x].pending <==> l.timers[x].pending && x !in fired + [id])
    {
      assert x in fired + [id] <==> x in fired || x == id;
    }
  }

  /** A list that is a suffix of an ordered one, with the same deadlines, is ordered. */
  lemma OrderedSuffix(l: Loop, l2: Loop, k: nat)
    requires Known(l) && Known(l2) && Ordered(Deadlines(l))
    requires k <= |l.queue| && l2.queue == l.queue[k..]
    requires forall id :: id in l.timers ==> id in l2.timers && l2.timers[id].time == l.timers[id].time
    ensures Ordered(Deadlines(l2))
  {
    var ds, es := Deadlines(l), Deadlines(l2);
    forall i | 0 <= i < |es| ensures es[i] == ds[i + k] {
      assert l2.queue[i] == l.queue[i + k];
    }
  }

  /**
   uloop_process_timeouts (uloop.c:356-369): while the first deadline is not
   later than `now` by tv_diff, cancel that timer and fire it.  `fired` is
   the order in which callbacks run; what callbacks do is not modelled.
   */
  method ProcessTimeouts(l: Loop, now: TimeVal) returns (l2: Loop, fired: seq<nat>)
    requires Wf(l)
    ensures Wf(l2) && |fired| <= |l.queue|
    ensures fired == l.queue[..|fired|] && l2.queue == l.queue[|fired|..]
    ensures forall i :: 0 <= i < |fired| ==> TvDiff(Deadlines(l)[i], now) <= 0
    ensures |fired| < |l.queue| ==> TvDiff(Deadlines(l)[|fired|], now) > 0
    ensures l2.timers.Keys == l.timers.Keys
    ensures forall id :: id in l.timers ==>
              l2.timers[id].time == l.timers[id].time && (l2.timers[id].pending <==> l.timers[id].pending && id !in fired)
    ensures NextTimeout(l2, now) == -1 || NextTimeout(l2, now) > 0
    ensures Ordered(Deadlines(l)) ==> Ordered(Deadlines(l2))
  {
    l2 := l;
    fired := [];
    while |l2.queue| > 0 && TvDiff(l2.timers[l2.queue[0]].time, now) <= 0
      invariant Expired(l, l2, fired, now)
      decreases |l2.queue|
    {
      var id := l2.queue[0];
      ExpireStep(l, l2, fired, now);
      l2 := Cancel(l2, id).0;
      fired := fired + [id];
    }
    if |fired| < |l.queue| {
      assert Deadlines(l)[|fired|] == Deadlines(l2)[0];
    }
    if Ordered(Deadlines(l)) {
      OrderedSuffix(l, l2, |fired|);
    }
  }
}
