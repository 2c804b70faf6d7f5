/**
  The resend filter's memory of one peer: a ring of buckets of hashes, the
  oldest of which is dropped on every tick. It is a sliding window.
 */
module PeerHashCache {
  import opened Words

  /** A SHA-1 sum. */
  type Digest = s: bytes | |s| == 20 witness [0, 0, 0, 0, 0, 0, 0, 0, 0, 0, 0, 0, 0, 0, 0, 0, 0, 0, 0, 0]

  //// The window, as a property of the history

  datatype Event = Added(hash: Digest) | Dropped

  function Drops(log: seq<Event>): nat {
    if log == [] then 0 else (if log[0].Dropped? then 1 else 0) + Drops(log[1..])
  }

  /** `h` was added at entry `j`, and `k` buckets were dropped since. */
  ghost predicate AddedAgo(log: seq<Event>, j: nat, h: Digest, k: nat) {
    j < |log| && log[j] == Added(h) && Drops(log[j + 1..]) == k
  }

  /** `h` was added with fewer than `n` buckets dropped since. */
  ghost predicate Remembered(log: seq<Event>, n: nat, h: Digest) {
    exists j: nat, k: nat :: k < n && AddedAgo(log, j, h, k)
  }

  /** The hashes in the bucket that has seen `k` drops. */
  function BucketOf(log: seq<Event>, k: nat): set<Digest>
    decreases |log|
  {
    if log == [] then {}
    else
      var before, last := log[..|log| - 1], log[|log| - 1];
      match last
      case Added(h) => BucketOf(before, k) + if k == 0 then {h} else {}
      case Dropped => if k == 0 then {} else BucketOf(before, k - 1)
  }

  lemma {:induction false} DropsSnoc(log: seq<Event>, e: Event)
    ensures Drops(log + [e]) == Drops(log) + if e.Dropped? then 1 else 0
  {
    if log == [] {
      assert log + [e] == [e];
    } else {
      assert (log + [e])[1..] == log[1..] + [e];
      DropsSnoc(log[1..], e);
    }
  }

  /** One more event: an addition enters the bucket of age 0, a drop makes every bucket older. */
  lemma {:induction false} AddedAgoSnoc(log: seq<Event>, last: Event, j: nat, h: Digest, k: nat)
    ensures AddedAgo(log + [last], j, h, k) <==>
            if j == |log| then last == Added(h) && k == 0
            else if last.Dropped? then k > 0 && AddedAgo(log, j, h, k - 1)
            else AddedAgo(log, j, h, k)
  {
    if j < |log| {
      assert (log + [last])[j + 1..] == log[j + 1..] + [last];
      DropsSnoc(log[j + 1..], last);
    } else if j == |log| {
      assert (log + [last])[j + 1..] == [];
    }
  }

  lemma {:induction false} BucketMeaning(log: seq<Event>, k: nat, h: Digest)
    ensures h in BucketOf(log, k) <==> exists j: nat :: AddedAgo(log, j, h, k)
    decreases |log|
  {
    if log != [] {
      var before, last := log[..|log| - 1], log[|log| - 1];
      assert log == before + [last];
      var k' := if last.Dropped? then k - 1 else k;
      if k' >= 0 {
        BucketMeaning(before, k', h);
      }
      if h in BucketOf(log, k) {
        if last == Added(h) && k == 0 {
          AddedAgoSnoc(before, last, |before|, h, k);
        } else {
          var j: nat :| AddedAgo(before, j, h, k');
          AddedAgoSnoc(before, last, j, h, k);
        }
      }
      if j: nat :| AddedAgo(log, j, h, k) {
        AddedAgoSnoc(before, last, j, h, k);
      }
    }
  }

  /** The latest addition decides: it is the one with the fewest drops since. */
  lemma {:induction false} LatestDecides(log: seq<Event>, j: nat, j': nat)
    requires j <= j' <= |log|
    ensures Drops(log[j'..]) <= Drops(log[j..])
    decreases j' - j
  {
    if j < j' {
      assert log[j..][1..] == log[j + 1..];
      LatestDecides(log, j + 1, j');
    }
  }

  /** Said by the latest addition of `h`, the last entry that adds it. */
  lemma {:induction false} RememberedByLatest(log: seq<Event>, n: nat, h: Digest, last: nat)
    requires last < |log| && log[last] == Added(h)
    requires forall j :: last < j < |log| ==> log[j] != Added(h)
    ensures Remembered(log, n, h) <==> Drops(log[last + 1..]) < n
  {
    if Drops(log[last + 1..]) < n {
      assert AddedAgo(log, last, h, Drops(log[last + 1..]));
    }
    if Remembered(log, n, h) {
      var j: nat, k: nat :| k < n && AddedAgo(log, j, h, k);
      LatestDecides(log, j + 1, last + 1);
    }
  }

  //// The code

  lemma {:induction false} Wraps(pc: nat, offset: nat, n: nat)
    requires pc < n
    ensures offset < n ==> (pc + offset) % n == if pc + offset < n then pc + offset else pc + offset - n
  {
    if offset < n {
      if pc + offset < n {
        DivModUnique(pc + offset, n, 0, pc + offset);
      } else {
        DivModUnique(pc + offset, n, 1, pc + offset - n);
      }
    }
  }

  class PhcBucket {
    var data: map<Digest, bool>

    constructor ()
      ensures data == map[]
    {
      data := map[];
    }

    predicate Has(hash: Digest)
      reads this
    {
      hash in data && data[hash]
    }

    method Add(hash: Digest)
      modifies this
      ensures data == old(data)[hash := true]
    {
      data := data[hash := true];
    }
  }

  class PeerHashCache {
    var buckets: seq<PhcBucket>
    var pc: nat
    /** Everything that happened to the cache. */
    ghost var log: seq<Event>

    ghost predicate Valid()
      reads this, buckets
    {
      && (pc < |buckets| || (pc == 0 && buckets == []))
      && (forall i, j :: 0 <= i < j < |buckets| ==> buckets[i] != buckets[j])
      && forall k, h :: 0 <= k < |buckets| ==> (buckets[Ptr(k)].Has(h) <==> h in BucketOf(log, k))
    }

    ghost function Repr(): set<object>
      reads this
    {
      (set b: object | b in buckets) + {this}
    }

    /** Index of the bucket that has seen `offset` drops. */
    function Ptr(offset: nat): (p: nat)
      requires pc < |buckets|
      reads this
      ensures p < |buckets|
      ensures offset < |buckets| ==> p == if pc + offset < |buckets| then pc + offset else pc + offset - |buckets|
    {
      Wraps(pc, offset, |buckets|);
      (pc + offset) % |buckets|
    }

    constructor (n: nat)
      ensures Valid() && |buckets| == n && log == []
      ensures fresh(buckets)
    {
      buckets, pc, log := [], 0, [];
      new;
      for i := 0 to n
        invariant |buckets| == i && pc == 0 && log == []
        invariant fresh(buckets)
        invariant forall j :: 0 <= j < i ==> buckets[j].data == map[]
        invariant forall j, k :: 0 <= j < k < i ==> buckets[j] != buckets[k]
      {
        var b := new PhcBucket();
        buckets := buckets + [b];
      }
    }

    /** Whether the hash is still in the window. */
    method Has(hash: Digest) returns (found: bool)
      requires Valid()
      ensures found <==> Remembered(log, |buckets|, hash)
    {
      for i := 0 to |buckets|
        invariant forall k :: 0 <= k < i ==> hash !in BucketOf(log, k)
      {
        BucketMeaning(log, i, hash);
        if buckets[Ptr(i)].Has(hash) {
          return true;
        }
      }
      if Remembered(log, |buckets|, hash) {
        ghost var j: nat, k: nat :| k < |buckets| && AddedAgo(log, j, hash, k);
        BucketMeaning(log, k, hash);
      }
      return false;
    }

    /** Without a bucket, the code panics. */
    method Add(hash: Digest)
      requires Valid() && buckets != []
      modifies this`log, buckets[pc]
      ensures Valid() && log == old(log) + [Added(hash)]
    {
      buckets[pc].Add(hash);
      log := log + [Added(hash)];
      assert log[..|log| - 1] == old(log);
      assert forall k :: 0 < k < |buckets| ==> Ptr(k) != pc;
    }

    /** Without a bucket, the code panics. */
    method DropOldestBucket()
      requires Valid() && buckets != []
      modifies this
      ensures Valid() && log == old(log) + [Dropped]
      ensures |buckets| == |old(buckets)| && forall b :: b in buckets ==> b in old(buckets) || fresh(b)
    {
      ghost var before, from := buckets, pc;
      var next := pc - 1;
      if next < 0 {
        next := next + |buckets|;
      }
      pc := next;
      var b := new PhcBucket();
      buckets := buckets[pc := b];
      log := log + [Dropped];
      assert log[..|log| - 1] == old(log);
      forall k, h | 0 <= k < |buckets| ensures buckets[Ptr(k)].Has(h) <==> h in BucketOf(log, k) {
        if k > 0 {
          assert buckets[Ptr(k)] == before[old(Ptr(k - 1))];
        }
      }
    }
  }

  //// The window in time

  /** An event and when it happened. */
  datatype Timed = Timed(at: nat, event: Event)

  function Events(log: seq<Timed>): (r: seq<Event>)
    ensures |r| == |log|
  {
    if log == [] then [] else [log[0].event] + Events(log[1..])
  }

  /** The log of an ideal ticker of width `interval`, `now` being the present: before time t, t / interval ticks were taken. */
  predicate Ideal(log: seq<Timed>, interval: nat, now: nat)
    requires interval > 0
  {
    && Drops(Events(log)) == now / interval
    && forall j :: 0 <= j < |log| && log[j].event.Added? ==>
         log[j].at <= now && Drops(Events(log[..j])) == log[j].at / interval
  }

  lemma {:induction false} DropsSplit(a: seq<Event>, b: seq<Event>)
    ensures Drops(a + b) == Drops(a) + Drops(b)
  {
    if a == [] {
      assert a + b == b;
    } else {
      assert (a + b)[1..] == a[1..] + b;
      DropsSplit(a[1..], b);
    }
  }

  lemma {:induction false} EventsAt(log: seq<Timed>, j: nat)
    requires j <= |log|
    ensures Events(log[..j]) == Events(log)[..j]
    ensures j < |log| ==> Events(log)[j] == log[j].event
  {
    if j > 0 {
      EventsAt(log[1..], j - 1);
      assert log[..j][1..] == log[1..][..j - 1];
    }
  }

  /** How many ticks lie between an addition and the present. */
  lemma {:induction false} TicksSince(log: seq<Timed>, interval: nat, now: nat, j: nat)
    requires interval > 0 && Ideal(log, interval, now)
    requires j < |log| && log[j].event.Added?
    ensures Drops(Events(log)[j + 1..]) == now / interval - log[j].at / interval
  {
    var all := Events(log);
    EventsAt(log, j);
    assert all == all[..j] + ([all[j]] + all[j + 1..]);
    DropsSplit(all[..j], [all[j]] + all[j + 1..]);
    DropsSplit([all[j]], all[j + 1..]);
  }

  lemma {:induction false} Quotients(a: nat, b: nat, d: nat, n: nat)
    requires d > 0 && n >= 1 && a <= b
    ensures b - a <= (n - 1) * d ==> b / d - a / d < n
    ensures b - a >= n * d ==> b / d - a / d >= n
  {
    var q, q', r, r' := a / d, b / d, a % d, b % d;
    var k := q' - q;
    MulDistribute(q, k, d);
    MulDistribute(n - 1, 1, d);
    assert b - a == k * d + r' - r;
    if k >= n {
      MulMonotonic(n, k, d);
    } else {
      MulMonotonic(k, n - 1, d);
    }
  }

  /**
    With `n` buckets of width `interval`, a hash is remembered up to the age of n - 1 intervals, and forgotten
    from the age of n intervals on unless it was added again.
   */
  lemma {:induction false} WindowInTime(log: seq<Timed>, interval: nat, now: nat, n: nat, h: Digest)
    requires interval > 0 && n >= 1 && Ideal(log, interval, now)
    ensures (exists j :: 0 <= j < |log| && log[j].event == Added(h) && now - log[j].at <= (n - 1) * interval) ==>
            Remembered(Events(log), n, h)
    ensures (forall j :: 0 <= j < |log| && log[j].event == Added(h) ==> now - log[j].at >= n * interval) ==>
            !Remembered(Events(log), n, h)
  {
    var all := Events(log);
    forall j: nat | j < |log| && log[j].event == Added(h)
      ensures now / interval - log[j].at / interval >= 0
      ensures AddedAgo(all, j, h, now / interval - log[j].at / interval)
      ensures now - log[j].at <= (n - 1) * interval ==> now / interval - log[j].at / interval < n
      ensures now - log[j].at >= n * interval ==> now / interval - log[j].at / interval >= n
    {
      EventsAt(log, j);
      TicksSince(log, interval, now, j);
      Quotients(log[j].at, now, interval, n);
    }
    if Remembered(all, n, h) {
      var j: nat, k: nat :| k < n && AddedAgo(all, j, h, k);
      EventsAt(log, j);
    }
  }

  /** Exactly: by the latest addition of the hash, fewer than `n` tick boundaries lie between it and the present. */
  lemma {:induction false} WindowExact(log: seq<Timed>, interval: nat, now: nat, n: nat, h: Digest, last: nat)
    requires interval > 0 && Ideal(log, interval, now)
    requires last < |log| && log[last].event == Added(h)
    requires forall j :: last < j < |log| ==> log[j].event != Added(h)
    ensures Remembered(Events(log), n, h) <==> now / interval - log[last].at / interval < n
  {
    EventsAt(log, last);
    forall j | last < j < |log| ensures Events(log)[j] != Added(h) {
      EventsAt(log, j);
    }
    TicksSince(log, interval, now, last);
    RememberedByLatest(Events(log), n, h, last);
  }

  /** So the window does not cover n intervals: here one bucket of width 10 forgets at age 1. */
  lemma {:induction false} CoverageFallsShort(h: Digest)
    ensures var log := [Timed(9, Added(h)), Timed(10, Dropped)];
            Ideal(log, 10, 10) && !Remembered(Events(log), 1, h)
  {
    var log := [Timed(9, Added(h)), Timed(10, Dropped)];
    assert log[..0] == [] && log[1..] == [log[1]];
    assert Events(log) == [Added(h), Dropped];
    assert [Added(h), Dropped][1..] == [Dropped] && [Dropped][1..] == [];
    assert Drops([Dropped]) == 1;
    WindowExact(log, 10, 10, 1, h, 0);
  }
}
