/**
  The listener's rate limit: at most one connection per host within `limit`.
  Time is the clock's reading in nanoseconds.
 */
module Limiter {
  import opened Words

  datatype Attempt = Attempt(host: bytes, time: int)

  /** `host` was accepted less than `limit` before `now`. */
  ghost predicate Recent(log: seq<Attempt>, host: bytes, now: int, limit: nat) {
    exists j :: 0 <= j < |log| && log[j].host == host && now - log[j].time < limit
  }

  /** Any two accepted connections of one host are at least `limit` apart. */
  ghost predicate Spaced(log: seq<Attempt>, limit: nat) {
    forall i, j :: 0 <= i < j < |log| && log[i].host == log[j].host ==> log[j].time - log[i].time >= limit
  }

  ghost predicate Sorted(log: seq<Attempt>) {
    forall i, j :: 0 <= i < j < |log| ==> log[i].time <= log[j].time
  }

  /** `last` was read after every entry was recorded. */
  ghost predicate Stamped(log: seq<Attempt>, last: Option<int>, clock: int) {
    log != [] ==> last.Some? && last.value <= clock && forall j :: 0 <= j < |log| ==> log[j].time <= last.value
  }

  /** `history` is the log without some entries at the front, all of them no later than `cutoff`. */
  ghost predicate Kept(log: seq<Attempt>, history: seq<Attempt>, cutoff: int) {
    && |history| <= |log| && history == log[|log| - |history|..]
    && forall j :: 0 <= j < |log| - |history| ==> log[j].time <= cutoff
  }

  /** Every entry is later than `cutoff`. */
  ghost predicate Fresh(history: seq<Attempt>, cutoff: int) {
    forall j :: 0 <= j < |history| ==> history[j].time > cutoff
  }

  /** Entries no later than the cutoff may be cut off the front of the history. */
  lemma {:induction false} Prune(log: seq<Attempt>, history: seq<Attempt>, before: int, cutoff: int, i: nat)
    requires Kept(log, history, before) && before <= cutoff && Sorted(log)
    requires i <= |history| && forall k :: 0 <= k < i ==> history[k].time <= cutoff
    ensures Kept(log, history[i..], cutoff)
    ensures i == |history| || history[i].time > cutoff ==> Fresh(history[i..], cutoff)
  {
    var n := |log| - |history|;
    forall j | 0 <= j < n + i ensures log[j].time <= cutoff {
      if j >= n {
        assert log[j] == history[j - n];
      }
    }
    assert forall k :: 0 <= k < |history| ==> history[k] == log[n + k];
  }

  /** A pruned history answers as the full log does. */
  lemma {:induction false} PruningAgrees(log: seq<Attempt>, history: seq<Attempt>, host: bytes, now: int, limit: nat)
    requires Kept(log, history, now - limit) && Fresh(history, now - limit)
    ensures Recent(log, host, now, limit) <==> exists k :: 0 <= k < |history| && history[k].host == host
  {
    var n := |log| - |history|;
    if j :| 0 <= j < |log| && log[j].host == host && now - log[j].time < limit {
      assert history[j - n] == log[j];
    }
    if k :| 0 <= k < |history| && history[k].host == host {
      assert log[n + k] == history[k];
    }
  }

  lemma {:induction false} HistoryWithin(log: seq<Attempt>, history: seq<Attempt>, cutoff: int, last: Option<int>, clock: int)
    requires Kept(log, history, cutoff) && Stamped(log, last, clock)
    ensures history != [] ==> last.Some? && forall k :: 0 <= k < |history| ==> history[k].time <= last.value
  {
    assert forall k :: 0 <= k < |history| ==> history[k] == log[|log| - |history| + k];
  }

  lemma {:induction false} KeptLonger(log: seq<Attempt>, history: seq<Attempt>, entry: Attempt, before: int, cutoff: int)
    requires Kept(log, history, before) && before <= cutoff
    ensures Kept(log + [entry], history + [entry], cutoff)
  {
    var n := |log| - |history|;
    assert (log + [entry])[n..] == log[n..] + [entry];
  }

  lemma {:induction false} SpacedLonger(log: seq<Attempt>, entry: Attempt, limit: nat)
    requires Spaced(log, limit)
    requires forall j :: 0 <= j < |log| && log[j].host == entry.host ==> entry.time - log[j].time >= limit
    ensures Spaced(log + [entry], limit)
  {
  }

  lemma {:induction false} SortedLonger(log: seq<Attempt>, entry: Attempt, now: int)
    requires Sorted(log) && entry.time <= now && forall j :: 0 <= j < |log| ==> log[j].time <= entry.time
    ensures Sorted(log + [entry]) && Stamped(log + [entry], Some(now), now)
  {
  }

  /** Recording one more connection of a host that was not there recently. */
  lemma {:induction false} Recorded(log: seq<Attempt>, history: seq<Attempt>, last: Option<int>, clock: int, limit: nat,
                                    host: bytes, t1: int, t2: int)
    requires Kept(log, history, clock - limit) && Sorted(log) && Stamped(log, last, clock) && Spaced(log, limit)
    requires clock <= t1 <= t2 && !Recent(log, host, clock, limit)
    ensures var log', history' := log + [Attempt(host, t1)], history + [Attempt(host, t1)];
            && Kept(log', history', t2 - limit) && Sorted(log')
            && Stamped(log', Some(t2), t2) && Spaced(log', limit)
  {
    hide Kept, Spaced, Sorted;
    var entry := Attempt(host, t1);
    KeptLonger(log, history, entry, clock - limit, t2 - limit);
    assert forall j :: 0 <= j < |log| && log[j].host == host ==> clock - log[j].time >= limit;
    SpacedLonger(log, entry, limit);
    SortedLonger(log, entry, t2);
  }

  class LimitedListener {
    const limit: nat
    /** `None` is Go's zero time, which is before any reading of the clock less any limit. */
    var lastConnection: Option<int>
    var history: seq<Attempt>
    /** Every accepted connection, never pruned, and the last reading of the clock. */
    ghost var log: seq<Attempt>
    ghost var clock: int

    ghost predicate Valid()
      reads this
    {
      && Kept(log, history, clock - limit)
      && Sorted(log)
      && Stamped(log, lastConnection, clock)
      && Spaced(log, limit)
    }

    constructor (limit: nat, ghost now: int)
      ensures Valid() && this.limit == limit && log == [] && clock == now
    {
      this.limit, lastConnection, history := limit, None, [];
      log, clock := [], now;
    }

    /** `NewLimitedListener`: a negative limit is refused; `listens` is whether the address can be listened to. */
    static method New(limit: int, listens: bool, ghost now: int) returns (r: LimitedListener?)
      ensures r == null <==> limit < 0 || !listens
      ensures r != null ==> fresh(r) && r.Valid() && r.limit == limit && r.log == [] && r.clock == now
    {
      if limit < 0 {
        return null;
      }
      if !listens {
        return null;
      }
      r := new LimitedListener(limit, now);
    }

    method ClearHistory(now: int)
      requires Valid() && clock <= now
      modifies this`history, this`clock
      ensures Valid() && clock == now
      ensures Fresh(history, now - limit)
    {
      hide Kept, Fresh, Sorted, Spaced;
      HistoryWithin(log, history, clock - limit, lastConnection, clock);
      var tl := now - limit;
      ghost var before := history;
      if lastConnection.None? || lastConnection.value < tl {
        history := [];
      }
      ghost var i := |before|;
      if |history| > 0 {
        i := 0;
        var n := 0;
        while n < |history| && history[n].time <= tl
          invariant 0 <= n <= |history|
          invariant forall k :: 0 <= k < n ==> history[k].time <= tl
        {
          n := n + 1;
        }
        i := n;
        if n >= |history| {
          history := [];
        } else {
          history := history[n..];
        }
      }
      assert history == before[i..];
      Prune(log, before, clock - limit, tl, i);
      clock := now;
    }

    /** The pruned history answers as the full log does. */
    method IsInHistory(host: bytes, now: int) returns (found: bool)
      requires Valid() && clock <= now
      modifies this`history, this`clock
      ensures Valid() && clock == now
      ensures found <==> Recent(log, host, now, limit)
    {
      hide Recent, Kept, Fresh, Sorted, Spaced, Stamped;
      ClearHistory(now);
      PruningAgrees(log, history, host, now, limit);
      for i := 0 to |history|
        invariant forall k :: 0 <= k < i ==> history[k].host != host
      {
        if history[i].host == host {
          return true;
        }
      }
      return false;
    }

    method AddToHistory(host: bytes, t1: int, t2: int)
      requires Valid() && clock <= t1 <= t2 && !Recent(log, host, clock, limit)
      modifies this
      ensures Valid() && clock == t2 && log == old(log) + [Attempt(host, t1)]
    {
      hide Kept, Sorted, Spaced, Stamped, Recent;
      Recorded(log, history, lastConnection, clock, limit, host, t1, t2);
      history := history + [Attempt(host, t1)];
      lastConnection := Some(t2);
      log := log + [Attempt(host, t1)];
      clock := t2;
    }

    /**
      `Accept` of a connection from `host`; the clock reads t0 for the check, t1 and t2 for the record.
      It is let in exactly if the host was not accepted less than `limit` before.
     */
    method Accept(host: bytes, t0: int, t1: int, t2: int) returns (ok: bool)
      requires Valid() && clock <= t0 <= t1 <= t2
      modifies this
      ensures Valid() && clock <= t2
      ensures ok <==> !Recent(old(log), host, t0, limit)
      ensures log == if ok then old(log) + [Attempt(host, t1)] else old(log)
    {
      var found := IsInHistory(host, t0);
      if found {
        return false;
      }
      AddToHistory(host, t1, t2);
      return true;
    }
  }
}
