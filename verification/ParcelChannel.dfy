/**
  A queue of limited capacity whose senders never wait: when it is full, the
  older half makes room.
 */
module ParcelChannel {

  //// The queue as a value

  /** How many of the oldest entries a send drops. */
  function Overflow(capacity: nat, length: nat): nat
    requires length <= capacity
  {
    if length < capacity || capacity == 0 then 0 else capacity - capacity / 2
  }

  /** The queue after a send. */
  function AfterSend<T>(capacity: nat, queue: seq<T>, parcel: T): seq<T>
    requires |queue| <= capacity
  {
    if capacity == 0 then queue else queue[Overflow(capacity, |queue|)..] + [parcel]
  }

  //// Runs

  datatype Op<T> = Send(parcel: T) | Receive

  /** The queue, and what has left it in either way. */
  datatype State<T> = State(queue: seq<T>, received: seq<T>, dropped: seq<T>)

  /** One operation. Receiving from an empty queue waits, and changes nothing. */
  function After<T>(capacity: nat, s: State<T>, op: Op<T>): (r: State<T>)
    requires |s.queue| <= capacity
    ensures |r.queue| <= capacity
  {
    match op
    case Send(p) =>
      State(AfterSend(capacity, s.queue, p), s.received, s.dropped + s.queue[..Overflow(capacity, |s.queue|)])
    case Receive =>
      if s.queue == [] then s else State(s.queue[1..], s.received + [s.queue[0]], s.dropped)
  }

  function RunFrom<T>(capacity: nat, s: State<T>, ops: seq<Op<T>>): (r: State<T>)
    requires |s.queue| <= capacity
    ensures |r.queue| <= capacity
    decreases |ops|
  {
    if ops == [] then s else RunFrom(capacity, After(capacity, s, ops[0]), ops[1..])
  }

  /** A whole run, from an empty queue. */
  function RunOf<T>(capacity: nat, ops: seq<Op<T>>): State<T> {
    RunFrom(capacity, State([], [], []), ops)
  }

  /** Every parcel sent, in order. */
  function SentIn<T>(ops: seq<Op<T>>): seq<T> {
    if ops == [] then [] else (if ops[0].Send? then [ops[0].parcel] else []) + SentIn(ops[1..])
  }

  lemma {:induction false} RunSnoc<T>(capacity: nat, s: State<T>, ops: seq<Op<T>>, op: Op<T>)
    requires |s.queue| <= capacity
    ensures RunFrom(capacity, s, ops + [op]) == After(capacity, RunFrom(capacity, s, ops), op)
    decreases |ops|
  {
    hide After;
    if ops == [] {
      assert ops + [op] == [op] && [op][1..] == [];
    } else {
      assert (ops + [op])[1..] == ops[1..] + [op];
      RunSnoc(capacity, After(capacity, s, ops[0]), ops[1..], op);
    }
  }

  //// Conservation

  function Tally<T>(s: State<T>): multiset<T> {
    multiset(s.received) + multiset(s.dropped) + multiset(s.queue)
  }

  lemma {:induction false} TallyGrows<T>(capacity: nat, s: State<T>, op: Op<T>)
    requires |s.queue| <= capacity && capacity >= 1
    ensures Tally(After(capacity, s, op)) == Tally(s) + if op.Send? then multiset{op.parcel} else multiset{}
  {
    match op
    case Send(p) =>
      var n := Overflow(capacity, |s.queue|);
      assert s.queue == s.queue[..n] + s.queue[n..];
    case Receive =>
      if s.queue != [] {
        assert s.queue == [s.queue[0]] + s.queue[1..];
      }
  }

  lemma {:induction false} TallyOfRun<T>(capacity: nat, s: State<T>, ops: seq<Op<T>>)
    requires |s.queue| <= capacity && capacity >= 1
    ensures Tally(RunFrom(capacity, s, ops)) == Tally(s) + multiset(SentIn(ops))
    decreases |ops|
  {
    hide Tally, After;
    if ops != [] {
      TallyGrows(capacity, s, ops[0]);
      TallyOfRun(capacity, After(capacity, s, ops[0]), ops[1..]);
    }
  }

  /** In every run, as many of each parcel were sent as were received, dropped or are queued. */
  lemma {:induction false} Conservation<T>(capacity: nat, ops: seq<Op<T>>)
    requires capacity >= 1
    ensures var s := RunOf(capacity, ops);
            multiset(SentIn(ops)) == multiset(s.received) + multiset(s.dropped) + multiset(s.queue)
  {
    TallyOfRun(capacity, State([], [], []), ops);
  }

  //// Order

  /** `a` is `b` with some entries left out. */
  predicate Subsequence<T(==)>(a: seq<T>, b: seq<T>) {
    if a == [] then true
    else if b == [] then false
    else (a[0] == b[0] && Subsequence(a[1..], b[1..])) || Subsequence(a, b[1..])
  }

  lemma {:induction false} SubsequenceTrans<T>(a: seq<T>, b: seq<T>, c: seq<T>)
    requires Subsequence(a, b) && Subsequence(b, c)
    ensures Subsequence(a, c)
    decreases |b| + |c|
  {
    if a != [] {
      if b[0] == c[0] && Subsequence(b[1..], c[1..]) {
        if a[0] == b[0] && Subsequence(a[1..], b[1..]) {
          SubsequenceTrans(a[1..], b[1..], c[1..]);
        } else {
          SubsequenceTrans(a, b[1..], c[1..]);
        }
      } else {
        SubsequenceTrans(a, b, c[1..]);
      }
    }
  }

  lemma {:induction false} SubsequenceSnoc<T>(a: seq<T>, b: seq<T>, x: T)
    requires Subsequence(a, b)
    ensures Subsequence(a + [x], b + [x])
    decreases |b|
  {
    if b == [] {
      assert a + [x] == [x] == b + [x] && [x][1..] == [];
    } else {
      assert (b + [x])[1..] == b[1..] + [x] && (b + [x])[0] == b[0];
      if a != [] && a[0] == b[0] && Subsequence(a[1..], b[1..]) {
        assert (a + [x])[1..] == a[1..] + [x] && (a + [x])[0] == a[0];
        SubsequenceSnoc(a[1..], b[1..], x);
      } else {
        SubsequenceSnoc(a, b[1..], x);
      }
    }
  }

  /** Leaving out `n` entries after `a`. */
  lemma {:induction false} SubsequenceCut<T>(a: seq<T>, b: seq<T>, n: nat)
    requires n <= |b|
    ensures Subsequence(a + b[n..], a + b)
  {
    if a != [] {
      assert (a + b)[1..] == a[1..] + b && (a + b[n..])[1..] == a[1..] + b[n..];
      SubsequenceCut(a[1..], b, n);
    } else {
      assert a + b == b && a + b[n..] == b[n..];
      SubsequenceTail(b, n);
    }
  }

  lemma {:induction false} SubsequenceTail<T>(b: seq<T>, n: nat)
    requires n <= |b|
    ensures Subsequence(b[n..], b)
  {
    if n == 0 {
      assert b[0..] == b;
      SubsequenceSelf(b);
    } else {
      assert b[1..][n - 1..] == b[n..];
      SubsequenceTail(b[1..], n - 1);
    }
  }

  lemma {:induction false} SubsequenceSelf<T>(a: seq<T>)
    ensures Subsequence(a, a)
  {
    if a != [] {
      SubsequenceSelf(a[1..]);
    }
  }

  /** One operation keeps what was received, and what is queued behind it, in the order of sending. */
  lemma {:induction false} OrderKept<T>(capacity: nat, s: State<T>, op: Op<T>, sent: seq<T>)
    requires |s.queue| <= capacity && Subsequence(s.received + s.queue, sent)
    requires capacity >= 1
    ensures var r := After(capacity, s, op);
            Subsequence(r.received + r.queue, sent + if op.Send? then [op.parcel] else [])
  {
    hide Subsequence;
    match op
    case Send(p) =>
      var n := Overflow(capacity, |s.queue|);
      SubsequenceCut(s.received, s.queue, n);
      SubsequenceTrans(s.received + s.queue[n..], s.received + s.queue, sent);
      SubsequenceSnoc(s.received + s.queue[n..], sent, p);
      assert s.received + (s.queue[n..] + [p]) == s.received + s.queue[n..] + [p];
    case Receive =>
      assert sent + [] == sent;
      if s.queue != [] {
        assert s.received + [s.queue[0]] + s.queue[1..] == s.received + s.queue;
      }
  }

  lemma {:induction false} OrderOfRun<T>(capacity: nat, s: State<T>, ops: seq<Op<T>>, sent: seq<T>)
    requires |s.queue| <= capacity && capacity >= 1 && Subsequence(s.received + s.queue, sent)
    ensures var r := RunFrom(capacity, s, ops); Subsequence(r.received + r.queue, sent + SentIn(ops))
    decreases |ops|
  {
    hide Subsequence, After;
    if ops == [] {
      assert sent + [] == sent;
    } else {
      var first := if ops[0].Send? then [ops[0].parcel] else [];
      OrderKept(capacity, s, ops[0], sent);
      OrderOfRun(capacity, After(capacity, s, ops[0]), ops[1..], sent + first);
      assert sent + first + SentIn(ops[1..]) == sent + SentIn(ops);
    }
  }

  /** In every run, what was received, followed by what is queued, is what was sent with some parcels left out. */
  lemma {:induction false} DeliveredInOrder<T>(capacity: nat, ops: seq<Op<T>>)
    requires capacity >= 1
    ensures var s := RunOf(capacity, ops); Subsequence(s.received + s.queue, SentIn(ops))
  {
    OrderOfRun(capacity, State([], [], []), ops, []);
    assert [] + SentIn(ops) == SentIn(ops);
  }

  //// Room

  lemma {:induction false} RoomSuffices<T>(capacity: nat, s: State<T>, ops: seq<Op<T>>)
    requires |s.queue| + |SentIn(ops)| <= capacity
    ensures RunFrom(capacity, s, ops).dropped == s.dropped
    decreases |ops|
  {
    if ops != [] {
      RoomSuffices(capacity, After(capacity, s, ops[0]), ops[1..]);
    }
  }

  /**
    An overflow drops the capacity - capacity / 2 oldest parcels, and then nothing is dropped during the next
    capacity - capacity / 2 - 1 sends.
   */
  lemma {:induction false} RoomAfterOverflow<T>(capacity: nat, s: State<T>, parcel: T, ops: seq<Op<T>>)
    requires |s.queue| == capacity >= 1
    ensures After(capacity, s, Send(parcel)).dropped == s.dropped + s.queue[..capacity - capacity / 2]
    ensures |SentIn(ops)| <= capacity - capacity / 2 - 1 ==>
              RunFrom(capacity, After(capacity, s, Send(parcel)), ops).dropped == After(capacity, s, Send(parcel)).dropped
  {
    if |SentIn(ops)| <= capacity - capacity / 2 - 1 {
      RoomSuffices(capacity, After(capacity, s, Send(parcel)), ops);
    }
  }

  //// The code

  class ParcelChannel<T> {
    const capacity: nat
    var queue: seq<T>
    /** Everything that was done to the channel. */
    ghost var ops: seq<Op<T>>

    ghost predicate Valid()
      reads this
    {
      |queue| <= capacity && queue == RunOf(capacity, ops).queue
    }

    constructor (capacity: nat)
      ensures Valid() && this.capacity == capacity && queue == [] && ops == []
    {
      this.capacity, queue, ops := capacity, [], [];
    }

    /** `Send`, with no receiver waiting. Unless the capacity is zero the parcel gets in, and the oldest make room. */
    method Send(parcel: T) returns (ok: bool, dropped: nat)
      requires Valid()
      modifies this
      ensures Valid() && ops == old(ops) + [Op.Send(parcel)]
      ensures ok == (capacity > 0) && dropped == Overflow(capacity, |old(queue)|)
      ensures queue == AfterSend(capacity, old(queue), parcel)
      ensures RunOf(capacity, ops).dropped == RunOf(capacity, old(ops)).dropped + old(queue)[..dropped]
    {
      hide RunFrom;
      RunSnoc(capacity, State([], [], []), ops, Op.Send(parcel));
      ghost var before := queue;
      assert before[0..] == before;
      ops := ops + [Op.Send(parcel)];
      dropped := 0;
      if |queue| < capacity {
        queue := queue + [parcel];
        return true, 0;
      }
      while |queue| > capacity / 2
        invariant ops == old(ops) + [Op.Send(parcel)]
        invariant dropped <= |before| && queue == before[dropped..] && capacity / 2 <= |queue|
        decreases |queue|
      {
        queue, dropped := queue[1..], dropped + 1;
      }
      ok := |queue| < capacity;
      if ok {
        queue := queue + [parcel];
      }
    }

    /** `<-pc`: the oldest entry. */
    method Receive() returns (parcel: T)
      requires Valid() && queue != []
      modifies this
      ensures Valid() && ops == old(ops) + [Op.Receive]
      ensures [parcel] + queue == old(queue)
      ensures RunOf(capacity, ops).received == RunOf(capacity, old(ops)).received + [parcel]
    {
      hide RunFrom;
      RunSnoc(capacity, State([], [], []), ops, Op.Receive);
      parcel := queue[0];
      queue, ops := queue[1..], ops + [Op.Receive];
    }
  }
}
