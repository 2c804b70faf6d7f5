/**
  One connection: what arrives on it, what is sent to it, and how it ends.
 */
module Peers {
  import opened Words
  import opened Records
  import opened Network
  import opened ProtocolV11
  import opened PeerHashCache
  import opened ParcelChannel

  /** A notification of a peer's start or end. */
  datatype PeerStatus = PeerStatus(peer: Peer, online: bool)

  /** The controller's queue of notifications. */
  class StatusChannel {
    var queue: seq<PeerStatus>

    constructor ()
      ensures queue == []
    {
      queue := [];
    }
  }

  class Peer {
    const hash: bytes
    const endpoint: Endpoint
    const isIncoming: bool
    /** Null when the resend filter is off. */
    const resend: PeerHashCache?
    const send: ParcelChannel<Parcel>
    var stopped: bool
    var dropped: nat

    constructor (hash: bytes, endpoint: Endpoint, isIncoming: bool, resend: PeerHashCache?, send: ParcelChannel<Parcel>)
      ensures this.hash == hash && this.endpoint == endpoint && this.isIncoming == isIncoming
      ensures this.resend == resend && this.send == send && !stopped && dropped == 0
    {
      this.hash, this.endpoint, this.isIncoming, this.resend, this.send := hash, endpoint, isIncoming, resend, send;
      stopped, dropped := false, 0;
    }

    /** The first call notifies the controller; later calls do nothing. */
    method Stop(status: StatusChannel)
      modifies this`stopped, status
      ensures stopped
      ensures status.queue == old(status.queue) + if old(stopped) then [] else [PeerStatus(this, false)]
    {
      if !stopped {
        stopped := true;
        status.queue := status.queue + [PeerStatus(this, false)];
      }
    }

    /** Nothing is sent once the peer is stopped; what no longer fits is counted. */
    method Send(parcel: Parcel)
      requires send.Valid()
      modifies this`dropped, send
      ensures send.Valid()
      ensures send.queue == if stopped then old(send.queue) else AfterSend(send.capacity, old(send.queue), parcel)
      ensures dropped == old(dropped) + if stopped then 0 else Overflow(send.capacity, |old(send.queue)|)
    {
      if !stopped {
        var _, n := send.Send(parcel);
        dropped := dropped + n;
      }
    }

    /**
      The loop that reads parcels until the connection fails or an invalid one arrives. While it waits for parcel i,
      `ticks(i)` buckets of the window are dropped. The hash of an application message is remembered before the message
      is delivered.
     */
    method ReadLoop(prot: ProtocolV11, sha1: bytes -> Digest, ticks: nat -> nat) returns (delivered: seq<Parcel>)
      requires resend != null ==> resend.Valid() && resend.buckets != []
      modifies prot.reader`buffer, prot.reader.conn`chunks
      modifies if resend == null then {} else resend.Repr()
      ensures delivered == ParcelsOf(old(prot.reader.Pending()))
      ensures resend != null ==>
                && resend.Valid() && |resend.buckets| == |old(resend.buckets)|
                && resend.log == old(resend.log) + Window(delivered, ticks, sha1) + Ticks(ticks(|delivered|))
    {
      hide TakeParcel, Window, DigestOf, Ticks, ParcelsOf, Flatten, Remembered, BucketOf, ParcelAtFront;
      delivered := [];
      ghost var all := ParcelsOf(prot.reader.Pending());
      ghost var log := if resend == null then [] else resend.log;
      NothingSeen(log, ticks, sha1);
      while true
        invariant all == delivered + ParcelsOf(prot.reader.Pending())
        invariant resend != null ==>
                    && resend.Valid() && resend.log == log + Window(delivered, ticks, sha1) && |resend.buckets| == |old(resend.buckets)|
                    && forall b :: b in resend.buckets ==> b in old(resend.buckets) || fresh(b)
        decreases |prot.reader.Pending()|
      {
        NextDelivered(prot.reader.Pending());
        var msg := prot.Receive();
        Elapse(ticks(|delivered|));
        if msg.Err? {
          return;
        }
        if !msg.value.Valid() {
          return;
        }
        Remember(msg.value, sha1);
        LogSnoc(log, delivered, msg.value, ticks, sha1);
        delivered := delivered + [msg.value];
      }
    }

    /** The window's cleanup, `n` times. */
    method Elapse(n: nat)
      requires resend != null ==> resend.Valid() && resend.buckets != []
      modifies if resend == null then {} else {resend as object}
      ensures resend != null ==>
                && resend.Valid() && resend.log == old(resend.log) + Ticks(n)
                && |resend.buckets| == |old(resend.buckets)|
                && forall b :: b in resend.buckets ==> b in old(resend.buckets) || fresh(b)
    {
      if resend != null {
        for i := 0 to n
          invariant resend.Valid() && resend.log == old(resend.log) + Ticks(i)
          invariant |resend.buckets| == |old(resend.buckets)|
          invariant forall b :: b in resend.buckets ==> b in old(resend.buckets) || fresh(b)
        {
          resend.DropOldestBucket();
          assert Ticks(i + 1) == Ticks(i) + [Dropped];
        }
      }
    }

    /** `resend.Add`, for application messages, when there is a filter. */
    method Remember(msg: Parcel, sha1: bytes -> Digest)
      requires resend != null ==> resend.Valid() && resend.buckets != []
      modifies if resend == null then {} else resend.Repr()
      ensures resend != null ==> resend.Valid() && resend.log == old(resend.log) + DigestOf(msg, sha1)
      ensures resend != null ==>
                resend.log == old(resend.log)
                  + if msg.parcelType == 6 || msg.parcelType == 7 then [Added(sha1(msg.payload))] else []
      ensures resend != null ==> resend.buckets == old(resend.buckets)
    {
      if resend != null && msg.IsApplicationMessage() {
        resend.Add(sha1(msg.payload));
      }
    }
  }

  /** The parcels read from a stream before it fails or an invalid one arrives. */
  function ParcelsOf(s: bytes): seq<Parcel>
    decreases |s|
  {
    match TakeParcel(s)
    case Err(_) => []
    case Ok(Taken(p, rest)) => if p.Valid() then [p] + ParcelsOf(rest) else []
  }

  lemma {:induction false} NextDelivered(s: bytes)
    ensures ParcelsOf(s) ==
            match TakeParcel(s)
            case Err(_) => []
            case Ok(Taken(p, rest)) => if p.Valid() then [p] + ParcelsOf(rest) else []
  {
  }

  function Ticks(n: nat): seq<Event> {
    seq(n, i => Dropped)
  }

  /** What happens to the window until all of `ps` are delivered, the last of them just so. */
  function Window(ps: seq<Parcel>, ticks: nat -> nat, sha1: bytes -> Digest): seq<Event>
    decreases |ps|
  {
    if ps == [] then []
    else
      var k := |ps| - 1;
      Window(ps[..k], ticks, sha1) + Ticks(ticks(k)) + DigestOf(ps[k], sha1)
  }

  function DigestOf(p: Parcel, sha1: bytes -> Digest): seq<Event> {
    if p.IsApplicationMessage() then [Added(sha1(p.payload))] else []
  }

  lemma {:induction false} NothingSeen(log: seq<Event>, ticks: nat -> nat, sha1: bytes -> Digest)
    ensures Window([], ticks, sha1) == [] && log + [] == log
  {
  }

  lemma {:induction false} WindowSnoc(ps: seq<Parcel>, p: Parcel, ticks: nat -> nat, sha1: bytes -> Digest)
    ensures Window(ps + [p], ticks, sha1) == Window(ps, ticks, sha1) + Ticks(ticks(|ps|)) + DigestOf(p, sha1)
  {
    hide DigestOf, Ticks;
    assert (ps + [p])[..|ps|] == ps;
  }

  lemma {:induction false} LogSnoc(log: seq<Event>, ps: seq<Parcel>, p: Parcel, ticks: nat -> nat, sha1: bytes -> Digest)
    ensures log + Window(ps + [p], ticks, sha1) == log + Window(ps, ticks, sha1) + Ticks(ticks(|ps|)) + DigestOf(p, sha1)
  {
    hide DigestOf, Ticks, Window;
    WindowSnoc(ps, p, ticks, sha1);
    Associate(log, Window(ps, ticks, sha1), Ticks(ticks(|ps|)));
    Associate(log, Window(ps, ticks, sha1) + Ticks(ticks(|ps|)), DigestOf(p, sha1));
  }

  /** A stream of valid parcels is delivered whole and in order, whatever incomplete bytes follow. */
  lemma {:induction false} StreamDelivered(ps: seq<Parcel>, tail: bytes)
    requires forall p :: p in ps ==> FitsParcel(p) && p.Valid()
    requires TakeParcel(tail).Err?
    ensures ParcelsOf(StreamBytes(ps) + tail) == ps
  {
    hide TakeParcel, ParcelBytes, FitsParcel;
    if ps == [] {
      assert StreamBytes(ps) + tail == tail;
    } else {
      var rest := StreamBytes(ps[1..]) + tail;
      assert StreamBytes(ps) + tail == ParcelBytes(ps[0]) + rest;
      ParcelTaken(ps[0], rest);
      StreamDelivered(ps[1..], tail);
      assert [ps[0]] + ps[1..] == ps;
    }
  }

  /** A parcel without a payload, or of a type that is not known, ends the connection, whatever follows. */
  lemma {:induction false} InvalidEnds(p: Parcel, tail: bytes)
    requires FitsParcel(p) && (p.payload == [] || p.parcelType > 9)
    ensures ParcelsOf(ParcelBytes(p) + tail) == []
  {
    hide TakeParcel, ParcelBytes, FitsParcel;
    ParcelTaken(p, tail);
  }

  /** How many buckets are dropped while parcels i, ..., j - 1 are waited for. */
  function TicksBetween(ticks: nat -> nat, i: nat, j: nat): nat
    requires i <= j
    decreases j
  {
    if i == j then 0 else TicksBetween(ticks, i, j - 1) + ticks(j - 1)
  }

  /**
    A message that is delivered is in the window at that moment, and if it is not added again it stays there exactly
    until `n` buckets have been dropped, whatever else happens.
   */
  lemma {:induction false} DeliveredIsRemembered(log: seq<Event>, ps: seq<Parcel>, k: nat, ticks: nat -> nat, sha1: bytes -> Digest,
                                                 n: nat, later: seq<Event>)
    requires k < |ps| && ps[k].IsApplicationMessage()
    ensures var now := log + Window(ps[..k + 1], ticks, sha1);
            && (n >= 1 ==> Remembered(now, n, sha1(ps[k].payload)))
            && (Drops(later) < n ==> Remembered(now + later, n, sha1(ps[k].payload)))
            && (Added(sha1(ps[k].payload)) !in later && Drops(later) >= n ==> !Remembered(now + later, n, sha1(ps[k].payload)))
  {
    hide Window, Ticks, Remembered, Drops;
    var h := sha1(ps[k].payload);
    assert ps[..k + 1] == ps[..k] + [ps[k]];
    WindowSnoc(ps[..k], ps[k], ticks, sha1);
    var before := log + (Window(ps[..k], ticks, sha1) + Ticks(ticks(k)));
    Associate(log, Window(ps[..k], ticks, sha1) + Ticks(ticks(k)), [Added(h)]);
    AddedLast(before, h, n, later);
    AddedLast(before, h, n, []);
    assert before + [Added(h)] + [] == before + [Added(h)];
  }

  lemma {:induction false} AddedLast(before: seq<Event>, h: Digest, n: nat, later: seq<Event>)
    ensures Drops(later) < n ==> Remembered(before + [Added(h)] + later, n, h)
    ensures Added(h) !in later && Drops(later) >= n ==> !Remembered(before + [Added(h)] + later, n, h)
    ensures Drops([]) == 0
  {
    hide Drops;
    NoDrops();
    var all := before + [Added(h)] + later;
    assert all[|before|] == Added(h) && all[|before| + 1..] == later;
    if Drops(later) < n {
      assert AddedAgo(all, |before|, h, Drops(later));
    } else if Added(h) !in later {
      forall j | |before| < j < |all| ensures all[j] != Added(h) {
        assert all[j] == later[j - |before| - 1];
      }
      RememberedByLatest(all, n, h, |before|);
    }
  }

  lemma {:induction false} NoDrops()
    ensures Drops([]) == 0
  {
  }

  /** Of the drops after a delivery, those up to the latest delivery are the ticks between the two. */
  lemma {:induction false} WindowFrom(ps: seq<Parcel>, k: nat, ticks: nat -> nat, sha1: bytes -> Digest) returns (later: seq<Event>)
    requires k <= |ps|
    ensures Window(ps, ticks, sha1) == Window(ps[..k], ticks, sha1) + later
    ensures Drops(later) == TicksBetween(ticks, k, |ps|)
    decreases |ps|
  {
    hide Ticks, DigestOf, Drops;
    if k == |ps| {
      later := [];
      assert ps[..k] == ps;
      NoDrops();
    } else {
      var m := |ps| - 1;
      var first := WindowFrom(ps[..m], k, ticks, sha1);
      assert ps[..m][..k] == ps[..k];
      var last := Ticks(ticks(m)) + DigestOf(ps[m], sha1);
      later := first + last;
      Associate(Window(ps[..k], ticks, sha1), first, last);
      Associate(Window(ps[..m], ticks, sha1), Ticks(ticks(m)), DigestOf(ps[m], sha1));
      DropsSplit(first, last);
      DropsSplit(Ticks(ticks(m)), DigestOf(ps[m], sha1));
      DropsOf(ticks(m), ps[m], sha1);
    }
  }

  lemma {:induction false} DropsOf(n: nat, p: Parcel, sha1: bytes -> Digest)
    ensures Drops(Ticks(n)) == n && Drops(DigestOf(p, sha1)) == 0
  {
    if n > 0 {
      assert Ticks(n)[1..] == Ticks(n - 1);
      DropsOf(n - 1, p, sha1);
    }
  }

  /** When the loop ends, a message is in the window unless `n` buckets have been dropped since its delivery. */
  lemma {:induction false} RememberedAtEnd(log: seq<Event>, ps: seq<Parcel>, k: nat, ticks: nat -> nat, sha1: bytes -> Digest, n: nat)
    requires k < |ps| && ps[k].IsApplicationMessage()
    requires TicksBetween(ticks, k + 1, |ps| + 1) < n
    ensures Remembered(log + Window(ps, ticks, sha1) + Ticks(ticks(|ps|)), n, sha1(ps[k].payload))
  {
    hide Window, Ticks, Remembered, Drops;
    var first := WindowFrom(ps, k + 1, ticks, sha1);
    var last := Ticks(ticks(|ps|));
    DropsSplit(first, last);
    DropsOf(ticks(|ps|), ps[k], sha1);
    DeliveredIsRemembered(log, ps, k, ticks, sha1, n, first + last);
    var start := Window(ps[..k + 1], ticks, sha1);
    Associate(log, start, first);
    Associate(log + start, first, last);
  }
}
