/**
  The peers of a node, by hash, with redundant counts and a listing that is
  rebuilt only when somebody asks for it.
 */
module PeerStore {
  import opened Words
  import opened Network
  import opened Peers

  //// What the redundant fields should hold

  type Table = map<bytes, Peer>

  /** The hashes of the peers with a property. */
  function Where(peers: Table, property: Peer -> bool): set<bytes> {
    set h | h in peers && property(peers[h])
  }

  function HasIP(k: bytes): Peer -> bool {
    (p: Peer) => p.endpoint.ip == k
  }

  function HasAddress(k: bytes): Peer -> bool {
    (p: Peer) => p.endpoint.String() == k
  }

  function Comes(incoming: bool): Peer -> bool {
    (p: Peer) => p.isIncoming == incoming
  }

  /** How many peers have the IP `k`, and how many the `ip:port` `k`. */
  function CountOf(peers: Table, k: bytes): nat {
    |Where(peers, HasIP(k))| + |Where(peers, HasAddress(k))|
  }

  /** `r` is a permutation of the stored peers. */
  ghost predicate Listing(r: seq<Peer>, peers: Table) {
    && |r| == |peers|
    && (forall i, j :: 0 <= i < j < |r| ==> r[i] != r[j])
    && (forall p :: p in r ==> p.hash in peers && peers[p.hash] == p)
    && (forall h :: h in peers ==> peers[h] in r)
  }

  /** Go's `m[k]` on a map of counts. */
  function Lookup(counts: map<bytes, int>, k: bytes): int {
    if k in counts then counts[k] else 0
  }

  /** Keyed by hash. */
  ghost predicate Keyed(peers: Table) {
    forall h :: h in peers ==> peers[h].hash == h
  }

  ghost predicate Counted(connected: map<bytes, int>, peers: Table) {
    && (forall k :: Lookup(connected, k) == CountOf(peers, k))
    && (forall k :: k in connected ==> connected[k] > 0)
  }

  lemma {:induction false} WhereAdded(peers: Table, p: Peer, property: Peer -> bool)
    requires p.hash !in peers
    ensures |Where(peers[p.hash := p], property)| == |Where(peers, property)| + if property(p) then 1 else 0
  {
    var before, after := Where(peers, property), Where(peers[p.hash := p], property);
    forall h ensures h in after <==> h in before || (h == p.hash && property(p)) {
    }
    if property(p) {
      assert after == before + {p.hash};
    } else {
      assert after == before;
    }
  }

  lemma {:induction false} WhereRemoved(peers: Table, p: Peer, property: Peer -> bool)
    requires p.hash in peers && peers[p.hash] == p
    ensures |Where(peers - {p.hash}, property)| == |Where(peers, property)| - if property(p) then 1 else 0
  {
    var before, after := Where(peers, property), Where(peers - {p.hash}, property);
    forall h ensures h in before <==> h in after || (h == p.hash && property(p)) {
    }
    if property(p) {
      assert before == after + {p.hash};
    } else {
      assert before == after;
    }
  }

  /** `counts[k]++` */
  function Increment(counts: map<bytes, int>, k: bytes): map<bytes, int> {
    counts[k := Lookup(counts, k) + 1]
  }

  /** `counts[k]--`, and the entry goes when it reaches zero. */
  function Decrement(counts: map<bytes, int>, k: bytes): map<bytes, int> {
    if Lookup(counts, k) - 1 == 0 then counts - {k} else counts[k := Lookup(counts, k) - 1]
  }

  lemma {:induction false} CountedAdd(connected: map<bytes, int>, peers: Table, p: Peer)
    requires Counted(connected, peers) && p.hash !in peers
    ensures Counted(Increment(Increment(connected, p.endpoint.ip), p.endpoint.String()), peers[p.hash := p])
  {
    var after := Increment(Increment(connected, p.endpoint.ip), p.endpoint.String());
    forall k ensures Lookup(after, k) == CountOf(peers[p.hash := p], k) {
      WhereAdded(peers, p, HasIP(k));
      WhereAdded(peers, p, HasAddress(k));
      assert Lookup(connected, k) == CountOf(peers, k);
    }
  }

  lemma {:induction false} CountedRemove(connected: map<bytes, int>, peers: Table, p: Peer)
    requires Counted(connected, peers) && p.hash in peers && peers[p.hash] == p
    ensures Counted(Decrement(Decrement(connected, p.endpoint.ip), p.endpoint.String()), peers - {p.hash})
  {
    var ip, address := p.endpoint.ip, p.endpoint.String();
    var after := Decrement(Decrement(connected, ip), address);
    assert |ip| < |address|;
    WhereRemoved(peers, p, HasIP(ip));
    WhereRemoved(peers, p, HasAddress(address));
    assert Lookup(connected, ip) == CountOf(peers, ip) && Lookup(connected, address) == CountOf(peers, address);
    forall k ensures Lookup(after, k) == CountOf(peers - {p.hash}, k) {
      WhereRemoved(peers, p, HasIP(k));
      WhereRemoved(peers, p, HasAddress(k));
      assert Lookup(connected, k) == CountOf(peers, k);
    }
  }

  /** No port has a colon, and no IP is the text of this endpoint: what a listening node and resolved IPs give. */
  ghost predicate PlainAt(peers: Table, ep: Endpoint) {
    && 0x3a !in ep.port
    && forall h :: h in peers ==> 0x3a !in peers[h].endpoint.port && peers[h].endpoint.ip != ep.ip + [0x3a] + ep.port
  }

  lemma {:induction false} PlainDecides(peers: Table, ep: Endpoint)
    requires PlainAt(peers, ep)
    ensures forall h :: h in peers ==>
              && peers[h].endpoint.ip != ep.String()
              && (peers[h].endpoint.String() == ep.String() <==>
                    peers[h].endpoint.ip == ep.ip && peers[h].endpoint.port == ep.port)
  {
    forall h | h in peers
      ensures peers[h].endpoint.String() == ep.String() <==>
              peers[h].endpoint.ip == ep.ip && peers[h].endpoint.port == ep.port
    {
      TextDecides(peers[h].endpoint, ep);
    }
  }

  /** What is counted under a key, without and with a colon in it. */
  lemma {:induction false} CountMeans(peers: Table, k: bytes)
    ensures CountOf(peers, k) == |set h | h in peers && peers[h].endpoint.ip == k|
                               + |set h | h in peers && peers[h].endpoint.ip + [0x3a] + peers[h].endpoint.port == k|
    ensures 0x3a !in k ==> CountOf(peers, k) == |set h | h in peers && peers[h].endpoint.ip == k|
    ensures forall ep: Endpoint :: PlainAt(peers, ep) && k == ep.ip + [0x3a] + ep.port ==>
              CountOf(peers, k) == |set h | h in peers && peers[h].endpoint.ip == ep.ip && peers[h].endpoint.port == ep.port|
  {
    assert Where(peers, HasIP(k)) == set h | h in peers && peers[h].endpoint.ip == k;
    assert Where(peers, HasAddress(k)) == set h | h in peers && peers[h].endpoint.ip + [0x3a] + peers[h].endpoint.port == k;
    if 0x3a !in k {
      forall h | h in peers ensures peers[h].endpoint.ip + [0x3a] + peers[h].endpoint.port != k {
        assert (peers[h].endpoint.ip + [0x3a] + peers[h].endpoint.port)[|peers[h].endpoint.ip|] == 0x3a;
      }
      assert Where(peers, HasAddress(k)) == {};
    }
    forall ep: Endpoint | PlainAt(peers, ep) && k == ep.ip + [0x3a] + ep.port
      ensures CountOf(peers, k) == |set h | h in peers && peers[h].endpoint.ip == ep.ip && peers[h].endpoint.port == ep.port|
    {
      PlainDecides(peers, ep);
      assert Where(peers, HasIP(k)) == {};
      assert Where(peers, HasAddress(k)) ==
             set h | h in peers && peers[h].endpoint.ip == ep.ip && peers[h].endpoint.port == ep.port;
    }
  }

  /** Something another goroutine may do to a store between two lock sections. */
  datatype StoreOp = AddPeer(peer: Peer?) | RemovePeer(peer: Peer?) | Rebuild

  /** What such an operation leaves stored. */
  ghost function AfterOp(peers: Table, op: StoreOp): Table {
    match op
    case AddPeer(p) => if p == null || p.hash in peers then peers else peers[p.hash := p]
    case RemovePeer(p) => Without(peers, p)
    case Rebuild => peers
  }

  function Without(peers: Table, p: Peer?): Table {
    if p != null && p.hash in peers && peers[p.hash] == p then peers - {p.hash} else peers
  }

  ghost function AfterOps(peers: Table, ops: seq<StoreOp>): Table
    decreases |ops|
  {
    if ops == [] then peers else AfterOps(AfterOp(peers, ops[0]), ops[1..])
  }

  //// The code

  class PeerStore {
    var peers: Table
    var connected: map<bytes, int>
    var curSlice: Option<seq<Peer>>
    var incoming: int
    var outgoing: int

    ghost predicate Valid()
      reads this
    {
      && Keyed(peers)
      && incoming == |Where(peers, Comes(true))|
      && outgoing == |Where(peers, Comes(false))|
      && Counted(connected, peers)
      && (curSlice.Some? ==> Listing(curSlice.value, peers))
    }

    constructor ()
      ensures Valid() && peers == map[] && curSlice == None
    {
      peers, connected, curSlice, incoming, outgoing := map[], map[], None, 0, 0;
    }

    /** Refused for nil, and for a hash that is already stored. */
    method Add(p: Peer?) returns (ok: bool)
      requires Valid()
      modifies this
      ensures Valid()
      ensures ok == (p != null && p.hash !in old(peers))
      ensures peers == if ok then old(peers)[p.hash := p] else old(peers)
      ensures ok ==> curSlice == None
    {
      hide Counted, Where, Increment;
      if p == null {
        return false;
      }
      if p.hash in peers {
        return false;
      }
      CountedAdd(connected, peers, p);
      WhereAdded(peers, p, Comes(true));
      WhereAdded(peers, p, Comes(false));
      curSlice := None;
      peers := peers[p.hash := p];
      connected := Increment(connected, p.endpoint.ip);
      connected := Increment(connected, p.endpoint.String());
      if p.isIncoming {
        incoming := incoming + 1;
      } else {
        outgoing := outgoing + 1;
      }
      ok := true;
    }

    /** Removes this very object, not another one with the same hash. */
    method Remove(p: Peer?)
      requires Valid()
      modifies this
      ensures Valid()
      ensures peers == Without(old(peers), p)
    {
      hide Counted, Where, Decrement;
      if p == null {
        return;
      }
      if p.hash in peers && peers[p.hash] == p {
        CountedRemove(connected, peers, p);
        WhereRemoved(peers, p, Comes(true));
        WhereRemoved(peers, p, Comes(false));
        connected := Decrement(connected, p.endpoint.ip);
        connected := Decrement(connected, p.endpoint.String());
        if p.isIncoming {
          incoming := incoming - 1;
        } else {
          outgoing := outgoing - 1;
        }
        curSlice := None;
        peers := peers - {p.hash};
      }
    }

    method Get(hash: bytes) returns (p: Peer?)
      ensures p == if hash in peers then peers[hash] else null
    {
      p := if hash in peers then peers[hash] else null;
    }

    method Total() returns (n: nat)
      requires Valid()
      ensures n == |peers| == incoming + outgoing
    {
      n := |peers|;
      assert Where(peers, Comes(true)) + Where(peers, Comes(false)) == peers.Keys;
      assert Where(peers, Comes(true)) !! Where(peers, Comes(false));
    }

    /** The peers with this IP, and those whose `ip:port` this is. */
    method Count(k: bytes) returns (n: int)
      requires Valid()
      ensures n == |set h | h in peers && peers[h].endpoint.ip == k|
                 + |set h | h in peers && peers[h].endpoint.ip + [0x3a] + peers[h].endpoint.port == k|
      ensures 0x3a !in k ==> n == |set h | h in peers && peers[h].endpoint.ip == k|
      ensures forall ep: Endpoint :: PlainAt(peers, ep) && k == ep.ip + [0x3a] + ep.port ==>
                n == |set h | h in peers && peers[h].endpoint.ip == ep.ip && peers[h].endpoint.port == ep.port|
    {
      CountMeans(peers, k);
      n := Lookup(connected, k);
      assert n == CountOf(peers, k);
    }

    method Incoming() returns (n: int)
      requires Valid()
      ensures n == |set h | h in peers && peers[h].isIncoming|
    {
      n := incoming;
      assert Where(peers, Comes(true)) == set h | h in peers && peers[h].isIncoming;
    }

    method Outgoing() returns (n: int)
      requires Valid()
      ensures n == |set h | h in peers && !peers[h].isIncoming|
    {
      n := outgoing;
      assert Where(peers, Comes(false)) == set h | h in peers && !peers[h].isIncoming;
    }

    /** Whether some peer is at this very endpoint, or has its text for an IP. */
    method Connected(ep: Endpoint) returns (b: bool)
      requires Valid()
      ensures b <==> (exists h :: h in peers && (
                        || peers[h].endpoint.ip + [0x3a] + peers[h].endpoint.port == ep.ip + [0x3a] + ep.port
                        || peers[h].endpoint.ip == ep.ip + [0x3a] + ep.port))
      ensures PlainAt(peers, ep) ==>
                (b <==> exists h :: h in peers && peers[h].endpoint.ip == ep.ip && peers[h].endpoint.port == ep.port)
    {
      if PlainAt(peers, ep) {
        PlainDecides(peers, ep);
      }
      var k := ep.String();
      b := Lookup(connected, k) > 0;
      assert b == (CountOf(peers, k) > 0);
      if h :| h in peers && (peers[h].endpoint.String() == k || peers[h].endpoint.ip == k) {
        assert h in Where(peers, HasIP(k)) || h in Where(peers, HasAddress(k));
      }
      if b {
        ghost var h :| h in Where(peers, HasIP(k)) || h in Where(peers, HasAddress(k));
      }
    }

    /** The second lock section of `Slice`. */
    method RebuildSlice() returns (r: seq<Peer>)
      requires Valid()
      modifies this`curSlice
      ensures Valid() && curSlice == Some(r) && Listing(r, peers)
    {
      r := [];
      var left := peers.Keys;
      while left != {}
        invariant left <= peers.Keys && |r| == |peers| - |left|
        invariant forall i, j :: 0 <= i < j < |r| ==> r[i] != r[j]
        invariant forall p :: p in r ==> p.hash in peers && p.hash !in left && peers[p.hash] == p
        invariant forall h :: h in peers && h !in left ==> peers[h] in r
        decreases |left|
      {
        var h :| h in left;
        assert peers[h] !in r;
        r := r + [peers[h]];
        left := left - {h};
      }
      curSlice := Some(r);
    }

    method Apply(op: StoreOp)
      requires Valid()
      modifies this
      ensures Valid() && peers == AfterOp(old(peers), op)
    {
      match op
      case AddPeer(p) =>
        var _ := Add(p);
      case RemovePeer(p) =>
        Remove(p);
      case Rebuild =>
        var _ := RebuildSlice();
    }

    /** What is stored at the instant that `Slice` lists, if others do `between` while it holds no lock. */
    ghost function Seen(between: seq<StoreOp>): Table
      reads this
    {
      if curSlice.Some? then peers else AfterOps(peers, between)
    }

    /**
      `Slice`: between its two lock sections others may do anything, here `between`. What it returns is the peers
      stored at one instant of the call: its first lock section, or its second.
     */
    method Slice(between: seq<StoreOp>) returns (r: seq<Peer>)
      requires Valid()
      modifies this
      ensures Valid()
      ensures peers == old(Seen(between))
      ensures Listing(r, peers)
    {
      if curSlice.Some? {
        return curSlice.value;
      }
      for i := 0 to |between|
        invariant Valid()
        invariant AfterOps(old(peers), between) == AfterOps(peers, between[i..])
      {
        assert between[i..][1..] == between[i + 1..];
        Apply(between[i]);
      }
      r := RebuildSlice();
    }
  }
}
