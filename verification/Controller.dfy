/**
  The controller's loops, one turn at a time: handling a notification, routing
  a parcel, dropping peers in a CAT round, choosing peers to share.
 */
module Controller {
  import opened Words
  import opened Network
  import opened PeerHashCache
  import opened ParcelChannel
  import opened Peers
  import opened PeerStore
  import opened Online
  import opened Selection

  /** Where a parcel is addressed to. */
  datatype Target = FullBroadcast | Broadcast | RandomPeer | Direct(hash: bytes)

  /** Whether the configuration names this endpoint. */
  function IsSpecial(special: map<bytes, bool>): Peer -> bool {
    (p: Peer) => var k := p.endpoint.String(); k in special && special[k]
  }

  function Elsewhere(exclude: Endpoint): Peer -> bool {
    (p: Peer) => p.endpoint != exclude
  }

  /** The peers whose window lacks the hash. */
  ghost predicate Lacks(p: Peer, hash: Digest)
    reads p.resend
  {
    p.resend != null && !Remembered(p.resend.log, |p.resend.buckets|, hash)
  }

  /** The objects that make up the windows of stored peers. */
  ghost function Windows(peers: Table): set<object>
    reads set h | h in peers :: peers[h].resend
  {
    set h, o | h in peers && peers[h].resend != null && o in peers[h].resend.Repr() :: o
  }

  /** Every stored peer has a window. */
  ghost predicate Filtering(peers: Table)
    reads set h | h in peers :: peers[h].resend
    reads Windows(peers)
  {
    forall h :: h in peers ==>
      peers[h].resend != null && (assert peers[h].resend.Repr() <= Windows(peers); peers[h].resend.Valid())
  }

  //// Selections as values

  /** `selectBroadcastPeers` */
  function BroadcastSelection(peers: seq<Peer>, fanout: nat, special: Peer -> bool, rng: nat -> seq<nat>): seq<Peer>
    requires Shuffles(rng)
  {
    if |peers| <= fanout then peers
    else Select(peers, special) + ChosenRegular(Select(peers, Not(special)), fanout, rng)
  }

  /** Every special peer is chosen, and as many regular ones as there are, up to the fanout; none twice. */
  lemma {:induction false} BroadcastChooses(peers: seq<Peer>, fanout: nat, special: Peer -> bool, rng: nat -> seq<nat>)
    requires Shuffles(rng) && Distinct(peers)
    ensures var r := BroadcastSelection(peers, fanout, special, rng);
            && Distinct(r)
            && (forall p :: p in r ==> p in peers)
            && (forall p :: p in peers && special(p) ==> p in r)
            && |Select(r, Not(special))| == Min(fanout, |Select(peers, Not(special))|)
  {
    SelectMembers(peers, special);
    SelectMembers(peers, Not(special));
    if |peers| <= fanout {
      SelectShort(peers, fanout, Not(special));
    } else {
      var regular := Select(peers, Not(special));
      SelectDistinct(peers, Not(special));
      var chosen := ChosenRegular(regular, fanout, rng);
      ChosenAmong(regular, fanout, rng);
      SpecialAndChosen(peers, special, chosen);
    }
  }

  lemma {:induction false} SelectShort<T>(s: seq<T>, n: nat, property: T -> bool)
    requires |s| <= n
    ensures |Select(s, property)| == Min(n, |Select(s, property)|)
  {
  }

  function ChosenRegular(regular: seq<Peer>, fanout: nat, rng: nat -> seq<nat>): seq<Peer>
    requires Shuffles(rng)
  {
    if |regular| < fanout then regular else Permuted(regular, rng(|regular|))[..fanout]
  }

  lemma {:induction false} ChosenAmong(regular: seq<Peer>, fanout: nat, rng: nat -> seq<nat>)
    requires Shuffles(rng) && Distinct(regular)
    ensures var r := ChosenRegular(regular, fanout, rng);
            Distinct(r) && |r| == Min(fanout, |regular|) && forall p :: p in r ==> p in regular
  {
    if |regular| >= fanout {
      PermutedDistinct(regular, rng(|regular|));
      PermutedMembers(regular, rng(|regular|));
      Prefix(Permuted(regular, rng(|regular|)), fanout);
    }
  }

  lemma {:induction false} SpecialAndChosen(peers: seq<Peer>, special: Peer -> bool, chosen: seq<Peer>)
    requires Distinct(peers) && Distinct(chosen)
    requires forall p :: p in chosen ==> p in peers && !special(p)
    ensures var r := Select(peers, special) + chosen;
            && Distinct(r)
            && (forall p :: p in r ==> p in peers)
            && (forall p :: p in peers && special(p) ==> p in r)
            && Select(r, Not(special)) == chosen
  {
    var s := Select(peers, special);
    SelectMembers(peers, special);
    SelectDistinct(peers, special);
    SelectConcat(s, chosen, Not(special));
    SelectNone(s, Not(special));
    SelectAll(chosen, Not(special));
    assert [] + chosen == chosen;
    Join(s, chosen);
  }

  lemma {:induction false} Join<T>(a: seq<T>, b: seq<T>)
    requires Distinct(a) && Distinct(b) && forall x :: x in a ==> x !in b
    ensures Distinct(a + b)
    ensures forall x :: x in a + b ==> x in a || x in b
    ensures forall x :: x in a || x in b ==> x in a + b
  {
    forall i, j | 0 <= i < j < |a + b| ensures (a + b)[i] != (a + b)[j] {
      if i < |a| <= j {
        assert a[i] !in b && b[j - |a|] in b;
      }
    }
  }

  lemma {:induction false} Prefix<T>(s: seq<T>, n: nat)
    requires n <= |s| && Distinct(s)
    ensures Distinct(s[..n]) && forall x :: x in s[..n] ==> x in s
  {
  }

  /** `runCatRound`: the first peers in the order of `perm` that are not special, until enough are chosen. */
  function DropSelection(peers: seq<Peer>, dropTo: nat, special: Peer -> bool, rng: nat -> seq<nat>): seq<Peer>
    requires Shuffles(rng)
  {
    var candidates := Select(Permuted(peers, rng(|peers|)), Not(special));
    candidates[..Min(Max(|peers| - dropTo, 0), |candidates|)]
  }

  /** As many peers are stopped as there are too many, if that many are not special; none twice, no special one. */
  lemma {:induction false} DropChooses(peers: seq<Peer>, dropTo: nat, special: Peer -> bool, rng: nat -> seq<nat>)
    requires Shuffles(rng) && Distinct(peers)
    ensures var r := DropSelection(peers, dropTo, special, rng);
            && |r| == Min(Max(|peers| - dropTo, 0), |Select(peers, Not(special))|)
            && Distinct(r) && forall p :: p in r ==> p in peers && !special(p)
  {
    ChanceSelection(peers, rng(|peers|), Not(special), Max(|peers| - dropTo, 0));
  }

  /**
    Once the notifications of a CAT round are handled, a store that held more than `dropTo` peers holds `dropTo`,
    or the special ones if they are more.
   */
  lemma {:induction false} CatRoundSettles(table: Table, peers: seq<Peer>, dropTo: nat, special: Peer -> bool, rng: nat -> seq<nat>)
    requires Shuffles(rng) && Listing(peers, table) && |peers| > dropTo
    ensures var left := AfterAll(table, Offline(DropSelection(peers, dropTo, special, rng)));
            |left| == Max(dropTo, |Select(peers, special)|)
  {
    DropChooses(peers, dropTo, special, rng);
    SelectSplits(peers, special);
    OfflineRemoves(table, DropSelection(peers, dropTo, special, rng));
  }

  /** `makePeerShare`: the first peers in the order of `perm` that are not at the excluded endpoint. */
  function ShareSelection(peers: seq<Peer>, exclude: Endpoint, amount: nat, rng: nat -> seq<nat>): seq<Peer>
    requires Shuffles(rng)
  {
    var candidates := Select(Permuted(peers, rng(|peers|)), Elsewhere(exclude));
    candidates[..Min(Max(amount, 1), |candidates|)]
  }

  lemma {:induction false} ShareChooses(peers: seq<Peer>, exclude: Endpoint, amount: nat, rng: nat -> seq<nat>)
    requires Shuffles(rng) && Distinct(peers)
    ensures var r := ShareSelection(peers, exclude, amount, rng);
            && |r| == Min(Max(amount, 1), |Select(peers, Elsewhere(exclude))|)
            && Distinct(r) && forall p :: p in r ==> p in peers && p.endpoint != exclude
  {
    ChanceSelection(peers, rng(|peers|), Elsewhere(exclude), Max(amount, 1));
  }

  function EndpointsOf(ps: seq<Peer>): (r: seq<Endpoint>)
    ensures |r| == |ps| && forall i :: 0 <= i < |ps| ==> r[i] == ps[i].endpoint
  {
    if ps == [] then [] else [ps[0].endpoint] + EndpointsOf(ps[1..])
  }

  /** Every endpoint shared is that of a peer, and none is shared more often than there are peers at it. */
  lemma {:induction false} ShareWithin(peers: seq<Peer>, exclude: Endpoint, amount: nat, rng: nat -> seq<nat>)
    requires Shuffles(rng)
    ensures multiset(EndpointsOf(ShareSelection(peers, exclude, amount, rng))) <= multiset(EndpointsOf(peers))
  {
    hide EndpointsOf, Select;
    var order := Permuted(peers, rng(|peers|));
    var candidates := Select(order, Elsewhere(exclude));
    var r := ShareSelection(peers, exclude, amount, rng);
    assert r == Trim(candidates, Max(amount, 1));
    PermutedMultiset(peers, rng(|peers|));
    SelectWithin(order, Elsewhere(exclude));
    TrimWithin(candidates, Max(amount, 1));
    EndpointsWithin(r, peers);
  }

  lemma {:induction false} EndpointsWithin(a: seq<Peer>, b: seq<Peer>)
    requires multiset(a) <= multiset(b)
    ensures multiset(EndpointsOf(a)) <= multiset(EndpointsOf(b))
    decreases |a|
  {
    hide Omit, EndpointsOf;
    if a != [] {
      assert a[0] in multiset(a) && a[0] in multiset(b);
      var i :| 0 <= i < |b| && b[i] == a[0];
      OmitWithin(a, b, i);
      EndpointsWithin(Omit(a, 0), Omit(b, i));
      OmitMultiset(EndpointsOf(a), 0);
      OmitMultiset(EndpointsOf(b), i);
      assert Omit(EndpointsOf(a), 0) == EndpointsOf(Omit(a, 0));
      assert Omit(EndpointsOf(b), i) == EndpointsOf(Omit(b, i));
    }
  }

  /** `shuffleTrimShare` */
  function TrimmedShare(list: seq<Endpoint>, amount: nat, rng: nat -> seq<nat>): seq<Endpoint>
    requires Shuffles(rng)
  {
    Trim(Permuted(list, rng(|list|)), amount)
  }

  /** Some of the endpoints, none more often than it was listed, and as many as there are up to the amount. */
  lemma {:induction false} TrimmedShareWithin(list: seq<Endpoint>, amount: nat, rng: nat -> seq<nat>)
    requires Shuffles(rng)
    ensures var r := TrimmedShare(list, amount, rng);
            multiset(r) <= multiset(list) && |r| == Min(amount, |list|)
  {
    PermutedMultiset(list, rng(|list|));
    TrimWithin(Permuted(list, rng(|list|)), amount);
  }

  //// In terms of the configuration and of what is stored

  /** The configuration marks the endpoint whose text, `ip:port`, it maps to true. */
  ghost predicate Marked(special: map<bytes, bool>, ep: Endpoint) {
    ep.ip + [0x3a] + ep.port in special && special[ep.ip + [0x3a] + ep.port]
  }

  /** In a listing, as many entries are of a kind as are stored. */
  lemma {:induction false} ListingCount(all: seq<Peer>, table: Table, property: Peer -> bool)
    requires Listing(all, table)
    ensures |Select(all, property)| == |set h | h in table && property(table[h])|
  {
    var chosen := Select(all, property);
    SelectMembers(all, property);
    SelectDistinct(all, property);
    var hashes := seq(|chosen|, i requires 0 <= i < |chosen| => chosen[i].hash);
    forall i, j | 0 <= i < j < |chosen| ensures hashes[i] != hashes[j] {
      assert chosen[i] in all && chosen[j] in all;
    }
    AsManyAs(hashes);
    var stored := set h | h in table && property(table[h]);
    forall h | h in stored ensures h in Elements(hashes) {
      HashListed(all, table, h);
      assert table[h] in chosen;
      var i :| 0 <= i < |chosen| && chosen[i] == table[h];
      assert hashes[i] == h;
    }
    forall h | h in Elements(hashes) ensures h in stored {
      var i :| 0 <= i < |hashes| && hashes[i] == h;
      assert chosen[i] in all;
    }
    assert Elements(hashes) == stored;
  }

  lemma {:induction false} HashListed(all: seq<Peer>, table: Table, h: bytes)
    requires Listing(all, table) && h in table
    ensures table[h] in all && table[h].hash == h
  {
    hide Distinct;
    var hashes := seq(|all|, i requires 0 <= i < |all| => all[i].hash);
    forall i, j | 0 <= i < j < |all| ensures hashes[i] != hashes[j] {
      assert all[i] in all && all[j] in all;
    }
    DistinctSeq(hashes);
    AsManyAs(hashes);
    forall k | k in Elements(hashes) ensures k in table.Keys {
      var i :| 0 <= i < |hashes| && hashes[i] == k;
      assert all[i] in all;
    }
    assert Elements(hashes) <= table.Keys && |table.Keys| == |table|;
    SubsetFull(Elements(hashes), table.Keys);
    assert h in hashes;
    var i :| 0 <= i < |hashes| && hashes[i] == h;
    assert all[i] in all && all[i].hash == h && table[h] == all[i];
  }

  lemma {:induction false} DistinctSeq<T>(s: seq<T>)
    requires forall i, j :: 0 <= i < j < |s| ==> s[i] != s[j]
    ensures Distinct(s)
  {
  }

  lemma {:induction false} ListedStored(all: seq<Peer>, table: Table)
    requires Listing(all, table)
    ensures Distinct(all) && |all| == |table| && forall p :: p in all ==> p in table.Values
  {
  }

  lemma {:induction false} SpecialIsMarked(special: map<bytes, bool>, p: Peer)
    ensures IsSpecial(special)(p) == Marked(special, p.endpoint)
    ensures Not<Peer>(IsSpecial(special))(p) == !Marked(special, p.endpoint)
  {
  }

  lemma {:induction false} UnmarkedCount(all: seq<Peer>, table: Table, special: map<bytes, bool>)
    requires Listing(all, table)
    ensures |Select(all, Not<Peer>(IsSpecial(special)))| == |set h | h in table && !Marked(special, table[h].endpoint)|
  {
    hide IsSpecial, Marked, Not, Select, Listing;
    var other: Peer -> bool := Not<Peer>(IsSpecial(special));
    ListingCount(all, table, other);
    forall h | h in table ensures other(table[h]) == !Marked(special, table[h].endpoint) {
      SpecialIsMarked(special, table[h]);
    }
    assert (set h | h in table && other(table[h])) == set h | h in table && !Marked(special, table[h].endpoint);
  }

  lemma {:induction false} ElsewhereCount(all: seq<Peer>, table: Table, exclude: Endpoint)
    requires Listing(all, table)
    ensures |Select(all, Elsewhere(exclude))| ==
            |set h | h in table && (table[h].endpoint.ip != exclude.ip || table[h].endpoint.port != exclude.port)|
  {
    hide Select, Listing;
    var other: Peer -> bool := Elsewhere(exclude);
    ListingCount(all, table, other);
    assert (set h | h in table && other(table[h])) ==
           set h | h in table && (table[h].endpoint.ip != exclude.ip || table[h].endpoint.port != exclude.port);
  }

  lemma {:induction false} UnmarkedAmong(ps: seq<Peer>, special: map<bytes, bool>)
    requires Distinct(ps)
    ensures |Select(ps, Not<Peer>(IsSpecial(special)))| == |set p: Peer | p in ps && !Marked(special, p.endpoint)|
  {
    hide IsSpecial, Marked, Not, Select;
    var chosen := Select(ps, Not<Peer>(IsSpecial(special)));
    SelectDistinct(ps, Not<Peer>(IsSpecial(special)));
    SelectMembers(ps, Not<Peer>(IsSpecial(special)));
    AsManyAs(chosen);
    forall p | p in ps ensures Not<Peer>(IsSpecial(special))(p) == !Marked(special, p.endpoint) {
      SpecialIsMarked(special, p);
    }
    var unmarked := set p: Peer | p in ps && !Marked(special, p.endpoint);
    assert Elements(chosen) == unmarked;
  }

  /** Who is stopped: nobody who is marked, and as many as there are too many, if that many are not marked. */
  lemma {:induction false} StoppedMeans(all: seq<Peer>, table: Table, dropTo: nat, special: map<bytes, bool>, rng: nat -> seq<nat>)
    requires Shuffles(rng) && Listing(all, table)
    ensures var r := DropSelection(all, dropTo, IsSpecial(special), rng);
            && |r| == Min(Max(|table| - dropTo, 0), |set h | h in table && !Marked(special, table[h].endpoint)|)
            && forall p :: p in r ==> p in all && !Marked(special, p.endpoint)
  {
    hide DropSelection, IsSpecial, Marked, Select;
    DropChooses(all, dropTo, IsSpecial(special), rng);
    UnmarkedCount(all, table, special);
    forall p | p in DropSelection(all, dropTo, IsSpecial(special), rng) ensures !Marked(special, p.endpoint) {
      SpecialIsMarked(special, p);
    }
  }

  /** Who gets a broadcast: everybody marked, and as many others as there are up to the fanout. */
  lemma {:induction false} BroadcastMeans(allowed: seq<Peer>, fanout: nat, special: map<bytes, bool>, rng: nat -> seq<nat>)
    requires Shuffles(rng) && Distinct(allowed)
    ensures var r := BroadcastSelection(allowed, fanout, IsSpecial(special), rng);
            && (forall p :: p in allowed && Marked(special, p.endpoint) ==> p in r)
            && |set p: Peer | p in r && !Marked(special, p.endpoint)| ==
               Min(fanout, |set p: Peer | p in allowed && !Marked(special, p.endpoint)|)
  {
    hide BroadcastSelection, Select, IsSpecial, Marked;
    BroadcastChooses(allowed, fanout, IsSpecial(special), rng);
    UnmarkedAmong(BroadcastSelection(allowed, fanout, IsSpecial(special), rng), special);
    UnmarkedAmong(allowed, special);
    forall p | p in allowed ensures IsSpecial(special)(p) == Marked(special, p.endpoint) {
      SpecialIsMarked(special, p);
    }
  }

  /** Which endpoints are shared: some of those stored with another IP or another port, as many as asked for if there are. */
  lemma {:induction false} ShareMeans(all: seq<Peer>, table: Table, exclude: Endpoint, amount: nat, rng: nat -> seq<nat>)
    requires Shuffles(rng) && Listing(all, table)
    ensures var list := EndpointsOf(ShareSelection(all, exclude, amount, rng));
            && |list| == Min(Max(amount, 1),
                             |set h | h in table && (table[h].endpoint.ip != exclude.ip || table[h].endpoint.port != exclude.port)|)
            && (forall e :: e in list ==> e.ip != exclude.ip || e.port != exclude.port)
            && multiset(list) <= multiset(EndpointsOf(all))
  {
    hide ShareSelection, Select, Elsewhere, EndpointsOf;
    ShareChooses(all, exclude, amount, rng);
    ShareWithin(all, exclude, amount, rng);
    ElsewhereCount(all, table, exclude);
    var r := ShareSelection(all, exclude, amount, rng);
    forall e | e in EndpointsOf(r) ensures e.ip != exclude.ip || e.port != exclude.port {
      var i :| 0 <= i < |r| && EndpointsOf(r)[i] == e;
      assert r[i] in r;
    }
  }

  //// Chance leaves nothing out

  /** Every choice of as many regular peers as the fanout is made by some shuffle. */
  lemma {:induction false} EveryBroadcast(peers: seq<Peer>, fanout: nat, special: Peer -> bool, c: seq<Peer>) returns (rng: nat -> seq<nat>)
    requires Distinct(peers) && |peers| > fanout && Distinct(c) && |c| == fanout
    requires forall p :: p in c ==> p in peers && !special(p)
    ensures Shuffles(rng) && BroadcastSelection(peers, fanout, special, rng) == Select(peers, special) + c
  {
    var regular := Select(peers, Not(special));
    SelectDistinct(peers, Not(special));
    SelectMembers(peers, Not(special));
    var perm := Reached(regular, c);
    rng := Drawn(perm, |regular|);
  }

  /** Every choice of as many peers that are not special as have to go is made by some permutation. */
  lemma {:induction false} EveryDrop(peers: seq<Peer>, dropTo: nat, special: Peer -> bool, c: seq<Peer>) returns (rng: nat -> seq<nat>)
    requires Distinct(peers) && Distinct(c) && (forall p :: p in c ==> p in peers && !special(p))
    requires |c| == Min(Max(|peers| - dropTo, 0), |Select(peers, Not(special))|)
    ensures Shuffles(rng) && DropSelection(peers, dropTo, special, rng) == c
  {
    var perm := ReachedOfKind(peers, c, Not(special));
    rng := Drawn(perm, |peers|);
    DropChooses(peers, dropTo, special, rng);
  }

  /** Every choice of as many peers elsewhere as are shared is made by some permutation. */
  lemma {:induction false} EveryShare(peers: seq<Peer>, exclude: Endpoint, amount: nat, c: seq<Peer>) returns (rng: nat -> seq<nat>)
    requires Distinct(peers) && Distinct(c) && (forall p :: p in c ==> p in peers && p.endpoint != exclude)
    requires |c| == Min(Max(amount, 1), |Select(peers, Elsewhere(exclude))|)
    ensures Shuffles(rng) && ShareSelection(peers, exclude, amount, rng) == c
  {
    var perm := ReachedOfKind(peers, c, Elsewhere(exclude));
    rng := Drawn(perm, |peers|);
    ShareChooses(peers, exclude, amount, rng);
  }

  /** Every choice of as many entries as are kept, in any order, is made by some shuffle. */
  lemma {:induction false} EveryTrim(list: seq<Endpoint>, amount: nat, places: seq<nat>) returns (rng: nat -> seq<nat>)
    requires |places| == Min(amount, |list|) && Distinct(places) && forall i :: 0 <= i < |places| ==> places[i] < |list|
    ensures Shuffles(rng) && |TrimmedShare(list, amount, rng)| == |places|
    ensures forall i :: 0 <= i < |places| ==> TrimmedShare(list, amount, rng)[i] == list[places[i]]
  {
    var perm := Extended(places, |list|);
    rng := Drawn(perm, |list|);
    assert forall i :: 0 <= i < |places| ==> perm[i] == places[i];
  }

  //// The code

  class Controller {
    const peers: PeerStore
    const status: StatusChannel
    const filter: bool
    const fanout: nat
    const dropTo: nat
    const peerShareAmount: nat
    const roundTime: nat
    var special: map<bytes, bool>
    var lastRound: int
    var rounds: nat
    /** Every notification handled. */
    ghost var history: seq<PeerStatus>

    ghost predicate Valid()
      reads this, peers
    {
      peers.Valid() && peers.peers == Occupants(history)
    }

    constructor (filter: bool, fanout: nat, dropTo: nat, peerShareAmount: nat, roundTime: nat, special: map<bytes, bool>, now: int)
      ensures Valid() && history == [] && fresh(peers) && fresh(status)
      ensures this.filter == filter && this.fanout == fanout && this.dropTo == dropTo
      ensures this.peerShareAmount == peerShareAmount && this.roundTime == roundTime && this.special == special
    {
      peers := new PeerStore();
      status := new StatusChannel();
      this.filter, this.fanout, this.dropTo := filter, fanout, dropTo;
      this.peerShareAmount, this.roundTime, this.special := peerShareAmount, roundTime, special;
      lastRound, rounds, history := now, 0, [];
    }

    /** One turn of `manageOnline`. A replaced peer is stopped; adding the new one cannot fail. */
    method HandleStatus(pc: PeerStatus)
      requires Valid()
      modifies this`history, peers, status, peers.peers.Values`stopped
      ensures Valid() && history == old(history) + [pc]
      ensures pc.online && pc.peer.hash in old(peers.peers) ==>
                var p := old(peers.peers)[pc.peer.hash];
                && p.stopped
                && status.queue == old(status.queue) + if old(p.stopped) then [] else [PeerStatus(p, false)]
      ensures !(pc.online && pc.peer.hash in old(peers.peers)) ==> status.queue == old(status.queue)
      ensures forall h :: h in old(peers.peers) && !(pc.online && h == pc.peer.hash) ==>
                old(peers.peers)[h].stopped == old(peers.peers[h].stopped)
    {
      hide Counted, Where, Listing, Occupants;
      OccupantsKeyed(history);
      OccupantsSnoc(history, pc);
      Replaced(peers.peers, pc.peer);
      if pc.online {
        var former := peers.Get(pc.peer.hash);
        if former != null {
          former.Stop(status);
          peers.Remove(former);
        }
        var ok := peers.Add(pc.peer);
        assert ok;
      } else {
        peers.Remove(pc.peer);
      }
      history := history + [pc];
    }

    /** What is stored when a parcel's receivers are chosen: only a single addressee is looked up without a listing. */
    ghost function StoredFor(target: Target, between: seq<StoreOp>): Table
      reads peers
    {
      if target.Direct? then peers.peers else peers.Seen(between)
    }

    /**
      Exactly the stored peers whose window lacks the hash, each once. Here and below, `between` is what others do to the
      store while a listing of it is made, and `table` what is stored then.
     */
    method SelectNoResendPeers(payload: bytes, sha1: bytes -> Digest, between: seq<StoreOp>, ghost table: Table) returns (r: seq<Peer>)
      requires peers.Valid() && table == peers.Seen(between) && Filtering(table)
      modifies peers
      ensures peers.Valid() && peers.peers == table
      ensures Distinct(r)
      ensures forall p :: p in r ==> p.hash in peers.peers && peers.peers[p.hash] == p && Lacks(p, sha1(payload))
      ensures forall h :: h in peers.peers && Lacks(peers.peers[h], sha1(payload)) ==> peers.peers[h] in r
    {
      hide Counted, Where, Lacks, AfterOps;
      var all := peers.Slice(between);
      assert Filtering(peers.peers);
      if |all| == 0 {
        return [];
      }
      r := WithoutHash(all, sha1(payload));
    }

    /** The peers that `route` gives a parcel to. */
    method Choose(target: Target, payload: bytes, sha1: bytes -> Digest, rng: nat -> seq<nat>, pick: nat, between: seq<StoreOp>, ghost table: Table)
      returns (ghost allowed: seq<Peer>, selection: seq<Peer>)
      requires peers.Valid() && table == StoredFor(target, between)
      requires (filter ==> Filtering(table)) && Shuffles(rng)
      modifies peers
      ensures peers.Valid() && peers.peers == table
      ensures Stored(selection, peers.peers)
      ensures target.FullBroadcast? || target.Broadcast? ==>
                Allowed(peers.peers, filter, sha1(payload), allowed) && forall p :: p in selection ==> p in allowed
      ensures target.FullBroadcast? ==> selection == allowed
      ensures target.Broadcast? ==> selection == BroadcastSelection(allowed, fanout, IsSpecial(special), rng)
      ensures target.Broadcast? ==>
                && (forall p :: p in allowed && Marked(special, p.endpoint) ==> p in selection)
                && |set p: Peer | p in selection && !Marked(special, p.endpoint)| ==
                   Min(fanout, |set p: Peer | p in allowed && !Marked(special, p.endpoint)|)
      ensures target.RandomPeer? ==>
                exists all :: Listing(all, table) && selection == if |all| == 0 then [] else [all[pick % |all|]]
      ensures target.Direct? ==> selection == if target.hash in peers.peers then [peers.peers[target.hash]] else []
    {
      hide Counted, Where, Lacks, Filtering, IsSpecial, BroadcastSelection, Allowed, AfterOps, Marked;
      selection, allowed := [], [];
      match target {
        case FullBroadcast =>
          selection := AllAllowed(payload, sha1, between, table);
          allowed := selection;
        case Broadcast =>
          selection := AllAllowed(payload, sha1, between, table);
          allowed := selection;
          BroadcastChooses(allowed, fanout, IsSpecial(special), rng);
          BroadcastMeans(allowed, fanout, special, rng);
          selection := SelectBroadcastPeers(selection, fanout, special, rng);
        case RandomPeer =>
          var all := peers.Slice(between);
          if |all| > 0 {
            selection := [all[pick % |all|]];
          }
        case Direct(hash) =>
          var p := peers.Get(hash);
          if p != null {
            selection := [p];
          }
      }
    }

    method AllAllowed(payload: bytes, sha1: bytes -> Digest, between: seq<StoreOp>, ghost table: Table) returns (r: seq<Peer>)
      requires peers.Valid() && table == peers.Seen(between) && (filter ==> Filtering(table))
      modifies peers
      ensures peers.Valid() && peers.peers == table
      ensures Stored(r, peers.peers) && Allowed(peers.peers, filter, sha1(payload), r)
    {
      hide Counted, Where, Lacks, AfterOps;
      if filter {
        r := SelectNoResendPeers(payload, sha1, between, table);
      } else {
        r := peers.Slice(between);
      }
    }

    /**
      `route`, for one parcel: every chosen peer that is not stopped gets it once, no other peer gets anything. With the
      filter on, a broadcast is not handed to a peer whose window holds the payload's hash.
     */
    method Route(target: Target, parcel: Parcel, sha1: bytes -> Digest, rng: nat -> seq<nat>, pick: nat, between: seq<StoreOp>, ghost table: Table)
      returns (ghost allowed: seq<Peer>, selection: seq<Peer>)
      requires peers.Valid() && table == StoredFor(target, between)
      requires (filter ==> Filtering(table)) && Channels(table) && Shuffles(rng)
      modifies peers, table.Values`dropped, ChannelsOf(table)
      ensures peers.Valid() && peers.peers == table
      ensures Stored(selection, peers.peers)
      ensures target.FullBroadcast? || target.Broadcast? ==> Allowed(peers.peers, filter, sha1(parcel.payload), allowed)
      ensures target.FullBroadcast? ==> selection == allowed
      ensures target.Broadcast? ==> selection == BroadcastSelection(allowed, fanout, IsSpecial(special), rng)
      ensures target.Broadcast? ==>
                && (forall p :: p in allowed && Marked(special, p.endpoint) ==> p in selection)
                && |set p: Peer | p in selection && !Marked(special, p.endpoint)| ==
                   Min(fanout, |set p: Peer | p in allowed && !Marked(special, p.endpoint)|)
      ensures target.RandomPeer? ==>
                exists all :: Listing(all, table) && selection == if |all| == 0 then [] else [all[pick % |all|]]
      ensures target.Direct? ==> selection == if target.hash in peers.peers then [peers.peers[target.hash]] else []
      ensures forall h :: h in table ==>
                var p := table[h];
                if p in selection then Handed(p, old(p.send.queue), parcel) else p.send.queue == old(p.send.queue)
      ensures filter && (target.FullBroadcast? || target.Broadcast?) ==>
                forall h :: h in table && !Lacks(table[h], sha1(parcel.payload)) ==>
                  var p := table[h];
                  p !in selection && p.send.queue == old(p.send.queue)
    {
      hide Counted, Where, Keyed, Filtering, Allowed, IsSpecial, BroadcastSelection, Channels, Handed, ChannelsOf, AfterOps, Lacks, Marked, Listing;
      allowed, selection := Choose(target, parcel.payload, sha1, rng, pick, between, table);
      OwnChannels(table, selection);
      if filter && (target.FullBroadcast? || target.Broadcast?) {
        NotAllowed(table, sha1(parcel.payload), allowed);
      }
      SendAll(selection, parcel);
    }

    /** One turn of the CAT loop; returns the peers it stopped. */
    method RunCatRound(now: int, rng: nat -> seq<nat>, between: seq<StoreOp>, ghost table: Table) returns (stopped: seq<Peer>)
      requires peers.Valid() && table == peers.Seen(between) && Shuffles(rng)
      modifies this`lastRound, this`rounds, peers, status, table.Values`stopped
      ensures peers.Valid()
      ensures now - old(lastRound) < roundTime ==>
                && stopped == [] && status.queue == old(status.queue) && lastRound == old(lastRound) && rounds == old(rounds)
                && peers.peers == old(peers.peers)
      ensures now - old(lastRound) >= roundTime ==>
                lastRound == now && rounds == old(rounds) + 1 && peers.peers == table
      ensures now - old(lastRound) >= roundTime ==>
                exists all :: Listing(all, peers.peers) && stopped == DropSelection(all, dropTo, IsSpecial(special), rng)
      ensures now - old(lastRound) >= roundTime ==>
                |stopped| == Min(Max(|table| - dropTo, 0), |set h | h in table && !Marked(special, table[h].endpoint)|)
      ensures forall p :: p in stopped ==> p in table.Values && !Marked(special, p.endpoint)
      ensures forall p :: p in stopped ==> p.stopped
      ensures forall p :: p in table.Values && p !in stopped ==> p.stopped == old(p.stopped)
      ensures (forall p :: p in table.Values ==> !old(p.stopped)) ==>
                status.queue == old(status.queue) + Offline(stopped)
    {
      hide Counted, Where, Occupants, DropSelection, Offline, IsSpecial, Keyed, AfterOps, Marked, Listing;
      stopped := [];
      if now - lastRound < roundTime {
        NothingStopped(status.queue);
        return;
      }
      lastRound := now;
      rounds := rounds + 1;
      var all := peers.Slice(between);
      ListedStored(all, table);
      StoppedMeans(all, table, dropTo, special, rng);
      stopped := DropPeers(all, |all| - dropTo, special, rng, status);
    }

    /** `makePeerShare` */
    method MakePeerShare(exclude: Endpoint, rng: nat -> seq<nat>, between: seq<StoreOp>, ghost table: Table) returns (list: seq<Endpoint>)
      requires peers.Valid() && table == peers.Seen(between) && Shuffles(rng)
      modifies peers
      ensures peers.Valid() && peers.peers == table
      ensures exists all :: Listing(all, peers.peers) && list == EndpointsOf(ShareSelection(all, exclude, peerShareAmount, rng))
                            && multiset(list) <= multiset(EndpointsOf(all))
      ensures |list| == Min(Max(peerShareAmount, 1),
                            |set h | h in table && (table[h].endpoint.ip != exclude.ip || table[h].endpoint.port != exclude.port)|)
      ensures forall e :: e in list ==> e.ip != exclude.ip || e.port != exclude.port
    {
      hide Counted, Where, AfterOps, ShareSelection;
      var all := peers.Slice(between);
      ShareMeans(all, table, exclude, peerShareAmount, rng);
      list := ShareFrom(all, exclude, peerShareAmount, rng);
    }
  }

  /** A broadcast that is filtered does not go to a peer whose window holds the hash. */
  lemma {:induction false} NotAllowed(peers: Table, hash: Digest, allowed: seq<Peer>)
    requires Allowed(peers, true, hash, allowed)
    ensures forall h :: h in peers && !Lacks(peers[h], hash) ==> peers[h] !in allowed
  {
  }

  /** The window of a peer that has sent a message holds its hash until as many buckets were dropped as it has. */
  lemma {:induction false} SenderHasIt(p: Peer, log: seq<Event>, ps: seq<Parcel>, k: nat, ticks: nat -> nat,
                                       sha1: bytes -> Digest, later: seq<Event>)
    requires p.resend != null && k < |ps| && ps[k].IsApplicationMessage()
    requires p.resend.log == log + Window(ps[..k + 1], ticks, sha1) + later
    requires Drops(later) < |p.resend.buckets|
    ensures !Lacks(p, sha1(ps[k].payload))
  {
    hide Window, Drops;
    DeliveredIsRemembered(log, ps, k, ticks, sha1, |p.resend.buckets|, later);
  }

  /** Taking out whoever has a hash and then storing a peer under it replaces the former one. */
  lemma {:induction false} Replaced(peers: Table, p: Peer)
    ensures (peers - {p.hash})[p.hash := p] == peers[p.hash := p]
  {
  }

  /** `shuffleTrimShare` works on a copy. */
  method ShuffleTrimShare(list: seq<Endpoint>, amount: nat, rng: nat -> seq<nat>) returns (r: seq<Endpoint>)
    requires Shuffles(rng)
    ensures r == TrimmedShare(list, amount, rng)
  {
    if |list| == 0 {
      return [];
    }
    r := Permuted(list, rng(|list|));
    if |r| > amount {
      r := r[..amount];
    }
  }

  /** The peers a broadcast may go to: all stored ones, or with the filter on those whose window lacks the hash. */
  ghost predicate Allowed(peers: Table, filter: bool, hash: Digest, r: seq<Peer>)
    reads set h | h in peers :: peers[h].resend
  {
    && Distinct(r)
    && (forall p :: p in r ==> p.hash in peers && peers[p.hash] == p)
    && forall h :: h in peers ==> (peers[h] in r <==> !filter || Lacks(peers[h], hash))
  }

  /** Some stored peers, each once. */
  ghost predicate Stored(r: seq<Peer>, peers: Table) {
    Distinct(r) && forall p :: p in r ==> p.hash in peers && peers[p.hash] == p
  }

  /** The channel of `p`, which held `before`, was given the parcel, unless the peer is stopped. */
  ghost predicate Handed(p: Peer, before: seq<Parcel>, parcel: Parcel)
    reads p, p.send
  {
    if p.stopped then p.send.queue == before
    else |before| <= p.send.capacity && p.send.queue == AfterSend(p.send.capacity, before, parcel)
  }

  /** Every stored peer has a channel of its own. */
  ghost predicate Channels(peers: Table)
    reads set h | h in peers :: peers[h].send
  {
    && (forall h :: h in peers ==> peers[h].send.Valid())
    && forall h, k :: h in peers && k in peers && h != k ==> peers[h].send != peers[k].send
  }

  function ChannelsOf(peers: Table): set<ParcelChannel<Parcel>> {
    set h | h in peers :: peers[h].send
  }

  /** Stored peers have channels of their own. */
  lemma {:induction false} OwnChannels(peers: Table, r: seq<Peer>)
    requires Channels(peers) && Stored(r, peers)
    ensures forall p :: p in r ==> p.send.Valid()
    ensures forall i, j :: 0 <= i < j < |r| ==> r[i].send != r[j].send
    ensures forall p :: p in r ==> p in peers.Values && p.send in ChannelsOf(peers)
    ensures forall h, p :: h in peers && p in r && peers[h] != p ==> peers[h].send != p.send
  {
    forall p | p in r ensures p in peers.Values && p.send in ChannelsOf(peers) {
      assert p.hash in peers;
    }
    forall i, j | 0 <= i < j < |r| ensures r[i].send != r[j].send {
      assert r[i].hash != r[j].hash;
    }
  }

  /** The loop of `selectNoResendPeers`. */
  method WithoutHash(all: seq<Peer>, hash: Digest) returns (r: seq<Peer>)
    requires Distinct(all) && forall p :: p in all ==> p.resend != null && p.resend.Valid()
    ensures Distinct(r)
    ensures forall p :: p in r ==> p in all && Lacks(p, hash)
    ensures forall p :: p in all && Lacks(p, hash) ==> p in r
  {
    hide Remembered, BucketOf;
    r := [];
    for i := 0 to |all|
      invariant Distinct(r) && forall p :: p in r ==> p in all[..i] && Lacks(p, hash)
      invariant forall k :: 0 <= k < i && Lacks(all[k], hash) ==> all[k] in r
    {
      var p := all[i];
      assert p in all && p !in all[..i];
      var seen := p.resend.Has(hash);
      if !seen {
        r := r + [p];
      }
    }
  }

  /** `selectBroadcastPeers` */
  method SelectBroadcastPeers(peers: seq<Peer>, fanout: nat, marks: map<bytes, bool>, rng: nat -> seq<nat>) returns (r: seq<Peer>)
    requires Shuffles(rng)
    ensures r == BroadcastSelection(peers, fanout, IsSpecial(marks), rng)
  {
    hide IsSpecial;
    if |peers| <= fanout {
      return peers;
    }
    var special, regular := [], [];
    for i := 0 to |peers|
      invariant special == Select(peers[..i], IsSpecial(marks))
      invariant regular == Select(peers[..i], Not(IsSpecial(marks)))
    {
      assert peers[..i + 1] == peers[..i] + [peers[i]];
      SelectSnoc(peers[..i], peers[i], IsSpecial(marks));
      SelectSnoc(peers[..i], peers[i], Not(IsSpecial(marks)));
      if IsSpecial(marks)(peers[i]) {
        special := special + [peers[i]];
      } else {
        regular := regular + [peers[i]];
      }
    }
    assert peers[..|peers|] == peers;
    if |regular| < fanout {
      return special + regular;
    }
    regular := Permuted(regular, rng(|regular|));
    r := special + regular[..fanout];
  }

  function SendsOf(ps: seq<Peer>): set<ParcelChannel<Parcel>> {
    set p | p in ps :: p.send
  }

  /** The loops that hand a parcel to every chosen peer. */
  method SendAll(selection: seq<Peer>, parcel: Parcel)
    requires Distinct(selection) && forall p :: p in selection ==> p.send.Valid()
    requires forall i, j :: 0 <= i < j < |selection| ==> selection[i].send != selection[j].send
    modifies selection`dropped, SendsOf(selection)
    ensures forall k :: 0 <= k < |selection| ==> Handed(selection[k], old(selection[k].send.queue), parcel)
  {
    hide AfterSend;
    for i := 0 to |selection|
      invariant forall k :: 0 <= k < |selection| ==> selection[k].send.Valid()
      invariant forall k :: 0 <= k < i ==> Handed(selection[k], old(selection[k].send.queue), parcel)
      invariant forall k :: i <= k < |selection| ==> selection[k].send.queue == old(selection[k].send.queue)
    {
      selection[i].Send(parcel);
    }
  }

  lemma {:induction false} NothingStopped(queue: seq<PeerStatus>)
    ensures queue + Offline([]) == queue
  {
  }

  /** The drop loop of `runCatRound`. */
  method DropPeers(peers: seq<Peer>, toDrop: int, marks: map<bytes, bool>, rng: nat -> seq<nat>, status: StatusChannel)
    returns (stopped: seq<Peer>)
    requires Shuffles(rng) && Distinct(peers) && toDrop <= |peers|
    modifies peers`stopped, status
    ensures stopped == DropSelection(peers, |peers| - toDrop, IsSpecial(marks), rng)
    ensures forall p :: p in stopped ==> p.stopped
    ensures forall p :: p in peers && p !in stopped ==> p.stopped == old(p.stopped)
    ensures (forall p :: p in peers ==> !old(p.stopped)) ==> status.queue == old(status.queue) + Offline(stopped)
  {
    hide IsSpecial, Select, Offline, Permuted;
    stopped := [];
    NothingStopped(status.queue);
    if toDrop > 0 {
      var perm := rng(|peers|);
      ghost var order := Permuted(peers, perm);
      ghost var wanted := Not(IsSpecial(marks));
      PermutedDistinct(peers, perm);
      NothingSelected(order, wanted);
      var dropped := 0;
      for k := 0 to |perm|
        invariant stopped == Select(order[..k], wanted) && dropped == |stopped| < toDrop
        invariant forall p :: p in stopped ==> p.stopped
        invariant forall p :: p in peers && p !in stopped ==> p.stopped == old(p.stopped)
        invariant forall j :: k <= j < |order| ==> order[j].stopped == old(order[j].stopped)
        invariant (forall p :: p in peers ==> !old(p.stopped)) ==> status.queue == old(status.queue) + Offline(stopped)
      {
        var p := peers[perm[k]];
        SelectUpTo(order, k, wanted);
        if IsSpecial(marks)(p) {
          continue;
        }
        p.Stop(status);
        OfflineSnoc(old(status.queue), stopped, p);
        stopped := stopped + [p];
        dropped := dropped + 1;
        if dropped >= toDrop {
          return;
        }
      }
      assert order[..|order|] == order;
    }
  }

  lemma {:induction false} NothingSelected<T>(s: seq<T>, property: T -> bool)
    ensures Select(s[..0], property) == []
  {
  }

  /** The first `k + 1` entries, and that they come first in the whole. */
  lemma {:induction false} SelectUpTo<T>(s: seq<T>, k: nat, property: T -> bool)
    requires k < |s|
    ensures Select(s[..k + 1], property) == Select(s[..k], property) + if property(s[k]) then [s[k]] else []
    ensures Select(s[..k + 1], property) <= Select(s, property)
  {
    assert s[..k + 1] == s[..k] + [s[k]];
    SelectSnoc(s[..k], s[k], property);
    assert s == s[..k + 1] + s[k + 1..];
    SelectConcat(s[..k + 1], s[k + 1..], property);
  }

  lemma {:induction false} OfflineSnoc(queue: seq<PeerStatus>, ps: seq<Peer>, p: Peer)
    ensures queue + Offline(ps) + [PeerStatus(p, false)] == queue + Offline(ps + [p])
  {
    OfflineAppend(ps, p);
    Associate(queue, Offline(ps), [PeerStatus(p, false)]);
  }

  lemma {:induction false} OfflineAppend(ps: seq<Peer>, p: Peer)
    ensures Offline(ps + [p]) == Offline(ps) + [PeerStatus(p, false)]
  {
    if ps == [] {
      assert ps + [p] == [p];
    } else {
      assert (ps + [p])[1..] == ps[1..] + [p];
      OfflineAppend(ps[1..], p);
    }
  }

  /** The loop of `makePeerShare`. */
  method ShareFrom(peers: seq<Peer>, exclude: Endpoint, amount: nat, rng: nat -> seq<nat>) returns (list: seq<Endpoint>)
    requires Shuffles(rng)
    ensures list == EndpointsOf(ShareSelection(peers, exclude, amount, rng))
  {
    hide Select, Permuted, EndpointsOf;
    list := [];
    var perm := rng(|peers|);
    ghost var order := Permuted(peers, perm);
    ghost var chosen: seq<Peer> := [];
    NothingSelected(order, Elsewhere(exclude));
    for k := 0 to |perm|
      invariant chosen == Select(order[..k], Elsewhere(exclude)) && list == EndpointsOf(chosen)
      invariant |list| < Max(amount, 1)
    {
      var p := peers[perm[k]];
      SelectUpTo(order, k, Elsewhere(exclude));
      if exclude == p.endpoint {
        continue;
      }
      EndpointsSnoc(chosen, p);
      chosen := chosen + [p];
      list := list + [p.endpoint];
      if |list| >= amount {
        return;
      }
    }
    assert order[..|order|] == order;
  }

  lemma {:induction false} EndpointsSnoc(ps: seq<Peer>, p: Peer)
    ensures EndpointsOf(ps + [p]) == EndpointsOf(ps) + [p.endpoint]
  {
  }
}
