/**
  Which peers a node holds, as a function of the notifications it has handled.
 */
module Online {
  import opened Words
  import opened Peers
  import opened PeerStore

  /** One notification: coming online replaces whoever has the hash, going offline removes only that very peer. */
  function AfterStatus(peers: Table, s: PeerStatus): Table {
    if s.online then peers[s.peer.hash := s.peer] else Without(peers, s.peer)
  }

  /** The peers after a whole history, oldest notification first. */
  function Occupants(history: seq<PeerStatus>): Table {
    if history == [] then map[]
    else AfterStatus(Occupants(history[..|history| - 1]), history[|history| - 1])
  }

  /** `p` came online at entry `i`, nobody with its hash did so since, and it has not gone offline since. */
  ghost predicate LastsFrom(history: seq<PeerStatus>, i: nat, p: Peer) {
    && i < |history| && history[i] == PeerStatus(p, true)
    && forall j :: i < j < |history| ==>
         !(history[j].online && history[j].peer.hash == p.hash) && history[j] != PeerStatus(p, false)
  }

  lemma {:induction false} OccupantsKeyed(history: seq<PeerStatus>)
    ensures Keyed(Occupants(history))
  {
    if history != [] {
      OccupantsKeyed(history[..|history| - 1]);
    }
  }

  lemma {:induction false} OccupantsSnoc(history: seq<PeerStatus>, s: PeerStatus)
    ensures Occupants(history + [s]) == AfterStatus(Occupants(history), s)
  {
    var all := history + [s];
    assert all[..|all| - 1] == history;
  }

  /** The same, when one more notification is handled. */
  lemma {:induction false} LastsFromSnoc(history: seq<PeerStatus>, s: PeerStatus, i: nat, p: Peer)
    ensures LastsFrom(history + [s], i, p) <==>
            if i == |history| then s == PeerStatus(p, true)
            else LastsFrom(history, i, p) && !(s.online && s.peer.hash == p.hash) && s != PeerStatus(p, false)
  {
    var all := history + [s];
    assert forall j :: 0 <= j < |history| ==> all[j] == history[j];
    assert all[|history|] == s;
  }

  /**
    The occupant of a hash is the peer of its latest online notification, and there is one exactly as long as no
    offline notification of that very peer followed.
   */
  lemma {:induction false} OccupantIsLatest(history: seq<PeerStatus>, p: Peer)
    ensures (p.hash in Occupants(history) && Occupants(history)[p.hash] == p) <==> exists i: nat :: LastsFrom(history, i, p)
    decreases |history|
  {
    if history != [] {
      var before, s := history[..|history| - 1], history[|history| - 1];
      assert history == before + [s];
      OccupantIsLatest(before, p);
      OccupantsKeyed(before);
      if p.hash in Occupants(history) && Occupants(history)[p.hash] == p {
        if s == PeerStatus(p, true) {
          LastsFromSnoc(before, s, |before|, p);
        } else {
          var i: nat :| LastsFrom(before, i, p);
          LastsFromSnoc(before, s, i, p);
        }
      }
      if i: nat :| LastsFrom(history, i, p) {
        LastsFromSnoc(before, s, i, p);
      }
    }
  }

  /** A replaced peer that goes offline late leaves its replacement alone. */
  lemma {:induction false} ReplacementStays(history: seq<PeerStatus>, later: seq<PeerStatus>, old_: Peer, new_: Peer)
    requires old_ != new_ && old_.hash == new_.hash
    requires forall j :: 0 <= j < |later| ==> later[j] == PeerStatus(old_, false)
    ensures var table := Occupants(history + [PeerStatus(new_, true)] + later);
            new_.hash in table && table[new_.hash] == new_
  {
    var all := history + [PeerStatus(new_, true)] + later;
    forall j | |history| < j < |all| ensures all[j] == PeerStatus(old_, false) {
      assert all[j] == later[j - |history| - 1];
    }
    assert LastsFrom(all, |history|, new_);
    OccupantIsLatest(all, new_);
  }

  //// Peers that go offline together

  function Offline(ps: seq<Peer>): (r: seq<PeerStatus>)
    ensures |r| == |ps| && forall k :: 0 <= k < |ps| ==> r[k].peer == ps[k] && !r[k].online
  {
    if ps == [] then [] else [PeerStatus(ps[0], false)] + Offline(ps[1..])
  }

  /** The peers after handling `statuses`, in order. */
  function AfterAll(peers: Table, statuses: seq<PeerStatus>): Table
    decreases |statuses|
  {
    if statuses == [] then peers else AfterAll(AfterStatus(peers, statuses[0]), statuses[1..])
  }

  lemma {:induction false} OccupantsAppend(history: seq<PeerStatus>, statuses: seq<PeerStatus>)
    ensures Occupants(history + statuses) == AfterAll(Occupants(history), statuses)
    decreases |statuses|
  {
    if statuses == [] {
      assert history + statuses == history;
    } else {
      var first := history + [statuses[0]];
      assert first[..|first| - 1] == history;
      assert history + statuses == first + statuses[1..];
      OccupantsAppend(first, statuses[1..]);
    }
  }

  /** What handling a notification does to the store, operation by operation. */
  ghost function OpsOf(peers: Table, s: PeerStatus): seq<StoreOp> {
    if !s.online then [RemovePeer(s.peer)]
    else if s.peer.hash in peers then [RemovePeer(peers[s.peer.hash]), AddPeer(s.peer)]
    else [AddPeer(s.peer)]
  }

  ghost function AllOpsOf(peers: Table, statuses: seq<PeerStatus>): seq<StoreOp>
    decreases |statuses|
  {
    if statuses == [] then []
    else OpsOf(peers, statuses[0]) + AllOpsOf(AfterStatus(peers, statuses[0]), statuses[1..])
  }

  lemma {:induction false} AfterOpsConcat(peers: Table, a: seq<StoreOp>, b: seq<StoreOp>)
    ensures AfterOps(peers, a + b) == AfterOps(AfterOps(peers, a), b)
    decreases |a|
  {
    hide AfterOp;
    if a == [] {
      assert a + b == b;
    } else {
      assert (a + b)[1..] == a[1..] + b;
      AfterOpsConcat(AfterOp(peers, a[0]), a[1..], b);
    }
  }

  lemma {:induction false} StatusIsOps(peers: Table, s: PeerStatus)
    requires Keyed(peers)
    ensures AfterOps(peers, OpsOf(peers, s)) == AfterStatus(peers, s) && Keyed(AfterStatus(peers, s))
  {
    var ops := OpsOf(peers, s);
    var first := AfterOp(peers, ops[0]);
    if |ops| == 2 {
      assert ops[1..] == [ops[1]] && [ops[1]][1..] == [];
      assert AfterOps(first, [ops[1]]) == AfterOp(first, ops[1]);
      assert (peers - {s.peer.hash})[s.peer.hash := s.peer] == peers[s.peer.hash := s.peer];
    } else {
      assert ops[1..] == [];
    }
  }

  lemma {:induction false} StatusesAreOps(peers: Table, statuses: seq<PeerStatus>)
    requires Keyed(peers)
    ensures AfterOps(peers, AllOpsOf(peers, statuses)) == AfterAll(peers, statuses)
    decreases |statuses|
  {
    hide AfterStatus, OpsOf, AfterOp, Keyed;
    if statuses != [] {
      StatusIsOps(peers, statuses[0]);
      AfterOpsConcat(peers, OpsOf(peers, statuses[0]), AllOpsOf(AfterStatus(peers, statuses[0]), statuses[1..]));
      StatusesAreOps(AfterStatus(peers, statuses[0]), statuses[1..]);
    }
  }

  /** Notifications handled in a gap of `Slice` leave the store at the occupants of the longer history. */
  lemma {:induction false} OccupantsAfterGap(history: seq<PeerStatus>, statuses: seq<PeerStatus>)
    ensures AfterOps(Occupants(history), AllOpsOf(Occupants(history), statuses)) == Occupants(history + statuses)
  {
    OccupantsKeyed(history);
    StatusesAreOps(Occupants(history), statuses);
    OccupantsAppend(history, statuses);
  }

  /** Each of these peers is stored, and none is listed twice. */
  ghost predicate AllStored(peers: Table, ps: seq<Peer>) {
    && (forall k :: 0 <= k < |ps| ==> ps[k].hash in peers && peers[ps[k].hash] == ps[k])
    && forall i, j :: 0 <= i < j < |ps| ==> ps[i] != ps[j]
  }

  function Hashes(ps: seq<Peer>): set<bytes> {
    if ps == [] then {} else {ps[0].hash} + Hashes(ps[1..])
  }

  /** Once their notifications are handled, exactly these peers are gone. */
  lemma {:induction false} OfflineRemoves(peers: Table, ps: seq<Peer>)
    requires AllStored(peers, ps)
    ensures AfterAll(peers, Offline(ps)) == peers - Hashes(ps)
    ensures |peers - Hashes(ps)| == |peers| - |ps|
    decreases |ps|
  {
    hide AllStored, AfterAll, Offline, Hashes;
    if ps == [] {
      NoneOffline(peers);
    } else {
      var h, rest := ps[0].hash, ps[1..];
      var first := peers - {h};
      FirstStored(peers, ps);
      OneRemoved(peers, h);
      RestStored(peers, ps);
      OfflineRemoves(first, rest);
      FirstOffline(peers, ps);
      MinusTwice(peers, ps);
    }
  }

  lemma {:induction false} NoneOffline(peers: Table)
    ensures AfterAll(peers, Offline([])) == peers == peers - Hashes([])
  {
  }

  lemma {:induction false} MinusTwice(peers: Table, ps: seq<Peer>)
    requires ps != []
    ensures peers - {ps[0].hash} - Hashes(ps[1..]) == peers - Hashes(ps)
  {
  }

  lemma {:induction false} FirstStored(peers: Table, ps: seq<Peer>)
    requires ps != [] && AllStored(peers, ps)
    ensures ps[0].hash in peers
  {
  }

  lemma {:induction false} RestStored(peers: Table, ps: seq<Peer>)
    requires ps != [] && AllStored(peers, ps)
    ensures AllStored(peers - {ps[0].hash}, ps[1..])
  {
    assert forall k :: 0 <= k < |ps[1..]| ==> ps[1..][k] == ps[k + 1];
  }

  lemma {:induction false} FirstOffline(peers: Table, ps: seq<Peer>)
    requires ps != [] && AllStored(peers, ps)
    ensures AfterAll(peers, Offline(ps)) == AfterAll(peers - {ps[0].hash}, Offline(ps[1..]))
  {
    hide AfterAll;
    var all := Offline(ps);
    assert all[0] == PeerStatus(ps[0], false) && all[1..] == Offline(ps[1..]);
    assert AfterStatus(peers, all[0]) == peers - {ps[0].hash};
    UnfoldAll(peers, all);
  }

  lemma {:induction false} UnfoldAll(peers: Table, statuses: seq<PeerStatus>)
    requires statuses != []
    ensures AfterAll(peers, statuses) == AfterAll(AfterStatus(peers, statuses[0]), statuses[1..])
  {
  }

  lemma {:induction false} OneRemoved(peers: Table, h: bytes)
    requires h in peers
    ensures |peers - {h}| == |peers| - 1
  {
    assert peers.Keys == (peers - {h}).Keys + {h};
  }
}
