/**
  The stream as a whole: from the parcels one node sends, over a connection
  that cuts their bytes anywhere, to the parcels the other node delivers.
 */
module Conversation {
  import opened Words
  import opened Records
  import opened Network
  import opened ProtocolV11
  import opened PeerHashCache
  import opened Peers
  import opened Negotiation
  import opened Agreement

  lemma {:induction false} StreamSnoc(ps: seq<Parcel>, p: Parcel)
    requires FitsParcel(p) && forall q :: q in ps ==> FitsParcel(q)
    ensures forall q :: q in ps + [p] ==> FitsParcel(q)
    ensures StreamBytes(ps + [p]) == StreamBytes(ps) + ParcelBytes(p)
  {
    hide FitsParcel, ParcelBytes;
    if ps == [] {
      assert ps + [p] == [p];
      assert StreamBytes([p]) == ParcelBytes(p) + [] == [] + ParcelBytes(p);
    } else {
      assert (ps + [p])[1..] == ps[1..] + [p];
      StreamSnoc(ps[1..], p);
      Associate(ParcelBytes(ps[0]), StreamBytes(ps[1..]), ParcelBytes(p));
    }
  }

  /** What one side sends. */
  function Speech(hs: Handshake, ps: seq<Parcel>): bytes
    requires FitsHandshake(hs) && forall p :: p in ps ==> FitsParcel(p)
  {
    HandshakeBytes(hs) + StreamBytes(ps)
  }

  lemma {:induction false} SpeechSnoc(hs: Handshake, ps: seq<Parcel>, p: Parcel)
    requires FitsHandshake(hs) && FitsParcel(p) && forall q :: q in ps ==> FitsParcel(q)
    ensures forall q :: q in ps + [p] ==> FitsParcel(q)
    ensures Speech(hs, ps + [p]) == Speech(hs, ps) + ParcelBytes(p)
  {
    hide FitsHandshake, FitsParcel, HandshakeBytes, StreamBytes, ParcelBytes;
    StreamSnoc(ps, p);
    Associate(HandshakeBytes(hs), StreamBytes(ps), ParcelBytes(p));
  }

  lemma {:induction false} SpeechPrefix(hs: Handshake, ps: seq<Parcel>, k: nat)
    requires FitsHandshake(hs) && k <= |ps| && forall p :: p in ps ==> FitsParcel(p)
    ensures forall p :: p in ps[..k] ==> FitsParcel(p)
    ensures |Speech(hs, ps[..k])| <= |Speech(hs, ps)|
    decreases |ps| - k
  {
    hide FitsHandshake, FitsParcel, ParcelBytes, Speech;
    if k == |ps| {
      assert ps[..k] == ps;
    } else {
      SpeechPrefix(hs, ps, k + 1);
      assert ps[..k + 1] == ps[..k] + [ps[k]];
      SpeechSnoc(hs, ps[..k], ps[k]);
    }
  }

  lemma {:induction false} NothingBehind(hs: Handshake)
    requires FitsHandshake(hs)
    ensures Speech(hs, []) == HandshakeBytes(hs)
  {
  }

  lemma {:induction false} ShortEnough(hs: Handshake, ps: seq<Parcel>)
    ensures FitsHandshake(hs) ==> |M.EncodeHandshake(ToV11(hs))| <= MAX_INT
    ensures forall p :: p in ps && FitsParcel(p) ==> |M.EncodeMsg(ParcelToV11(p))| <= MAX_INT
  {
  }

  /** `SendHandshake`, then `Send` of every parcel; it fails only for want of room. */
  method Speak(prot: ProtocolV11, hs: Handshake, ps: seq<Parcel>) returns (ok: bool)
    requires FitsHandshake(hs) && forall p :: p in ps ==> FitsParcel(p)
    modifies prot.conn`sent, prot.conn`room
    ensures ok == (|Speech(hs, ps)| <= old(prot.conn.room))
    ensures ok ==> prot.conn.sent == old(prot.conn.sent) + Speech(hs, ps)
  {
    hide HandshakeBytes, StreamBytes, ParcelBytes, Speech, HandshakeOnWire, ParcelOnWire, FitsHandshake, FitsParcel, ToV11, ParcelToV11;
    ghost var before := prot.conn.sent;
    ShortEnough(hs, ps);
    NothingBehind(hs);
    SpeechPrefix(hs, ps, 0);
    assert ps[..0] == [];
    ok := prot.SendHandshake(hs);
    if !ok {
      return;
    }
    for k := 0 to |ps|
      invariant forall p :: p in ps[..k] ==> FitsParcel(p)
      invariant prot.conn.sent == before + Speech(hs, ps[..k])
      invariant prot.conn.room == old(prot.conn.room) - |Speech(hs, ps[..k])|
    {
      assert ps[..k + 1] == ps[..k] + [ps[k]];
      SpeechSnoc(hs, ps[..k], ps[k]);
      SpeechPrefix(hs, ps, k + 1);
      Associate(before, Speech(hs, ps[..k]), ParcelBytes(ps[k]));
      assert ps[k] in ps;
      ok := prot.Send(ps[k]);
      if !ok {
        return;
      }
    }
    assert ps[..|ps|] == ps;
  }

  /** A connection delivers every byte, cut in some way. */
  ghost predicate Cuts(cut: bytes -> seq<bytes>) {
    forall s :: Flatten(cut(s)) == s
  }

  /** The protocol is detected from what arrives, and the loop delivers what follows. */
  method Listen(reader: BufferedReader, peer: Peer, conf: Config, lib: Library, sha1: bytes -> Digest, ticks: nat -> nat)
    returns (detected: Result<Detected>, delivered: seq<Parcel>)
    requires peer.resend != null ==> peer.resend.Valid() && peer.resend.buckets != []
    modifies reader`buffer, reader.conn`chunks
    modifies if peer.resend == null then {} else peer.resend.Repr()
    ensures match Detect(old(reader.Pending()), conf, lib)
            case Err(e) => detected == Err(e) && delivered == []
            case Ok(Taken(d, rest)) => detected == Ok(d) && delivered == ParcelsOf(rest)
  {
    hide Detect, ParcelsOf, Flatten;
    detected := DetectProtocolFromFirstMessage(reader, conf, lib);
    delivered := [];
    if detected.Ok? {
      var prot := new ProtocolV11(reader);
      delivered := peer.ReadLoop(prot, sha1, ticks);
    }
  }

  /** Handshake and parcels, sent by one side, are detected and delivered by the other: all of them, in order, and no more. */
  method Converse(speaker: ProtocolV11, hs: Handshake, ps: seq<Parcel>, cut: bytes -> seq<bytes>,
                  peer: Peer, conf: Config, lib: Library, sha1: bytes -> Digest, ticks: nat -> nat)
    returns (ok: bool, detected: Result<Detected>, delivered: seq<Parcel>)
    requires FitsHandshake(hs) && Refusal(hs, conf, lib) == None
    requires forall p :: p in ps ==> FitsParcel(p) && p.Valid()
    requires Cuts(cut) && speaker.conn.sent == []
    requires peer.resend != null ==> peer.resend.Valid() && peer.resend.buckets != []
    modifies speaker.conn`sent, speaker.conn`room
    modifies if peer.resend == null then {} else peer.resend.Repr()
    ensures ok == (|Speech(hs, ps)| <= old(speaker.conn.room))
    ensures ok ==> detected == Ok(Detected(V11, hs)) && delivered == ps
  {
    hide Detect, ParcelsOf, FitsHandshake, FitsParcel, HandshakeBytes, StreamBytes, Refusal, TakeParcels, Flatten;
    detected, delivered := Err(UnexpectedEOF), [];
    ok := Speak(speaker, hs, ps);
    if ok {
      var sent := speaker.conn.sent;
      assert sent == Speech(hs, ps);
      var conn := new Conn(cut(sent), 0);
      var reader := new BufferedReader(conn);
      assert reader.Pending() == sent;
      Whole(hs, ps, conf, lib);
      detected, delivered := Listen(reader, peer, conf, lib, sha1, ticks);
    }
  }

  lemma {:induction false} Whole(hs: Handshake, ps: seq<Parcel>, conf: Config, lib: Library)
    requires FitsHandshake(hs) && Refusal(hs, conf, lib) == None
    requires forall p :: p in ps ==> FitsParcel(p) && p.Valid()
    ensures var r := Detect(Speech(hs, ps), conf, lib);
            r.Ok? && r.value.value == Detected(V11, hs) && ParcelsOf(r.value.rest) == ps
  {
    hide Detect, ParcelsOf, FitsHandshake, FitsParcel, HandshakeBytes, StreamBytes, Refusal, TakeParcels;
    assert StreamBytes(ps) + [] == StreamBytes(ps);
    ConversationDetected(hs, ps, [], conf, lib);
    StreamDelivered(ps, []);
  }
}
