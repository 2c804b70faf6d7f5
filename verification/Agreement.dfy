/**
  Two nodes and a connection that may break at any byte: whatever happens,
  those that end up connected speak the same protocol.
 */
module Agreement {
  import opened Words
  import opened Records
  import opened Network
  import opened ProtocolV11
  import opened Negotiation

  /** The dialer, the listener, and where each sees the other. */
  datatype Setup = Setup(dialer: Config, listener: Config, ep: Endpoint, ip: slice, lib: Library)

  /**
    What has been sent to either side, what of it the listener wrote behind its reply, what the dialer had received
    beyond the reply when it detected the protocol, and how it ended on either side.
   */
  datatype State = State(
    dialed: bool, toListener: bytes, toDialer: bytes, behind: bytes, left: bytes,
    dialer: Option<Outcome>, listener: Option<Outcome>)

  const INIT := State(false, [], [], [], [], None, None)

  /** Of what is written or read, only the first `n` bytes get through before the connection breaks. */
  datatype Event =
    | DialerSends(n: nat)
    | ListenerDeclines(share: seq<Endpoint>, n: nat)
    | ListenerAnswers(read: nat, n: nat)
    | ListenerWrites(data: bytes)
    | DialerReads(read: nat)
    | DialerWrites(data: bytes)
    | DialerGivesUp
    | ListenerGivesUp

  function Front(s: bytes, n: nat): bytes {
    if n < |s| then s[..n] else s
  }

  function FirstMessage(u: Setup): bytes {
    Written(Desired(u.dialer), Greeting(u.dialer, u.dialer.instanceID), u.lib)
  }

  function Step(u: Setup, s: State, e: Event): State {
    match e
    case DialerSends(n) =>
      if s.dialed || s.dialer.Some? then s
      else
        var sent := Front(FirstMessage(u), n);
        var ok := sent == FirstMessage(u) && Fits(Desired(u.dialer), Greeting(u.dialer, u.dialer.instanceID));
        s.(dialed := true, toListener := sent, dialer := if ok then None else Some(Failed(WriteFailed)))
    case ListenerDeclines(share, n) =>
      if s.listener.Some? then s
      else
        s.(toDialer := Front(Written(Desired(u.listener), Rejection(u.listener, share), u.lib), n),
           listener := Some(Declined(share)))
    case ListenerAnswers(read, n) =>
      if s.listener.Some? then s else Answer(u, s, Detect(Front(s.toListener, read), u.listener, u.lib), n)
    case ListenerWrites(data) =>
      if IsConnected(s.listener) then s.(toDialer := s.toDialer + data, behind := s.behind + data) else s
    case DialerReads(read) =>
      if !s.dialed || s.dialer.Some? then s
      else
        var got := Front(s.toDialer, read);
        s.(dialer := Some(AfterReply(got, u.ep, u.dialer, u.lib)), left := Unread(got, u.dialer, u.lib))
    case DialerWrites(data) =>
      if IsConnected(s.dialer) then s.(toListener := s.toListener + data) else s
    case DialerGivesUp => if s.dialer.Some? then s else s.(dialer := Some(Failed(TimedOut)))
    case ListenerGivesUp => if s.listener.Some? then s else s.(listener := Some(Failed(TimedOut)))
  }

  predicate IsConnected(outcome: Option<Outcome>) {
    outcome.Some? && outcome.value.Connected?
  }

  /** The bytes received that are left to the protocol detected. */
  function Unread(s: bytes, conf: Config, lib: Library): bytes {
    var r := Detect(s, conf, lib);
    if r.Ok? then r.value.rest else []
  }

  function Answer(u: Setup, s: State, detected: Result<Taken<Detected>>, n: nat): State {
    match detected
    case Err(e) => s.(listener := Some(Failed(e)))
    case Ok(Taken(d, _)) =>
      var reply := Reply(u.listener, d.handshake.version);
      var all := Written(d.protocol, reply, u.lib);
      var ok := Front(all, n) == all && Fits(d.protocol, reply);
      s.(toDialer := Front(all, n), listener := Some(if ok then Connected(LinkTo(d, u.ip)) else Failed(WriteFailed)))
  }

  function Run(u: Setup, events: seq<Event>): State {
    if events == [] then INIT
    else Step(u, Run(u, events[..|events| - 1]), events[|events| - 1])
  }

  //// What a message is read as

  /** What the reader of a whole message sees. */
  function AsRead(prot: Protocol, hs: Handshake, lib: Library): Result<Handshake> {
    if prot == V11 then Ok(hs) else FromV9(ToV9(AsSent(prot, hs), lib), lib)
  }

  /** A message that arrives whole is judged as sent, whatever follows it, and what follows is left; of a part nothing comes. */
  lemma {:induction false} Detects(prot: Protocol, hs: Handshake, conf: Config, lib: Library, s: bytes, tail: bytes)
    requires Faithful(lib) && s <= Written(prot, hs, lib) + tail
    requires Fits(prot, hs) || tail == []
    ensures var n := |Written(prot, hs, lib)|;
            if Fits(prot, hs) && n <= |s| && AsRead(prot, hs, lib).Ok? then
              Detect(s, conf, lib) == Keep(Judge(prot == V11, AsRead(prot, hs, lib).value, conf, lib), s[n..])
            else Detect(s, conf, lib).Err?
  {
    hide Judge, FromV9, ToV9, TakeHandshake, HandshakeBytes, FitsHandshake;
    var all := Written(prot, hs, lib);
    var n := |all|;
    if n <= |s| {
      assert s[..n] == (all + tail)[..n] == all;
      assert s == all + s[n..];
    } else {
      assert s == (all + tail)[..|s|] == all[..|s|];
    }
    if prot == V11 {
      if FitsHandshake(hs) {
        if n <= |s| {
          HandshakeWhole(hs, s[n..]);
        } else {
          HandshakeCut(hs, s);
        }
      } else {
        OnlySignature(s);
      }
    } else {
      GobDetects(ToV9(AsSent(prot, hs), lib), lib, s, tail);
    }
  }

  lemma {:induction false} GobDetects(m: V9Msg, lib: Library, s: bytes, tail: bytes)
    requires Faithful(lib) && s <= lib.encode(m) + tail
    ensures |s| >= 4 ==> s[..4] != V11_SIGNATURE
    ensures |s| >= |lib.encode(m)| >= 4 ==> lib.decode(s) == Some(Taken(m, s[|lib.encode(m)|..]))
    ensures |s| < |lib.encode(m)| ==> lib.decode(s) == None
  {
    var all := lib.encode(m);
    if |s| >= 4 {
      assert s[..4] == (all + tail)[..4] == all[..4];
    }
    if |s| >= |all| {
      assert s == all + s[|all|..];
    } else {
      assert s == all[..|s|];
    }
  }

  /**
    The signature is peeked at, the handshake judged, and every parcel sent after it is still there to be read, in
    order, from its first byte on.
   */
  lemma {:induction false} ConversationDetected(hs: Handshake, ps: seq<Parcel>, tail: bytes, conf: Config, lib: Library)
    requires FitsHandshake(hs) && Refusal(hs, conf, lib) == None
    requires forall p :: p in ps ==> FitsParcel(p)
    ensures var r := Detect(HandshakeBytes(hs) + (StreamBytes(ps) + tail), conf, lib);
            && r.Ok? && r.value == Taken(Detected(V11, hs), StreamBytes(ps) + tail)
            && TakeParcels(r.value.rest, |ps|) == Ok(Taken(ps, tail))
  {
    hide TakeFrame, M.DecodeHandshake, FitsHandshake, FitsParcel, StreamBytes, HandshakeBytes, Refusal, TakeParcels;
    ConversationTaken(hs, ps, tail);
  }

  lemma {:induction false} HandshakeWhole(hs: Handshake, tail: bytes)
    requires FitsHandshake(hs)
    ensures var s := HandshakeBytes(hs) + tail;
            |s| >= 4 && s[..4] == V11_SIGNATURE && TakeHandshake(s) == Ok(Taken(hs, tail))
  {
    hide TakeFrame, M.DecodeHandshake, FitsHandshake, HandshakeBytes;
    HandshakeTaken(hs, tail);
  }

  /** Of a protocol 11 handshake that is cut short nothing is taken. */
  lemma {:induction false} HandshakeCut(hs: Handshake, s: bytes)
    requires FitsHandshake(hs) && s <= HandshakeBytes(hs) && s != HandshakeBytes(hs)
    ensures |s| >= 4 ==> s[..4] == V11_SIGNATURE && TakeHandshake(s).Err?
  {
    hide M.EncodeHandshake, TakeFrame, Frame;
    var all := HandshakeBytes(hs);
    var data := M.EncodeHandshake(ToV11(hs));
    assert all == V11_SIGNATURE + Frame(data);
    if |s| >= 4 {
      assert all[4..] == Frame(data);
      assert s[4..] == Frame(data)[..|s| - 4];
      FrameCut(data, s[4..]);
    }
  }

  /** Of a frame that is cut short nothing is taken. */
  lemma {:induction false} FrameCut(data: slice, s: bytes)
    requires |data| <= V11_MAX_PARCEL_SIZE && s <= Frame(data) && s != Frame(data)
    ensures TakeFrame(s).Err?
  {
    hide BigEndian, FromBigEndian, LengthOf;
    if |s| >= 4 {
      assert s[..4] == BigEndian(|data|);
      BigEndianRoundTrip(|data|);
    }
  }

  lemma {:induction false} OnlySignature(s: bytes)
    requires s <= V11_SIGNATURE
    ensures |s| >= 4 ==> s[..4] == V11_SIGNATURE && TakeHandshake(s).Err?
  {
  }

  /** Greetings and replies are read as sent, but for the type that protocol 9 changes. */
  lemma {:induction false} GreetingRead(prot: Protocol, conf: Config, loopback: uint64, version: uint16, lib: Library)
    ensures var hs := Greeting(conf, loopback).(version := version);
            AsRead(prot, hs, lib) == Ok(AsSent(prot, hs))
  {
    hide LittleEndian, FromLittleEndian;
    EightBytes();
    LittleEndianRoundTrip(8, loopback);
  }

  /** JSON carries these endpoints, or protocol 11 does. */
  predicate Carried(prot: Protocol, share: seq<Endpoint>, lib: Library) {
    prot == V11 || forall ep :: ep in share ==> lib.validEndpoint(ep)
  }

  /** A rejection is read as one, with the alternatives it was sent with; without any, protocols 9 and 10 fail. */
  lemma {:induction false} RejectionRead(prot: Protocol, conf: Config, share: seq<Endpoint>, lib: Library)
    requires Faithful(lib)
    ensures var r := AsRead(prot, Rejection(conf, share), lib);
            && (r.Ok? ==> r.value.parcelType == TYPE_REJECT_ALTERNATIVE)
            && (Carried(prot, share, lib) ==>
                  r == if prot != V11 && share == [] then Err(InvalidPayload) else Ok(Rejection(conf, share)))
  {
  }

  //// What the two agree on

  /** The version two nodes end up with, from what each is configured for. */
  function Agreed(u: Setup): uint16 {
    if u.dialer.version == 11 then 11
    else if u.dialer.version == 10 && u.listener.version != 9 then 10
    else 9
  }

  function Spoken(u: Setup): Protocol {
    if Agreed(u) == 11 then V11 else if Agreed(u) == 10 then V10 else V9
  }

  /** The listener takes the dialer's handshake. */
  predicate Acceptable(u: Setup) {
    && 9 <= u.dialer.version <= 11
    && u.listener.minimum <= u.dialer.version
    && u.dialer.network == u.listener.network
    && u.lib.validPort(u.dialer.listenPort)
    && Fits(Desired(u.dialer), Greeting(u.dialer, u.dialer.instanceID))
  }

  /** And the dialer takes the listener's reply, which is not its own. */
  predicate Compatible(u: Setup) {
    && Acceptable(u)
    && u.dialer.minimum <= Agreed(u)
    && u.lib.validPort(u.listener.listenPort)
    && Fits(Spoken(u), Reply(u.listener, Agreed(u)))
    && u.dialer.instanceID != u.listener.instanceID
  }

  /** The peer the dialer should have: a reply in protocol 9 asks for peers. */
  function DialerLink(u: Setup): Link {
    Link(Agreed(u), u.listener.nodeID, u.ep, Agreed(u) == 9)
  }

  /** The peer the listener should have: a greeting in protocol 9 asks for peers. */
  function ListenerLink(u: Setup): Link {
    Link(Agreed(u), u.dialer.nodeID, Endpoint(u.ip, u.dialer.listenPort), u.dialer.version == 9)
  }

  function ReplyMessage(u: Setup): bytes {
    Written(Spoken(u), Reply(u.listener, Agreed(u)), u.lib)
  }

  /** The listener makes something of the first message exactly when it is whole and acceptable. */
  lemma {:induction false} ListenerDetects(u: Setup, s: bytes)
    requires Faithful(u.lib) && s <= FirstMessage(u)
    ensures var r := Detect(s, u.listener, u.lib);
            && (r.Ok? <==> s == FirstMessage(u) && Acceptable(u))
            && (r.Ok? ==>
                  && r.value.value.protocol == Spoken(u) && r.value.value.handshake.version == Agreed(u)
                  && LinkTo(r.value.value, u.ip) == ListenerLink(u))
  {
    hide Detect, Written, Fits, Faithful, AsRead;
    var conf := u.dialer;
    assert s <= FirstMessage(u) + [];
    Detects(Desired(conf), Greeting(conf, conf.instanceID), u.listener, u.lib, s, []);
    GreetingRead(Desired(conf), conf, conf.instanceID, conf.version, u.lib);
  }

  /**
    The dialer gets its peer exactly when the reply is whole and the two are compatible, however much of what the
    listener wrote behind it has arrived already; that much is left to the protocol.
   */
  lemma {:induction false} DialerDetects(u: Setup, s: bytes, behind: bytes)
    requires Faithful(u.lib) && Acceptable(u) && s <= ReplyMessage(u) + behind
    requires Fits(Spoken(u), Reply(u.listener, Agreed(u))) || behind == []
    ensures var r := AfterReply(s, u.ep, u.dialer, u.lib);
            && !r.Declined?
            && (r.Connected? <==> |ReplyMessage(u)| <= |s| && Compatible(u))
            && (r.Connected? ==> r.link == DialerLink(u) && ReplyMessage(u) + Unread(s, u.dialer, u.lib) == s)
  {
    hide Detect, Written, Fits, Faithful, AsRead;
    var conf := u.listener;
    Detects(Spoken(u), Reply(conf, Agreed(u)), u.dialer, u.lib, s, behind);
    GreetingRead(Spoken(u), conf, conf.instanceID, Agreed(u), u.lib);
    var n := |ReplyMessage(u)|;
    if n <= |s| {
      assert s[..n] == (ReplyMessage(u) + behind)[..n] == ReplyMessage(u);
      assert s == s[..n] + s[n..];
    }
  }

  /** A rejection never makes a peer; alternatives that get through are those offered. */
  lemma {:induction false} RejectionRefused(u: Setup, share: seq<Endpoint>, s: bytes)
    requires Faithful(u.lib) && s <= Written(Desired(u.listener), Rejection(u.listener, share), u.lib)
    ensures var r := AfterReply(s, u.ep, u.dialer, u.lib);
            !r.Connected? && (r.Declined? && Carried(Desired(u.listener), share, u.lib) ==> r.alternatives == share)
  {
    hide Detect, Written, Fits, Faithful, AsRead, Carried;
    var prot, hs := Desired(u.listener), Rejection(u.listener, share);
    assert s <= Written(prot, hs, u.lib) + [];
    Detects(prot, hs, u.dialer, u.lib, s, []);
    RejectionRead(prot, u.listener, share, u.lib);
  }

  //// Every run

  ghost predicate Invariant(u: Setup, s: State) {
    ListenerInvariant(u, s) && DialerInvariant(u, s)
  }

  ghost predicate ListenerInvariant(u: Setup, s: State) {
    match s.listener
    case None => s.toDialer == [] && s.behind == [] && s.toListener <= FirstMessage(u)
    case Some(Declined(share)) =>
      s.behind == [] && s.toDialer <= Written(Desired(u.listener), Rejection(u.listener, share), u.lib)
    case Some(Connected(link)) =>
      && s.toDialer == ReplyMessage(u) + s.behind && Fits(Spoken(u), Reply(u.listener, Agreed(u)))
      && Acceptable(u) && link == ListenerLink(u)
    case Some(Failed(_)) =>
      && s.behind == []
      && (s.toDialer == [] ||
          (Acceptable(u) && s.toDialer <= ReplyMessage(u) && !(s.toDialer == ReplyMessage(u) && Compatible(u))))
  }

  ghost predicate DialerInvariant(u: Setup, s: State) {
    match s.dialer
    case None => true
    case Some(Connected(link)) =>
      Compatible(u) && link == DialerLink(u) && IsConnected(s.listener) && s.left <= s.behind
    case Some(Declined(alternatives)) => DeclinedWith(u, s.listener, alternatives)
    case Some(Failed(_)) => true
  }

  /** The listener declined, and these are the alternatives it offered. */
  predicate DeclinedWith(u: Setup, listener: Option<Outcome>, alternatives: seq<Endpoint>) {
    && listener.Some? && listener.value.Declined?
    && var share := listener.value.alternatives; Carried(Desired(u.listener), share, u.lib) ==> alternatives == share
  }

  lemma {:induction false} StepKeeps(u: Setup, s: State, e: Event)
    requires Faithful(u.lib) && Invariant(u, s)
    ensures Invariant(u, Step(u, s, e))
  {
    hide Detect, Written, Fits, Faithful, Acceptable, Compatible, AfterReply, LinkTo, ListenerLink, DialerLink, Rejection, Unread, Carried;
    match e
    case ListenerAnswers(read, n) =>
      if s.listener.None? {
        ListenerAnswerKeeps(u, s, Front(s.toListener, read), n);
      }
    case DialerReads(read) =>
      if s.dialed && s.dialer.None? {
        DialerReadKeeps(u, s, Front(s.toDialer, read));
      }
    case ListenerWrites(data) =>
      Associate(ReplyMessage(u), s.behind, data);
    case _ =>
  }

  lemma {:induction false} ListenerAnswerKeeps(u: Setup, s: State, got: bytes, n: nat)
    requires Faithful(u.lib) && Invariant(u, s) && s.listener.None? && got <= s.toListener
    ensures Invariant(u, Answer(u, s, Detect(got, u.listener, u.lib), n))
  {
    hide Detect, Written, Fits, Faithful, Acceptable, AfterReply, LinkTo, ListenerLink, DialerLink, Rejection, Unread, Carried;
    ListenerDetects(u, got);
    assert ReplyMessage(u) + [] == ReplyMessage(u);
  }

  lemma {:induction false} DialerReadKeeps(u: Setup, s: State, got: bytes)
    requires Faithful(u.lib) && Invariant(u, s) && s.dialer.None? && got <= s.toDialer
    ensures Invariant(u, s.(dialer := Some(AfterReply(got, u.ep, u.dialer, u.lib)), left := Unread(got, u.dialer, u.lib)))
  {
    hide Detect, Written, Fits, Faithful, Acceptable, Compatible, AfterReply, ListenerLink, DialerLink, Rejection, Unread, Carried;
    if s.toDialer == [] {
      NothingRead(u);
    } else if s.listener.value.Declined? {
      RejectionRefused(u, s.listener.value.alternatives, got);
    } else {
      assert s.toDialer <= ReplyMessage(u) + s.behind;
      DialerDetects(u, got, s.behind);
      if AfterReply(got, u.ep, u.dialer, u.lib).Connected? {
        if s.listener.value.Connected? {
          LeftWithin(ReplyMessage(u), Unread(got, u.dialer, u.lib), s.behind);
        }
      }
    }
  }

  lemma {:induction false} LeftWithin(reply: bytes, left: bytes, behind: bytes)
    requires reply + left <= reply + behind
    ensures left <= behind
  {
    assert left == (reply + left)[|reply|..];
    assert behind[..|left|] == (reply + behind)[|reply|..|reply| + |left|];
  }

  lemma {:induction false} NothingRead(u: Setup)
    ensures AfterReply([], u.ep, u.dialer, u.lib) == Failed(UnexpectedEOF)
  {
  }

  lemma {:induction false} RunKeeps(u: Setup, events: seq<Event>)
    requires Faithful(u.lib)
    ensures Invariant(u, Run(u, events))
    decreases |events|
  {
    hide Faithful, Step, Invariant;
    if events == [] {
      InitKeeps(u);
    } else {
      RunKeeps(u, events[..|events| - 1]);
      StepKeeps(u, Run(u, events[..|events| - 1]), events[|events| - 1]);
    }
  }

  lemma {:induction false} InitKeeps(u: Setup)
    ensures Invariant(u, INIT)
  {
  }

  /**
    Whatever happens on the way: a side that gets a peer speaks the version agreed with it, knows who it is, and only
    if the configurations allow it. The dialer gets one only if the listener has, and what the dialer has received
    beyond the reply is the front of what the listener wrote behind it. A dial that was declined never makes a peer,
    and what the dialer is told instead is what the listener offered.
   */
  lemma {:induction false} VersionAgreement(u: Setup, events: seq<Event>)
    requires Faithful(u.lib)
    ensures var s := Run(u, events);
            && (IsConnected(s.listener) ==> s.listener.value.link == ListenerLink(u) && Acceptable(u))
            && (IsConnected(s.dialer) ==>
                  && s.dialer.value.link == DialerLink(u) && Compatible(u)
                  && IsConnected(s.listener) && s.left <= s.behind && s.toDialer == ReplyMessage(u) + s.behind)
            && (s.dialer.Some? && s.dialer.value.Declined? ==> DeclinedWith(u, s.listener, s.dialer.value.alternatives))
    ensures var s, d, l := Run(u, events), u.dialer, u.listener;
            var version := if d.version == 11 then 11 else if d.version == 10 && l.version != 9 then 10 else 9;
            && (IsConnected(s.listener) ==>
                  && 9 <= d.version <= 11
                  && s.listener.value.link == Link(version, d.nodeID, Endpoint(u.ip, d.listenPort), d.version == 9))
            && (IsConnected(s.dialer) ==>
                  9 <= d.version <= 11 && s.dialer.value.link == Link(version, l.nodeID, u.ep, version == 9))
  {
    hide Run, ReplyMessage, Written, DeclinedWith, Fits;
    RunKeeps(u, events);
  }

  /** When nothing breaks, exactly the compatible nodes connect. */
  lemma {:induction false} CompatibleConnect(u: Setup, a: nat, b: nat, c: nat, d: nat)
    requires Faithful(u.lib)
    requires a >= |FirstMessage(u)| && b >= |FirstMessage(u)| && c >= |ReplyMessage(u)| && d >= |ReplyMessage(u)|
    ensures var s := Run(u, [DialerSends(a), ListenerAnswers(b, c), DialerReads(d)]);
            Compatible(u) <==> s.dialer == Some(Connected(DialerLink(u))) && s.listener == Some(Connected(ListenerLink(u)))
    ensures var s, d, l := Run(u, [DialerSends(a), ListenerAnswers(b, c), DialerReads(d)]), u.dialer, u.listener;
            var version := if d.version == 11 then 11 else if d.version == 10 && l.version != 9 then 10 else 9;
            (&& 9 <= d.version <= 11 && l.minimum <= d.version && d.minimum <= version
             && d.network == l.network && d.instanceID != l.instanceID
             && u.lib.validPort(d.listenPort) && u.lib.validPort(l.listenPort)
             && (version == 11 ==>
                   && FitsHandshake(Handshake(d.network, 11, 8, d.nodeID, d.listenPort, d.instanceID, []))
                   && FitsHandshake(Handshake(l.network, 11, 8, l.nodeID, l.listenPort, l.instanceID, [])))) <==>
            s.dialer.Some? && s.dialer.value.Connected?
  {
    hide Detect, Written, Faithful, AfterReply, LinkTo, ListenerLink, DialerLink, Rejection, Run;
    CompatibleMeans(u);
    VersionAgreement(u, [DialerSends(a), ListenerAnswers(b, c), DialerReads(d)]);
    Unroll(u, DialerSends(a), ListenerAnswers(b, c), DialerReads(d));
    ListenerDetects(u, FirstMessage(u));
    if Acceptable(u) {
      DialerDetects(u, ReplyMessage(u), []);
    }
  }

  /** Which nodes are compatible, in terms of their configurations alone. */
  lemma {:induction false} CompatibleMeans(u: Setup)
    ensures var d, l := u.dialer, u.listener;
            var version := if d.version == 11 then 11 else if d.version == 10 && l.version != 9 then 10 else 9;
            Compatible(u) <==>
            (&& 9 <= d.version <= 11 && l.minimum <= d.version && d.minimum <= version
             && d.network == l.network && d.instanceID != l.instanceID
             && u.lib.validPort(d.listenPort) && u.lib.validPort(l.listenPort)
             && (version == 11 ==>
                   && FitsHandshake(Handshake(d.network, 11, 8, d.nodeID, d.listenPort, d.instanceID, []))
                   && FitsHandshake(Handshake(l.network, 11, 8, l.nodeID, l.listenPort, l.instanceID, []))))
  {
    hide FitsHandshake;
  }

  /**
    A listener that is full: when nothing breaks, the dialer is told the alternatives exactly if it accepts the
    listener's network, version and port and the alternatives, has a number of its own, and the message can be sent and
    read.
   */
  lemma {:induction false} RejectionArrives(u: Setup, share: seq<Endpoint>, a: nat, b: nat, c: nat)
    requires Faithful(u.lib)
    requires a >= |FirstMessage(u)|
    requires var n := |Written(Desired(u.listener), Rejection(u.listener, share), u.lib)|; b >= n && c >= n
    ensures var s, d, l := Run(u, [DialerSends(a), ListenerDeclines(share, b), DialerReads(c)]), u.dialer, u.listener;
            s.dialer == Some(Declined(share)) <==>
            && (d.version == 11 ==> FitsHandshake(Handshake(d.network, 11, 8, d.nodeID, d.listenPort, d.instanceID, [])))
            && d.minimum <= l.version && d.network == l.network && d.instanceID != 0
            && u.lib.validPort(l.listenPort) && (forall ep :: ep in share ==> u.lib.validEndpoint(ep))
            && if l.version == 11 then FitsHandshake(Handshake(l.network, 11, 9, l.nodeID, l.listenPort, 0, share))
               else share != [] && (l.version == 9 || l.version == 10)
  {
    hide Detect, Written, Faithful, Run, FitsHandshake, AsRead;
    Unroll(u, DialerSends(a), ListenerDeclines(share, b), DialerReads(c));
    RejectionJudged(u, share);
  }

  lemma {:induction false} RejectionJudged(u: Setup, share: seq<Endpoint>)
    requires Faithful(u.lib)
    ensures var l, d := u.listener, u.dialer;
            AfterReply(Written(Desired(l), Rejection(l, share), u.lib), u.ep, d, u.lib) == Declined(share) <==>
            && d.minimum <= l.version && d.network == l.network && d.instanceID != 0
            && u.lib.validPort(l.listenPort) && (forall ep :: ep in share ==> u.lib.validEndpoint(ep))
            && if l.version == 11 then FitsHandshake(Handshake(l.network, 11, 9, l.nodeID, l.listenPort, 0, share))
               else share != [] && (l.version == 9 || l.version == 10)
  {
    hide Detect, Written, Faithful, FitsHandshake;
    var prot, hs := Desired(u.listener), Rejection(u.listener, share);
    var w := Written(prot, hs, u.lib);
    assert w <= w + [] && w[|w|..] == [];
    hide AsRead;
    Detects(prot, hs, u.dialer, u.lib, w, []);
    RejectionRead(prot, u.listener, share, u.lib);
  }

  lemma {:induction false} Unroll(u: Setup, a: Event, b: Event, c: Event)
    ensures Run(u, [a, b, c]) == Step(u, Step(u, Step(u, INIT, a), b), c)
  {
    hide Step;
    assert [a, b, c][..2] == [a, b] && [a, b][..1] == [a] && [a][..0] == [];
    assert Run(u, [a]) == Step(u, INIT, a);
    assert Run(u, [a, b]) == Step(u, Run(u, [a]), b);
  }
}
