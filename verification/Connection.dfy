/**
 One connection's lifecycle (crates/net/src/connection.rs, crates/net/src/state.rs): which frames it
 answers, with what, in which format, and what every run keeps.

 A run consumes events: a decoded frame, a frame the codec refused, the read timeout, or the peer closing.
 `link` is how many more sends the transport accepts before it fails, so a run may be cut at any send.
 */
module Connection {
  import opened Bytes
  import opened Utf8
  import opened Wire
  import opened VarInt
  import opened Packets
  import opened Codec

  datatype State = Handshaking | Status | Login | Configuration | Play

  datatype NetError =
    | Protocol(error: ProtocolError)
    | IllegalTransition(from: State, to: State)
    | UnexpectedPacket(state: State, id: int)
    | DuplicateStatusRequest
    | InvalidUsername(name: bytes)
    | Timeout

  /** The status document is opaque; the offline identity is some function of the name. */
  datatype Config = Config(compression: Option<i32>, statusJson: bytes, offlineUuid: bytes -> u128)

  datatype Reply =
    | StatusReply(json: bytes)
    | PongReply(payload: i64)
    | RefusalReply(reason: bytes)
    | CompressionReply(threshold: i32)
    | SuccessReply(success: LoginSuccess)

  function ToRaw(r: Reply): RawPacket {
    match r
    case StatusReply(json) => RawPacket(0, WriteString(json))
    case PongReply(payload) => RawPacket(1, EncodeBE(8, payload))
    case RefusalReply(reason) => RawPacket(0, WriteString(reason))
    case CompressionReply(t) => RawPacket(3, WriteVarInt(t))
    case SuccessReply(s) => RawPacket(2, EncodeLoginSuccess(s))
  }

  /** A reply and the format it was encoded in. */
  datatype Outgoing = Outgoing(format: Threshold, reply: Reply)

  datatype Event = Arrived(packet: RawPacket) | Undecodable(error: ProtocolError) | TimedOut | PeerClosed

  datatype Phase = Running | Finished | Failed(error: NetError)

  datatype Conn = Conn(state: State, statusSeen: bool, threshold: Threshold, sent: seq<Outgoing>, visited: seq<State>,
                       link: nat, phase: Phase)

  function Initial(link: nat): Conn {
    Conn(Handshaking, false, None, [], [Handshaking], link, Running)
  }

  // ----- usernames -----

  predicate NameByte(b: byte) {
    0x30 <= b <= 0x39 || 0x41 <= b <= 0x5A || 0x61 <= b <= 0x7A || b == 0x5F
  }

  /** One to sixteen characters of letters, digits and underscore; all single bytes, so bytes are characters. */
  predicate ValidUsername(name: bytes) {
    name != [] && |name| <= 16 && forall i :: 0 <= i < |name| ==> NameByte(name[i])
  }

  function Ascii(text: string): (r: bytes)
    ensures |r| == |text|
  {
    seq(|text|, i requires 0 <= i < |text| => (text[i] as int) % 256)
  }

  const REFUSAL_TEXT :=
    "{\"text\":\"Invalid " + ("username. " + ("Use 1-16 characters " + ("of A-Z, a-z, " + "0-9 or _.\"}")))

  /** The text component a refused username is told. */
  function Refusal(): (r: bytes)
    ensures |r| <= 100
  {
    Ascii(REFUSAL_TEXT)
  }

  // ----- steps -----

  function Fail(c: Conn, e: NetError): Conn { c.(phase := Failed(e)) }

  function Send(c: Conn, r: Reply): Conn {
    if !Encodable(ToRaw(r)) then Fail(c, Protocol(FrameTooLarge(|Raws(ToRaw(r))|, MAX_PACKET_SIZE)))
    else if c.link == 0 then Fail(c, Protocol(Io))
    else c.(sent := c.sent + [Outgoing(c.threshold, r)], link := c.link - 1)
  }

  predicate Permitted(from: State, to: State) {
    || (from == Handshaking && (to == Status || to == Login))
    || (from == Login && to == Configuration)
  }

  function Transition(c: Conn, to: State): Conn {
    if Permitted(c.state, to) then c.(state := to, visited := c.visited + [to])
    else Fail(c, IllegalTransition(c.state, to))
  }

  function OnHandshake(c: Conn, body: bytes): Conn {
    match WholeBody(DecodeHandshake(body))
    case Err(e) => Fail(c, Protocol(e))
    case Ok(h, _) => Transition(c, if h.nextState == ToStatus then Status else Login)
  }

  function OnStatusRequest(cfg: Config, c: Conn): Conn {
    if c.statusSeen then Fail(c, DuplicateStatusRequest) else Send(c.(statusSeen := true), StatusReply(cfg.statusJson))
  }

  function OnPing(c: Conn, body: bytes): Conn {
    match WholeBody(ReadI64(body))
    case Err(e) => Fail(c, Protocol(e))
    case Ok(payload, _) =>
      var d := Send(c, PongReply(payload));
      if d.phase == Running then d.(phase := Finished) else d
  }

  function Granted(cfg: Config, name: bytes): LoginSuccess {
    LoginSuccess(GameProfile(cfg.offlineUuid(name), name, []), cfg.offlineUuid(name))
  }

  /** Announce compression in the format in force, then switch. */
  function Announce(cfg: Config, c: Conn): Conn {
    match cfg.compression
    case None => c
    case Some(t) =>
      var d := Send(c, CompressionReply(t));
      if d.phase == Running then d.(threshold := SetCompression(t)) else d
  }

  function OnLoginStart(cfg: Config, c: Conn, body: bytes): Conn {
    match WholeBody(DecodeLoginStart(body))
    case Err(e) => Fail(c, Protocol(e))
    case Ok(start, _) =>
      if !ValidUsername(start.name) then
        var d := Send(c, RefusalReply(Refusal()));
        if d.phase == Running then Fail(d, InvalidUsername(start.name)) else d
      else
        var d := Announce(cfg, c);
        if d.phase == Running then Send(d, SuccessReply(Granted(cfg, start.name))) else d
  }

  function Handle(cfg: Config, c: Conn, p: RawPacket): Conn {
    if c.state == Handshaking && p.id == 0 then OnHandshake(c, p.body)
    else if c.state == Status && p.id == 0 then OnStatusRequest(cfg, c)
    else if c.state == Status && p.id == 1 then OnPing(c, p.body)
    else if c.state == Login && p.id == 0 then OnLoginStart(cfg, c, p.body)
    else if c.state == Login && p.id == 3 then Transition(c, Configuration)
    else Fail(c, UnexpectedPacket(c.state, p.id))
  }

  function Step(cfg: Config, c: Conn, e: Event): Conn {
    match e
    case Arrived(p) => Handle(cfg, c, p)
    case Undecodable(error) => Fail(c, Protocol(error))
    case TimedOut => Fail(c, Timeout)
    case PeerClosed => c.(phase := Finished)
  }

  /** A connection that is no longer running ignores the rest of its input. */
  function Run(cfg: Config, c: Conn, events: seq<Event>): Conn
    decreases |events|
  {
    if events == [] || c.phase != Running then c else Run(cfg, Step(cfg, c, events[0]), events[1..])
  }

  // ----- what every run keeps -----

  /** The format in force after these replies: the last announced, or plain. */
  function FormatAfter(sent: seq<Outgoing>): Threshold {
    if sent == [] then None
    else match sent[|sent| - 1].reply
      case CompressionReply(t) => SetCompression(t)
      case _ => FormatAfter(sent[..|sent| - 1])
  }

  predicate OnStatus(visited: seq<State>) { |visited| == 2 && visited[1] == Status }

  predicate OnLogin(visited: seq<State>) { |visited| >= 2 && visited[1] == Login }

  /** A prefix of Handshaking-Status or of Handshaking-Login-Configuration. */
  predicate Legal(visited: seq<State>) {
    && |visited| > 0 && visited[0] == Handshaking
    && (|| |visited| == 1
        || OnStatus(visited)
        || (OnLogin(visited) && (|visited| == 2 || (|visited| == 3 && visited[2] == Configuration))))
  }

  /** Moving only along permitted edges from the start is the same as keeping to one of the two paths. */
  lemma PathsExact(path: seq<State>)
    requires path != [] && path[0] == Handshaking
    ensures (forall i :: 0 < i < |path| ==> Permitted(path[i - 1], path[i])) <==> Legal(path)
  {
    if forall i :: 0 < i < |path| ==> Permitted(path[i - 1], path[i]) {
      if |path| > 1 { assert Permitted(path[0], path[1]); }
      if |path| > 2 { assert Permitted(path[1], path[2]); }
      assert |path| > 3 ==> Permitted(path[2], path[3]);
    }
  }

  /** What a reply of this kind may carry, given the states visited. */
  ghost predicate Proper(cfg: Config, visited: seq<State>, r: Reply) {
    match r
    case StatusReply(json) => OnStatus(visited) && json == cfg.statusJson
    case PongReply(_) => OnStatus(visited)
    case RefusalReply(reason) => OnLogin(visited) && reason == Refusal()
    case CompressionReply(t) => OnLogin(visited) && cfg.compression == Some(t)
    case SuccessReply(s) =>
      OnLogin(visited) && ValidUsername(s.profile.username) && s == Granted(cfg, s.profile.username)
  }

  predicate Final(r: Reply) { r.PongReply? || r.RefusalReply? }

  predicate HasStatus(sent: seq<Outgoing>) {
    exists i :: 0 <= i < |sent| && sent[i].reply.StatusReply?
  }

  /**
   What a reply must satisfy given those before it: proper in itself and in the format then in force;
   nothing follows a pong or a refusal; one status document at most; an announcement is followed by a
   success and nothing else; and with compression configured every success follows an announcement.
   */
  ghost predicate MayFollow(cfg: Config, visited: seq<State>, before: seq<Outgoing>, o: Outgoing) {
    && Proper(cfg, visited, o.reply)
    && o.format == FormatAfter(before)
    && (before != [] ==> !Final(Last(before)))
    && (o.reply.StatusReply? ==> !HasStatus(before))
    && (before != [] && Last(before).CompressionReply? ==> o.reply.SuccessReply?)
    && (o.reply.SuccessReply? && cfg.compression.Some? ==> before != [] && Last(before).CompressionReply?)
  }

  function Last(sent: seq<Outgoing>): Reply
    requires sent != []
  {
    sent[|sent| - 1].reply
  }

  /** The replies so far, each of which may follow those before it. */
  ghost predicate Log(cfg: Config, visited: seq<State>, sent: seq<Outgoing>) {
    sent == [] ||
    (&& Log(cfg, visited, sent[..|sent| - 1])
     && MayFollow(cfg, visited, sent[..|sent| - 1], sent[|sent| - 1]))
  }

  ghost predicate Safe(cfg: Config, c: Conn) {
    && Legal(c.visited) && c.state == c.visited[|c.visited| - 1]
    && Log(cfg, c.visited, c.sent)
    && c.threshold == FormatAfter(c.sent)
    && (c.phase == Running && c.sent != [] ==> !Final(Last(c.sent)) && !Last(c.sent).CompressionReply?)
    && (HasStatus(c.sent) ==> c.statusSeen)
  }

  lemma LogSnoc(cfg: Config, visited: seq<State>, sent: seq<Outgoing>, o: Outgoing)
    requires Log(cfg, visited, sent) && MayFollow(cfg, visited, sent, o)
    ensures Log(cfg, visited, sent + [o]) && Last(sent + [o]) == o.reply
    ensures HasStatus(sent + [o]) <==> HasStatus(sent) || o.reply.StatusReply?
    ensures FormatAfter(sent + [o])
            == if o.reply.CompressionReply? then SetCompression(o.reply.threshold) else FormatAfter(sent)
  {
    hide MayFollow;
    var next := sent + [o];
    assert next[..|next| - 1] == sent && next[|next| - 1] == o;
    if HasStatus(sent) {
      var i :| 0 <= i < |sent| && sent[i].reply.StatusReply?;
      assert next[i] == sent[i];
    }
  }

  /** Entering a state only widens what replies may be proper. */
  lemma {:induction false} LogWidens(cfg: Config, from: seq<State>, to: State, sent: seq<Outgoing>)
    requires Log(cfg, from, sent) && Legal(from) && Legal(from + [to])
    ensures Log(cfg, from + [to], sent)
    decreases |sent|
  {
    hide FormatAfter, HasStatus, Granted, ValidUsername, Refusal;
    if sent != [] {
      LogWidens(cfg, from, to, sent[..|sent| - 1]);
    }
  }

  lemma SendSafe(cfg: Config, c: Conn, r: Reply, phase: Phase)
    requires Safe(cfg, c) && c.phase == Running && Proper(cfg, c.visited, r) && !r.CompressionReply?
    requires r.StatusReply? ==> !HasStatus(c.sent)
    requires r.SuccessReply? ==> cfg.compression.None?
    requires Final(r) ==> phase != Running
    ensures var d := Send(c, r);
            Safe(cfg, if d.phase == Running
                      then d.(phase := phase, statusSeen := c.statusSeen || r.StatusReply?)
                      else d)
  {
    hide Encodable, ToRaw, Proper, Legal, Raws, HasStatus, FormatAfter, Log, Refusal;
    LogSnoc(cfg, c.visited, c.sent, Outgoing(c.threshold, r));
  }

  /** Between an announcement and the success that must follow it. */
  ghost predicate Announced(cfg: Config, c: Conn) {
    && Legal(c.visited) && c.state == Login && c.state == c.visited[|c.visited| - 1]
    && Log(cfg, c.visited, c.sent)
    && c.threshold == FormatAfter(c.sent)
    && c.phase == Running && (c.sent != [] ==> !Final(Last(c.sent)))
    && (HasStatus(c.sent) ==> c.statusSeen)
    && (cfg.compression.Some? <==> c.sent != [] && Last(c.sent).CompressionReply?)
  }

  lemma AnnounceSafe(cfg: Config, c: Conn)
    requires Safe(cfg, c) && c.phase == Running && c.state == Login
    ensures var d := Announce(cfg, c); if d.phase == Running then Announced(cfg, d) else Safe(cfg, d)
  {
    hide Refusal, HasStatus, FormatAfter, Log, ToRaw, Encodable, Raws;
    assert OnLogin(c.visited);
    hide Legal, OnLogin, Granted, ValidUsername;
    if cfg.compression.Some? {
      LogSnoc(cfg, c.visited, c.sent, Outgoing(c.threshold, CompressionReply(cfg.compression.value)));
    }
  }

  lemma SuccessSafe(cfg: Config, c: Conn, name: bytes)
    requires Announced(cfg, c) && ValidUsername(name)
    ensures Safe(cfg, Send(c, SuccessReply(Granted(cfg, name))))
  {
    hide Refusal, HasStatus, FormatAfter, Log, ToRaw, Encodable, Raws;
    var o := Outgoing(c.threshold, SuccessReply(Granted(cfg, name)));
    assert Proper(cfg, c.visited, o.reply);
    hide Legal, Proper, Granted, ValidUsername;
    LogSnoc(cfg, c.visited, c.sent, o);
  }

  lemma LoginStartSafe(cfg: Config, c: Conn, body: bytes)
    requires Safe(cfg, c) && c.phase == Running && c.state == Login
    ensures Safe(cfg, OnLoginStart(cfg, c, body))
  {
    hide Encodable, ToRaw, Log, FormatAfter, HasStatus, DecodeLoginStart, Raws, Announce, Granted, Refusal,
         ValidUsername;
    var r := WholeBody(DecodeLoginStart(body));
    if r.Ok? && ValidUsername(r.value.name) {
      AnnounceSafe(cfg, c);
      if Announce(cfg, c).phase == Running { SuccessSafe(cfg, Announce(cfg, c), r.value.name); }
    } else if r.Ok? {
      SendSafe(cfg, c, RefusalReply(Refusal()), Failed(InvalidUsername(r.value.name)));
    }
  }

  lemma MoveSafe(cfg: Config, c: Conn, to: State)
    requires Safe(cfg, c) && c.phase == Running
    ensures Safe(cfg, Transition(c, to))
  {
    hide Log, FormatAfter, HasStatus;
    if Permitted(c.state, to) {
      LogWidens(cfg, c.visited, to, c.sent);
    }
  }

  lemma HandshakeSafe(cfg: Config, c: Conn, body: bytes)
    requires Safe(cfg, c) && c.phase == Running
    ensures Safe(cfg, OnHandshake(c, body))
  {
    hide Log, FormatAfter, HasStatus, Legal, DecodeHandshake, Transition;
    MoveSafe(cfg, c, Status);
    MoveSafe(cfg, c, Login);
  }

  lemma StatusSafe(cfg: Config, c: Conn)
    requires Safe(cfg, c) && c.phase == Running && c.state == Status
    ensures Safe(cfg, OnStatusRequest(cfg, c))
  {
    hide Encodable, ToRaw, Log, FormatAfter, HasStatus, Raws, Refusal, Granted, ValidUsername;
    if !c.statusSeen { SendSafe(cfg, c, StatusReply(cfg.statusJson), Running); }
  }

  lemma PingSafe(cfg: Config, c: Conn, body: bytes)
    requires Safe(cfg, c) && c.phase == Running && c.state == Status
    ensures Safe(cfg, OnPing(c, body))
  {
    hide Encodable, ToRaw, Log, FormatAfter, HasStatus, ReadI64, Raws, Refusal, Granted, ValidUsername;
    var r := WholeBody(ReadI64(body));
    if r.Ok? { SendSafe(cfg, c, PongReply(r.value), Finished); }
  }

  lemma StepSafe(cfg: Config, c: Conn, e: Event)
    requires Safe(cfg, c) && c.phase == Running
    ensures Safe(cfg, Step(cfg, c, e))
  {
    hide Log, FormatAfter, HasStatus, Legal, OnHandshake, OnStatusRequest, OnPing, OnLoginStart, Transition;
    if e.Arrived? {
      HandshakeSafe(cfg, c, e.packet.body);
      MoveSafe(cfg, c, Configuration);
      if c.state == Status { StatusSafe(cfg, c); PingSafe(cfg, c, e.packet.body); }
      if c.state == Login { LoginStartSafe(cfg, c, e.packet.body); }
    }
  }

  /**
   Whole-run safety. Whatever the events and wherever the transport fails: the states visited are a prefix
   of Handshaking-Status or Handshaking-Login-Configuration; the log of replies is well formed.
   */
  lemma {:induction false} RunSafe(cfg: Config, c: Conn, events: seq<Event>)
    requires Safe(cfg, c)
    ensures Safe(cfg, Run(cfg, c, events))
    decreases |events|
  {
    hide Safe, Step;
    if events != [] && c.phase == Running {
      StepSafe(cfg, c, events[0]);
      RunSafe(cfg, Step(cfg, c, events[0]), events[1..]);
    }
  }

  lemma RunFromStartSafe(cfg: Config, link: nat, events: seq<Event>)
    ensures Safe(cfg, Run(cfg, Initial(link), events))
  {
    RunSafe(cfg, Initial(link), events);
  }

  /** The format the configuration asks for; a negative threshold asks for the plain one. */
  function Configured(cfg: Config): Threshold {
    match cfg.compression case None => None case Some(t) => SetCompression(t)
  }

  lemma {:induction false} LogAt(cfg: Config, visited: seq<State>, sent: seq<Outgoing>, i: nat)
    requires Log(cfg, visited, sent) && i < |sent|
    ensures MayFollow(cfg, visited, sent[..i], sent[i])
    decreases |sent|
  {
    hide MayFollow;
    var init := sent[..|sent| - 1];
    if i < |init| {
      LogAt(cfg, visited, init, i);
      assert init[..i] == sent[..i];
    }
  }

  lemma {:induction false} FormatIsLastAnnounced(cfg: Config, visited: seq<State>, sent: seq<Outgoing>)
    requires Log(cfg, visited, sent)
    ensures FormatAfter(sent)
            == if exists k :: 0 <= k < |sent| && sent[k].reply.CompressionReply? then Configured(cfg) else None
    decreases |sent|
  {
    hide HasStatus, Granted, Refusal, ValidUsername;
    if sent != [] {
      var init := sent[..|sent| - 1];
      FormatIsLastAnnounced(cfg, visited, init);
      assert forall k :: 0 <= k < |init| ==> init[k] == sent[k];
    }
  }

  lemma {:induction false} LogPrefix(cfg: Config, visited: seq<State>, sent: seq<Outgoing>, i: nat)
    requires Log(cfg, visited, sent) && i <= |sent|
    ensures Log(cfg, visited, sent[..i])
    decreases |sent|
  {
    hide MayFollow;
    if i < |sent| {
      LogPrefix(cfg, visited, sent[..|sent| - 1], i);
      assert sent[..|sent| - 1][..i] == sent[..i];
    } else {
      assert sent[..i] == sent;
    }
  }

  /**
   The format switch: every reply up to and including the first announcement is plain, and every reply
   after it is in the configured format, a second announcement included.
   */
  lemma FormatSwitch(cfg: Config, link: nat, events: seq<Event>)
    ensures var sent := Run(cfg, Initial(link), events).sent;
            forall i :: 0 <= i < |sent| ==>
              sent[i].format
              == if exists k :: 0 <= k < i && sent[k].reply.CompressionReply? then Configured(cfg) else None
  {
    hide Run, FormatAfter, Proper, HasStatus, Log, Legal, Configured, Refusal;
    RunFromStartSafe(cfg, link, events);
    var c := Run(cfg, Initial(link), events);
    forall i | 0 <= i < |c.sent|
      ensures c.sent[i].format
              == if exists k :: 0 <= k < i && c.sent[k].reply.CompressionReply? then Configured(cfg) else None
    {
      LogAt(cfg, c.visited, c.sent, i);
      LogPrefix(cfg, c.visited, c.sent, i);
      FormatIsLastAnnounced(cfg, c.visited, c.sent[..i]);
    }
  }

  /** In every run: a pong or a refusal is the last reply, and there is at most one status document. */
  lemma LastWords(cfg: Config, link: nat, events: seq<Event>)
    ensures var sent := Run(cfg, Initial(link), events).sent;
            && (forall i :: 0 <= i < |sent| - 1 ==> !Final(sent[i].reply))
            && (forall i, j :: 0 <= i < j < |sent| && sent[i].reply.StatusReply? ==> !sent[j].reply.StatusReply?)
  {
    hide Run, FormatAfter, Proper, Log, Legal, Refusal;
    RunFromStartSafe(cfg, link, events);
    var c := Run(cfg, Initial(link), events);
    forall i | 0 <= i < |c.sent| - 1
      ensures !Final(c.sent[i].reply)
    {
      LogAt(cfg, c.visited, c.sent, i + 1);
      assert Last(c.sent[..i + 1]) == c.sent[i].reply;
    }
    forall i, j | 0 <= i < j < |c.sent| && c.sent[i].reply.StatusReply?
      ensures !c.sent[j].reply.StatusReply?
    {
      LogAt(cfg, c.visited, c.sent, j);
      assert c.sent[..j][i] == c.sent[i];
    }
  }

  // ----- exchanges that complete -----

  lemma RunOne(cfg: Config, c: Conn, e: Event, rest: seq<Event>)
    ensures Run(cfg, c, [e] + rest) == if c.phase == Running then Run(cfg, Step(cfg, c, e), rest) else c
  {
    hide Step;
    assert ([e] + rest)[1..] == rest;
  }

  lemma RunThree(cfg: Config, c: Conn, a: Event, b: Event, d: Event)
    requires c.phase == Running && Step(cfg, c, a).phase == Running
    requires Step(cfg, Step(cfg, c, a), b).phase == Running
    ensures Run(cfg, c, [a, b, d]) == Step(cfg, Step(cfg, Step(cfg, c, a), b), d)
  {
    hide Step;
    assert [a, b, d] == [a] + [b, d] && [b, d] == [b] + [d] && [d] == [d] + [];
    RunOne(cfg, c, a, [b, d]);
    RunOne(cfg, Step(cfg, c, a), b, [d]);
    var c2 := Step(cfg, Step(cfg, c, a), b);
    RunOne(cfg, c2, d, []);
  }

  lemma SmallBodies(t: i32, s: LoginSuccess)
    requires |s.profile.username| <= 16 && s.profile.properties == []
    ensures |Raws(ToRaw(CompressionReply(t)))| <= 10 && |Raws(ToRaw(SuccessReply(s)))| <= 100
  {
    hide WriteVarInt, EncodeBE, CastI32;
    VarIntRoundTrip(t, []);
    VarIntRoundTrip(2, []);
    VarIntRoundTrip(3, []);
    VarIntRoundTrip(CastI32(|s.profile.username|), []);
    VarIntRoundTrip(CastI32(0), []);
    assert EncodeProperties([]) == [];
  }

  /** The replies a good login start earns when the format in force is `th`. */
  function LoginReplies(cfg: Config, th: Threshold, name: bytes): seq<Outgoing> {
    match cfg.compression
    case None => [Outgoing(th, SuccessReply(Granted(cfg, name)))]
    case Some(t) => [Outgoing(th, CompressionReply(t)), Outgoing(SetCompression(t), SuccessReply(Granted(cfg, name)))]
  }

  /**
   Any login start, first or repeated, whose name fits its field: a good name is answered and leaves the
   connection in login, ready for another; a bad one is told so in the format in force, which stays, and
   ends the connection.
   */
  lemma LoginAnswered(cfg: Config, c: Conn, name: bytes, claimed: u128)
    requires c.phase == Running && c.state == Login && c.link >= 2
    requires IsUtf8(name) && |name| <= 48
    ensures Step(cfg, c, Arrived(RawPacket(0, EncodeLoginStart(LoginStart(name, claimed))))) ==
            if ValidUsername(name)
            then c.(sent := c.sent + LoginReplies(cfg, c.threshold, name),
                    link := c.link - |LoginReplies(cfg, c.threshold, name)|,
                    threshold := if cfg.compression.Some? then Configured(cfg) else c.threshold)
            else c.(sent := c.sent + [Outgoing(c.threshold, RefusalReply(Refusal()))],
                    link := c.link - 1, phase := Failed(InvalidUsername(name)))
  {
    RefusalSmall();
    hide EncodeLoginStart, DecodeLoginStart, IsUtf8, Raws, ToRaw, Refusal, NameByte;
    var body := EncodeLoginStart(LoginStart(name, claimed));
    assert body + [] == body;
    LoginStartExact(LoginStart(name, claimed), []);
    if ValidUsername(name) {
      SmallBodies(if cfg.compression.Some? then cfg.compression.value else 0, Granted(cfg, name));
      assert c.sent + LoginReplies(cfg, c.threshold, name) ==
             if cfg.compression.None? then c.sent + [LoginReplies(cfg, c.threshold, name)[0]]
             else c.sent + [LoginReplies(cfg, c.threshold, name)[0]] + [LoginReplies(cfg, c.threshold, name)[1]];
    }
  }

  lemma RefusalSmall()
    ensures |Raws(ToRaw(RefusalReply(Refusal())))| <= 200
  {
    hide Refusal;
    VarIntRoundTrip(0, []);
    VarIntRoundTrip(CastI32(|Refusal()|), []);
    hide WriteVarInt, CastI32;
  }

  /** A login that follows the protocol reaches configuration with exactly the replies the design promises. */
  lemma FullLogin(cfg: Config, h: Handshake, name: bytes, claimed: u128, link: nat)
    requires IsUtf8(h.serverAddress) && |h.serverAddress| <= 765
    requires h.nextState != ToStatus && ValidUsername(name) && link >= 2
    ensures var c := Run(cfg, Initial(link), [Arrived(RawPacket(0, EncodeHandshake(h))),
                                              Arrived(RawPacket(0, EncodeLoginStart(LoginStart(name, claimed)))),
                                              Arrived(RawPacket(3, []))]);
            && c.phase == Running && c.visited == [Handshaking, Login, Configuration]
            && c.sent == LoginReplies(cfg, None, name)
  {
    hide EncodeHandshake, DecodeHandshake, EncodeLoginStart, OnLoginStart, IsUtf8, Run, Refusal;
    var hb, lb := EncodeHandshake(h), EncodeLoginStart(LoginStart(name, claimed));
    assert hb + [] == hb;
    HandshakeExact(h, []);
    AsciiIsUtf8(name);
    var c1 := Step(cfg, Initial(link), Arrived(RawPacket(0, hb)));
    assert c1 == Initial(link).(state := Login, visited := [Handshaking, Login]);
    LoginAnswered(cfg, c1, name, claimed);
    RunThree(cfg, Initial(link), Arrived(RawPacket(0, hb)), Arrived(RawPacket(0, lb)), Arrived(RawPacket(3, [])));
  }

  lemma PongSmall(payload: i64)
    ensures Encodable(ToRaw(PongReply(payload)))
  {
    VarIntRoundTrip(1, []);
  }

  /** A status exchange: the document once, the ping payload echoed bit for bit, then the connection closes. */
  lemma FullStatus(cfg: Config, h: Handshake, junk: bytes, payload: i64, link: nat)
    requires IsUtf8(h.serverAddress) && |h.serverAddress| <= 765
    requires h.nextState == ToStatus && link >= 2 && Encodable(ToRaw(StatusReply(cfg.statusJson)))
    ensures var c := Run(cfg, Initial(link), [Arrived(RawPacket(0, EncodeHandshake(h))), Arrived(RawPacket(0, junk)),
                                              Arrived(RawPacket(1, EncodeBE(8, payload)))]);
            && c.phase == Finished && c.visited == [Handshaking, Status]
            && c.sent == [Outgoing(None, StatusReply(cfg.statusJson)), Outgoing(None, PongReply(payload))]
  {
    PongSmall(payload);
    hide EncodeHandshake, DecodeHandshake, EncodeBE, ReadI64, IsUtf8, Run, Raws, ToRaw, Encodable, Refusal;
    var hb, pb := EncodeHandshake(h), EncodeBE(8, payload);
    assert hb + [] == hb && pb + [] == pb;
    HandshakeExact(h, []);
    I64RoundTrip(payload, []);
    var c1 := Step(cfg, Initial(link), Arrived(RawPacket(0, hb)));
    assert c1 == Initial(link).(state := Status, visited := [Handshaking, Status]);
    var c2 := Step(cfg, c1, Arrived(RawPacket(0, junk)));
    assert c2 == c1.(statusSeen := true, sent := [Outgoing(None, StatusReply(cfg.statusJson))], link := link - 1);
    RunThree(cfg, Initial(link), Arrived(RawPacket(0, hb)), Arrived(RawPacket(0, junk)), Arrived(RawPacket(1, pb)));
  }

  // ----- what reaching configuration means -----

  /** How many login successes were sent. */
  function Successes(sent: seq<Outgoing>): nat {
    if sent == [] then 0
    else Successes(sent[..|sent| - 1]) + (if sent[|sent| - 1].reply.SuccessReply? then 1 else 0)
  }

  predicate HasSuccess(sent: seq<Outgoing>) {
    exists i :: 0 <= i < |sent| && sent[i].reply.SuccessReply?
  }

  lemma {:induction false} SuccessesExact(sent: seq<Outgoing>)
    ensures HasSuccess(sent) <==> Successes(sent) > 0
  {
    if sent != [] {
      var init := sent[..|sent| - 1];
      SuccessesExact(init);
      assert forall i :: 0 <= i < |init| ==> init[i] == sent[i];
    }
  }

  lemma SuccessesSnoc(sent: seq<Outgoing>, o: Outgoing)
    ensures Successes(sent + [o]) == Successes(sent) + (if o.reply.SuccessReply? then 1 else 0)
  {
    assert (sent + [o])[..|sent|] == sent;
  }

  /** A login start the connection survives is answered by one success. */
  lemma StartCounts(cfg: Config, c: Conn, body: bytes)
    requires c.phase == Running && c.state == Login
    ensures var d := OnLoginStart(cfg, c, body);
            d.state == Login && (d.phase == Running ==> Successes(d.sent) == Successes(c.sent) + 1)
  {
    hide DecodeLoginStart, ValidUsername, Encodable, Raws, ToRaw, Granted, Refusal, Successes;
    var r := WholeBody(DecodeLoginStart(body));
    if r.Ok? && ValidUsername(r.value.name) {
      var d := Announce(cfg, c);
      if cfg.compression.Some? {
        SuccessesSnoc(c.sent, Outgoing(c.threshold, CompressionReply(cfg.compression.value)));
      }
      SuccessesSnoc(d.sent, Outgoing(d.threshold, SuccessReply(Granted(cfg, r.value.name))));
    }
  }

  /** The acknowledgement is event `k`, and everything from `first` up to it is a login start. */
  predicate Acknowledged(events: seq<Event>, first: nat, k: nat) {
    && first <= k < |events| && events[k].Arrived? && events[k].packet.id == 3
    && forall i :: first <= i < k ==> events[i].Arrived? && events[i].packet.id == 0
  }

  /** The acknowledgement came, each login start before it earned one success, and any event after it ended `c`. */
  ghost predicate Confirmed(events: seq<Event>, first: nat, c: Conn, before: nat) {
    exists k: nat :: Acknowledged(events, first, k) && Successes(c.sent) == before + k - first
                     && (c.phase == Running <==> |events| == k + 1)
  }

  /** In configuration nothing is sent and nothing moves; any further event ends the connection. */
  lemma ConfigurationSilent(cfg: Config, c: Conn, events: seq<Event>)
    requires c.phase == Running && c.state == Configuration
    ensures var d := Run(cfg, c, events); d == c.(phase := d.phase) && (d.phase == Running <==> events == [])
  {
    hide OnHandshake, OnStatusRequest, OnPing, OnLoginStart, Transition;
    if events != [] {
      var d := Step(cfg, c, events[0]);
      assert d.phase != Running && Run(cfg, d, events[1..]) == d;
    }
  }

  lemma {:induction false} FromLogin(cfg: Config, c: Conn, events: seq<Event>)
    requires c.phase == Running && c.state == Login
    ensures var d := Run(cfg, c, events);
            d.state == Configuration ==> Confirmed(events, 0, d, Successes(c.sent))
    decreases |events|
  {
    hide OnHandshake, OnStatusRequest, OnPing, OnLoginStart, Successes;
    if events != [] {
      var d, rest, e := Run(cfg, c, events), events[1..], events[0];
      var c1 := Step(cfg, c, e);
      if e.Arrived? && e.packet.id == 3 {
        ConfigurationSilent(cfg, c1, rest);
        assert Acknowledged(events, 0, 0);
      } else if e.Arrived? && e.packet.id == 0 {
        StartCounts(cfg, c, e.packet.body);
        if c1.phase == Running && d.state == Configuration {
          FromLogin(cfg, c1, rest);
          var k: nat :| Acknowledged(rest, 0, k) && Successes(d.sent) == Successes(c1.sent) + k
              && (d.phase == Running <==> |rest| == k + 1);
          assert Acknowledged(events, 0, k + 1);
        }
      }
    }
  }

  lemma {:induction false} StatusStays(cfg: Config, c: Conn, events: seq<Event>)
    requires c.state == Status
    ensures Run(cfg, c, events).state == Status
    decreases |events|
  {
    hide OnHandshake, OnLoginStart, ReadI64, ToRaw, Encodable, Raws;
    if events != [] && c.phase == Running {
      StatusStays(cfg, Step(cfg, c, events[0]), events[1..]);
    }
  }

  /**
   What reaching configuration does mean, in every run: an acknowledgement came at some event `k`, preceded by
   the handshake and login starts only; as many successes were sent as there were login starts; and any event
   after the acknowledgement has ended the connection. So a success was sent exactly when the event after the
   handshake is a login start.
   */
  lemma ConfigurationExact(cfg: Config, link: nat, events: seq<Event>)
    ensures var c := Run(cfg, Initial(link), events);
            c.state == Configuration ==>
              && Confirmed(events, 1, c, 0)
              && |events| >= 2 && events[1].Arrived?
              && (HasSuccess(c.sent) <==> events[1].packet.id == 0)
  {
    hide Run, Step, HasSuccess;
    var c := Run(cfg, Initial(link), events);
    if events == [] {
      RunEmpty(cfg, Initial(link));
    } else {
      var c1, rest := Step(cfg, Initial(link), events[0]), events[1..];
      assert events == [events[0]] + rest;
      RunOne(cfg, Initial(link), events[0], rest);
      FirstStep(cfg, link, events[0], rest);
      if c.state == Configuration {
        FromLogin(cfg, c1, rest);
        var k: nat :| Acknowledged(rest, 0, k) && Successes(c.sent) == Successes(c1.sent) + k
            && (c.phase == Running <==> |rest| == k + 1);
        SuccessesExact(c.sent);
        assert Acknowledged(events, 1, k + 1) by { assert forall i :: 0 <= i < |rest| ==> rest[i] == events[i + 1]; }
        assert rest[0] == events[1];
      }
    }
  }

  lemma FirstStep(cfg: Config, link: nat, e: Event, rest: seq<Event>)
    ensures var c := Step(cfg, Initial(link), e);
            c.sent == [] && (c.state != Login || c.phase != Running ==> Run(cfg, c, rest).state != Configuration)
  {
    hide DecodeHandshake, OnStatusRequest, OnPing, OnLoginStart;
    var c := Step(cfg, Initial(link), e);
    if c.state == Status {
      StatusStays(cfg, c, rest);
    } else if c.state == Handshaking {
      assert c.phase != Running;
    }
  }

  /** It does not mean a login success was sent: an acknowledgement right after the handshake is not checked. */
  lemma AcknowledgementUnchecked(cfg: Config, link: nat)
    ensures exists events ::
              var c := Run(cfg, Initial(link), events); c.state == Configuration && c.phase == Running && c.sent == []
  {
    hide EncodeHandshake, DecodeHandshake, IsUtf8, Run, OnLoginStart, OnStatusRequest, OnPing, Refusal;
    AsciiIsUtf8([]);
    var h := Handshake(0, [], 0, ToLogin);
    var hb := EncodeHandshake(h);
    assert hb + [] == hb;
    HandshakeExact(h, []);
    var events := [Arrived(RawPacket(0, hb)), Arrived(RawPacket(3, []))];
    assert events == [events[0]] + ([events[1]] + []);
    var c1 := Step(cfg, Initial(link), events[0]);
    assert c1 == Initial(link).(state := Login, visited := [Handshaking, Login]);
    RunOne(cfg, Initial(link), events[0], [events[1]] + []);
    RunOne(cfg, c1, events[1], []);
    RunEmpty(cfg, Step(cfg, c1, events[1]));
    var c := Run(cfg, Initial(link), events);
    assert c.state == Configuration && c.phase == Running && c.sent == [];
  }

  lemma RunEmpty(cfg: Config, c: Conn)
    ensures Run(cfg, c, []) == c
  {}

  // ----- the claimed uuid does not matter -----

  /** Two events that are the same, or two login starts that differ at most in the uuid they claim. */
  predicate SameButUuid(a: Event, b: Event) {
    || a == b
    || (&& a.Arrived? && b.Arrived? && a.packet.id == 0 && b.packet.id == 0
        && WholeBody(DecodeLoginStart(a.packet.body)).Ok? && WholeBody(DecodeLoginStart(b.packet.body)).Ok?
        && WholeBody(DecodeLoginStart(a.packet.body)).value.name
            == WholeBody(DecodeLoginStart(b.packet.body)).value.name)
  }

  lemma StepIgnoresUuid(cfg: Config, c: Conn, a: Event, b: Event)
    requires c.phase == Running && c.state != Handshaking && SameButUuid(a, b)
    ensures Step(cfg, c, a) == Step(cfg, c, b)
    ensures Step(cfg, c, a).phase == Running ==> Step(cfg, c, a).state != Handshaking
  {
    hide DecodeLoginStart, DecodeHandshake, ReadI64, ToRaw, Encodable, Raws, Granted, Refusal;
  }

  lemma {:induction false} RunIgnoresUuid(cfg: Config, c: Conn, xs: seq<Event>, ys: seq<Event>)
    requires |xs| == |ys| && (forall i :: 0 <= i < |xs| ==> SameButUuid(xs[i], ys[i]))
    requires c.phase == Running ==> c.state != Handshaking
    ensures Run(cfg, c, xs) == Run(cfg, c, ys)
    decreases |xs|
  {
    hide Step, SameButUuid;
    if xs != [] && c.phase == Running {
      StepIgnoresUuid(cfg, c, xs[0], ys[0]);
      RunIgnoresUuid(cfg, Step(cfg, c, xs[0]), xs[1..], ys[1..]);
    }
  }

  /**
   Two runs with the same first event, whose later events differ only in the uuids that login starts
   claim, send the same replies in the same formats and end in the same state with the same outcome.
   */
  lemma ClaimedUuidIrrelevant(cfg: Config, link: nat, xs: seq<Event>, ys: seq<Event>)
    requires |xs| == |ys| && (xs != [] ==> xs[0] == ys[0])
    requires forall i :: 0 <= i < |xs| ==> SameButUuid(xs[i], ys[i])
    ensures Run(cfg, Initial(link), xs) == Run(cfg, Initial(link), ys)
  {
    hide SameButUuid, DecodeLoginStart, DecodeHandshake, ReadI64, Send, Refusal;
    if xs != [] {
      var c := Step(cfg, Initial(link), xs[0]);
      RunIgnoresUuid(cfg, c, xs[1..], ys[1..]);
    }
  }
}
