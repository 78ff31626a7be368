/**
 The server and a client over two byte streams, in every interleaving and every fragmentation. The client
 sends what it likes, but after a login start it waits for the success before sending again, and it applies
 every Set Compression when it reads it (crates/net/tests/login.rs). Then every frame, both ways, is decoded
 in the format it was encoded in (crates/net/src/connection.rs, crates/protocol/src/codec.rs).
 */
module TwoParty {
  import opened Bytes
  import opened Utf8
  import opened VarInt
  import opened Packets
  import opened Codec
  import opened Connection

  /** A frame with the format its encoder, or its decoder, had in force. */
  datatype Tx = Tx(format: Threshold, packet: RawPacket)

  /** What the client asked for in its first packet. */
  datatype Mode = Fresh | LoggingIn | Other

  datatype Client = Client(threshold: Threshold, mode: Mode, awaiting: bool)

  /**
   `up` and `down` are the bytes in flight. The logs record every frame sent by the client and every frame
   decoded at either end; what the server sent is its own log. `corrupt` records any failure to decode.
   */
  datatype System = System(server: Conn, client: Client, up: bytes, down: bytes,
                           upSent: seq<Tx>, upGot: seq<Tx>, downGot: seq<Tx>, corrupt: bool)

  function Start(link: nat): System {
    System(Initial(link), Client(None, Fresh, false), [], [], [], [], [], false)
  }

  function Txs(sent: seq<Outgoing>): (r: seq<Tx>)
    ensures |r| == |sent|
  {
    seq(|sent|, i requires 0 <= i < |sent| => Tx(sent[i].format, ToRaw(sent[i].reply)))
  }

  function DownSent(s: System): seq<Tx> { Txs(s.server.sent) }

  function WireTx(z: Zlib, txs: seq<Tx>): bytes {
    if txs == [] then [] else FrameBytes(z, txs[0].format, txs[0].packet) + WireTx(z, txs[1..])
  }

  // ----- steps -----

  predicate LoginHello(p: RawPacket) {
    p.id == 0 && WholeBody(DecodeHandshake(p.body)).Ok?
        && WholeBody(DecodeHandshake(p.body)).value.nextState != ToStatus
  }

  function ClientAfterSend(c: Client, p: RawPacket): Client {
    match c.mode
    case Fresh => c.(mode := if LoginHello(p) then LoggingIn else Other)
    case LoggingIn => c.(awaiting := p.id == 0)
    case Other => c
  }

  function ClientAfterRead(c: Client, p: RawPacket): Client {
    if c.mode != LoggingIn then c
    else if p.id == 3 then
      match WholeBody(ReadVarInt(p.body)) case Ok(t, _) => c.(threshold := SetCompression(t)) case Err(_) => c
    else if p.id == 2 then c.(awaiting := false)
    else c
  }

  datatype Action = ClientSends(p: RawPacket) | ServerReads(n: nat) | ClientReads(n: nat) | ServerIdles

  /** A read sees the first `n` bytes in flight, or all of them. */
  function Cut(s: bytes, n: nat): (k: nat)
    ensures k <= |s|
  {
    if n <= |s| then n else |s|
  }

  function NewReplies(before: seq<Outgoing>, after: seq<Outgoing>): seq<Outgoing> {
    if |before| <= |after| then after[|before|..] else []
  }

  function ServerTakes(cfg: Config, z: Zlib, s: System, k: nat): System
    requires k <= |s.up|
  {
    match DecodeFrame(z, s.server.threshold, s.up[..k])
    case Incomplete => s
    case Bad(e) => s.(server := Step(cfg, s.server, Undecodable(e)), corrupt := true)
    case Packet(p, rest) =>
      var after := Step(cfg, s.server, Arrived(p));
      s.(server := after, up := rest + s.up[k..], upGot := s.upGot + [Tx(s.server.threshold, p)],
         down := s.down + WireTx(z, Txs(NewReplies(s.server.sent, after.sent))))
  }

  function ClientTakes(z: Zlib, s: System, k: nat): System
    requires k <= |s.down|
  {
    match DecodeFrame(z, s.client.threshold, s.down[..k])
    case Incomplete => s
    case Bad(e) => s.(corrupt := true)
    case Packet(p, rest) =>
      s.(client := ClientAfterRead(s.client, p), down := rest + s.down[k..],
         downGot := s.downGot + [Tx(s.client.threshold, p)])
  }

  /** The client encodes only what a receiver would take, and nothing at all while it waits. */
  predicate ClientMaySend(z: Zlib, c: Client, p: RawPacket) {
    !c.awaiting && Encodable(p) && Receivable(z, c.threshold, p)
  }

  function ClientPuts(z: Zlib, s: System, p: RawPacket): System {
    s.(client := ClientAfterSend(s.client, p), up := s.up + FrameBytes(z, s.client.threshold, p),
       upSent := s.upSent + [Tx(s.client.threshold, p)])
  }

  function ServerReadsUpTo(cfg: Config, z: Zlib, s: System, n: nat): System {
    if s.server.phase == Running then ServerTakes(cfg, z, s, Cut(s.up, n)) else s
  }

  function ServerWaits(cfg: Config, s: System): System {
    if s.server.phase == Running then s.(server := Step(cfg, s.server, TimedOut)) else s
  }

  function Next(cfg: Config, z: Zlib, s: System, a: Action): System {
    match a
    case ClientSends(p) => if ClientMaySend(z, s.client, p) then ClientPuts(z, s, p) else s
    case ServerReads(n) => ServerReadsUpTo(cfg, z, s, n)
    case ClientReads(n) => ClientTakes(z, s, Cut(s.down, n))
    case ServerIdles => ServerWaits(cfg, s)
  }

  function Exec(cfg: Config, z: Zlib, s: System, actions: seq<Action>): System
    decreases |actions|
  {
    if actions == [] then s else Exec(cfg, z, Next(cfg, z, s, actions[0]), actions[1..])
  }

  // ----- frames in flight -----

  predicate Deliverable(z: Zlib, t: Tx) {
    Encodable(t.packet) && Receivable(z, t.format, t.packet)
  }

  predicate AllDeliverable(z: Zlib, txs: seq<Tx>) {
    forall i :: 0 <= i < |txs| ==> Deliverable(z, txs[i])
  }

  lemma {:induction false} WireAppend(z: Zlib, a: seq<Tx>, b: seq<Tx>)
    ensures WireTx(z, a + b) == WireTx(z, a) + WireTx(z, b)
    decreases |a|
  {
    hide FrameBytes;
    if a == [] {
      assert a + b == b;
    } else {
      assert (a + b)[1..] == a[1..] + b;
      WireAppend(z, a[1..], b);
      Assoc(FrameBytes(z, a[0].format, a[0].packet), WireTx(z, a[1..]), WireTx(z, b));
    }
  }

  /** Whatever part of the bytes in flight a reader sees, it decodes nothing or exactly the frame at the front. */
  lemma ReadFront(z: Zlib, th: Threshold, txs: seq<Tx>, k: nat)
    requires Sound(z) && AllDeliverable(z, txs) && k <= |WireTx(z, txs)|
    requires txs != [] ==> txs[0].format == th
    ensures var wire := WireTx(z, txs);
            match DecodeFrame(z, th, wire[..k])
            case Incomplete => true
            case Bad(_) => false
            case Packet(p, rest) => txs != [] && p == txs[0].packet && rest + wire[k..] == WireTx(z, txs[1..])
  {
    hide DecodeFrame, FrameBytes, Deliverable;
    var wire := WireTx(z, txs);
    if txs == [] {
      assert wire[..k] == [];
      EmptyIncomplete(z, th);
    } else {
      assert Encodable(txs[0].packet) && Receivable(z, th, txs[0].packet) by { DeliverableMeans(z, txs[0]); }
      hide Encodable, Receivable;
      FrameExact(z, th, txs[0].packet, WireTx(z, txs[1..]));
      if !DecodeFrame(z, th, wire[..k]).Incomplete? {
        assert wire[..k] + wire[k..] == wire;
        FrameExtends(z, th, wire[..k], wire[k..]);
      }
    }
  }

  lemma DeliverableMeans(z: Zlib, t: Tx)
    requires Deliverable(z, t)
    ensures Encodable(t.packet) && Receivable(z, t.format, t.packet)
  {}

  /** The formats of frames to a client whose threshold is `th`: each in force once those before it are applied. */
  predicate Chain(c: Client, txs: seq<Tx>)
    decreases |txs|
  {
    txs == [] || (txs[0].format == c.threshold && Chain(ClientAfterRead(c, txs[0].packet), txs[1..]))
  }

  /** The client once it has read them all. */
  function ReadAll(c: Client, txs: seq<Tx>): Client
    decreases |txs|
  {
    if txs == [] then c else ReadAll(ClientAfterRead(c, txs[0].packet), txs[1..])
  }

  // ----- the invariant -----

  function PendingUp(s: System): seq<Tx> { if |s.upGot| <= |s.upSent| then s.upSent[|s.upGot|..] else [] }

  function PendingDown(s: System): seq<Tx> { if |s.downGot| <= |DownSent(s)| then DownSent(s)[|s.downGot|..] else [] }

  /** No login start among these, given where the server is: its first packet ever is the handshake. */
  predicate NoStart(state: State, txs: seq<Tx>) {
    forall i :: 0 <= i < |txs| && txs[i].packet.id == 0 ==> state == Handshaking && i == 0
  }

  ghost predicate Wires(cfg: Config, z: Zlib, s: System) {
    && Safe(cfg, s.server) && !s.corrupt
    && s.upGot <= s.upSent && s.downGot <= DownSent(s)
    && s.up == WireTx(z, PendingUp(s)) && s.down == WireTx(z, PendingDown(s))
    && AllDeliverable(z, PendingUp(s)) && AllDeliverable(z, PendingDown(s))
    && Chain(s.client, PendingDown(s))
    && (s.client.mode == Fresh ==> s.server.sent == [])
  }

  /** A login start is on its way, and nothing is behind it. */
  predicate StartInFlight(s: System) {
    var up := PendingUp(s);
    && up != [] && up[|up| - 1].packet.id == 0 && NoStart(s.server.state, up[..|up| - 1])
    && (s.server.state == Handshaking ==> |up| >= 2)
    && PendingDown(s) == [] && s.client.threshold == s.server.threshold
  }

  /** The server has answered; once the client has read the answer it is free to send, in the server's format. */
  predicate AnswerInFlight(s: System) {
    && PendingUp(s) == [] && s.server.state == Login
    && PendingDown(s) != []
    && (forall i :: 0 <= i < |PendingDown(s)| ==>
          (PendingDown(s)[i].packet.id == 2 <==> i == |PendingDown(s)| - 1))
    && ReadAll(s.client, PendingDown(s)).threshold == s.server.threshold
  }

  predicate InStep(s: System) {
    && (forall i :: 0 <= i < |PendingUp(s)| ==> PendingUp(s)[i].format == s.server.threshold)
    && match s.client.mode
       case Fresh => s.upSent == [] && s.server == Initial(s.server.link) && s.client == Client(None, Fresh, false)
       case Other =>
         && s.server.threshold == None && s.client.threshold == None && !s.client.awaiting
         && (|| s.server.state == Status
             || (&& s.server.state == Handshaking && s.upGot == []
                 && s.upSent != [] && !LoginHello(s.upSent[0].packet)))
       case LoggingIn =>
         && s.upSent != [] && LoginHello(s.upSent[0].packet)
         && (s.server.state == Handshaking <==> s.upGot == []) && s.server.state != Status && s.server.state != Play
         && if s.client.awaiting then StartInFlight(s) || AnswerInFlight(s)
            else
              && PendingDown(s) == [] && s.client.threshold == s.server.threshold
              && NoStart(s.server.state, PendingUp(s))
  }

  ghost predicate Agree(cfg: Config, z: Zlib, s: System) {
    Wires(cfg, z, s) && (s.server.phase == Running ==> InStep(s))
  }

  // ----- reading chains -----

  /** Only the threshold and the mode matter to the formats a client can read. */
  lemma {:induction false} ChainSame(c: Client, d: Client, txs: seq<Tx>)
    requires c.threshold == d.threshold && c.mode == d.mode
    ensures Chain(c, txs) == Chain(d, txs) && ReadAll(c, txs).threshold == ReadAll(d, txs).threshold
    decreases |txs|
  {
    hide ReadVarInt;
    if txs != [] {
      ChainSame(ClientAfterRead(c, txs[0].packet), ClientAfterRead(d, txs[0].packet), txs[1..]);
    }
  }

  lemma {:induction false} ChainAppend(c: Client, a: seq<Tx>, b: seq<Tx>)
    ensures Chain(c, a + b) <==> Chain(c, a) && Chain(ReadAll(c, a), b)
    ensures ReadAll(c, a + b) == ReadAll(ReadAll(c, a), b)
    decreases |a|
  {
    hide ClientAfterRead;
    if a == [] {
      assert a + b == b;
    } else {
      assert (a + b)[1..] == a[1..] + b;
      ChainAppend(ClientAfterRead(c, a[0].packet), a[1..], b);
    }
  }

  /** A client that is not logging in reads everything in one format. */
  lemma {:induction false} OtherReads(c: Client, txs: seq<Tx>)
    requires c.mode != LoggingIn
    ensures ReadAll(c, txs) == c
    decreases |txs|
  {
    if txs != [] { OtherReads(c, txs[1..]); }
  }

  // ----- what the server sends in one step -----

  predicate AnswersStart(cfg: Config, c: Conn, d: Conn, replies: seq<Outgoing>) {
    var success := Outgoing(d.threshold, if replies == [] then StatusReply([]) else Last(replies));
    if d.phase != Running then
      replies == [] || (|replies| == 1 && replies[0].format == c.threshold
                        && (replies[0].reply.RefusalReply? || replies[0].reply.CompressionReply?))
    else
      && replies != [] && Last(replies).SuccessReply? && |Last(replies).success.profile.username| <= 16
      && Last(replies).success.profile.properties == []
      && (if cfg.compression.None? then d.threshold == c.threshold && replies == [success]
          else d.threshold == SetCompression(cfg.compression.value)
               && replies == [Outgoing(c.threshold, CompressionReply(cfg.compression.value)), success])
  }

  lemma LoginStartAnswer(cfg: Config, c: Conn, body: bytes) returns (replies: seq<Outgoing>)
    requires c.phase == Running
    ensures var d := OnLoginStart(cfg, c, body);
            && d.sent == c.sent + replies && AnswersStart(cfg, c, d, replies) && d.state == c.state
            && (forall i :: 0 <= i < |replies| ==>
                  replies[i].reply.RefusalReply? ==> replies[i].reply.reason == Refusal())
  {
    hide Refusal, DecodeLoginStart, Encodable, Raws, ToRaw;
    var d := OnLoginStart(cfg, c, body);
    var r := WholeBody(DecodeLoginStart(body));
    replies := [];
    assert c.sent + [] == c.sent;
    if r.Ok? {
      if !ValidUsername(r.value.name) {
        var o := Outgoing(c.threshold, RefusalReply(Refusal()));
        if d.sent != c.sent { replies := [o]; }
      } else {
        var e := Announce(cfg, c);
        var success := Outgoing(e.threshold, SuccessReply(Granted(cfg, r.value.name)));
        if cfg.compression.Some? {
          var o := Outgoing(c.threshold, CompressionReply(cfg.compression.value));
          if e.phase == Running {
            assert e.sent == c.sent + [o];
            if d.phase == Running {
              replies := [o, success];
              assert (c.sent + [o]) + [success] == c.sent + replies;
            } else {
              replies := [o];
            }
          }
        } else if d.phase == Running {
          replies := [success];
        }
      }
    }
  }

  /** Away from login starts, the server sends at most one reply, in the format in force, and keeps that format. */
  lemma OtherAnswer(cfg: Config, c: Conn, p: RawPacket) returns (replies: seq<Outgoing>)
    requires c.phase == Running && !(c.state == Login && p.id == 0)
    ensures var d := Step(cfg, c, Arrived(p));
            && d.sent == c.sent + replies && |replies| <= 1 && d.threshold == c.threshold
            && (replies != [] ==>
                  c.state == Status && replies[0].format == c.threshold && Encodable(ToRaw(replies[0].reply)))
  {
    hide Refusal, DecodeLoginStart, DecodeHandshake, ReadI64, Encodable, Raws, ToRaw;
    var d := Step(cfg, c, Arrived(p));
    replies := [];
    assert c.sent + [] == c.sent;
    if d.sent != c.sent {
      replies := [Outgoing(c.threshold, if p.id == 0 then StatusReply(cfg.statusJson)
                           else PongReply(WholeBody(ReadI64(p.body)).value))];
    }
  }

  lemma AnswerDeliverable(cfg: Config, z: Zlib, c: Conn, d: Conn, replies: seq<Outgoing>)
    requires Sound(z) && AnswersStart(cfg, c, d, replies)
    requires forall i :: 0 <= i < |replies| ==> replies[i].reply.RefusalReply? ==> replies[i].reply.reason == Refusal()
    ensures AllDeliverable(z, Txs(replies))
  {
    hide Raws, Refusal, Receivable, Encodable;
    forall i | 0 <= i < |replies| ensures Deliverable(z, Txs(replies)[i]) {
      RefusalSmall();
      var r := replies[i].reply;
      if r.CompressionReply? {
        SmallBodies(r.threshold, LoginSuccess(GameProfile(0, [], []), 0));
      } else if r.SuccessReply? {
        SmallBodies(0, r.success);
      }
      hide ToRaw;
      SmallReceivable(z, replies[i].format, ToRaw(r));
    }
  }

  /** A logging-in client in the server's format can read the answer, and ends in the server's new format. */
  lemma AnswerReadable(cfg: Config, c: Conn, d: Conn, replies: seq<Outgoing>, k: Client)
    requires AnswersStart(cfg, c, d, replies) && k.mode == LoggingIn && k.threshold == c.threshold
    ensures Chain(k, Txs(replies))
    ensures d.phase == Running ==>
              && ReadAll(k, Txs(replies)).threshold == d.threshold
              && forall i :: 0 <= i < |replies| ==> (Txs(replies)[i].packet.id == 2 <==> i == |replies| - 1)
  {
    hide EncodeLoginSuccess, WriteString, ReadVarInt, WriteVarInt;
    var txs := Txs(replies);
    if replies != [] && replies[0].reply.CompressionReply? {
      var t := replies[0].reply.threshold;
      VarIntRoundTrip(t, []);
      assert WriteVarInt(t) + [] == WriteVarInt(t);
      assert ClientAfterRead(k, txs[0].packet).threshold == SetCompression(t);
    }
    if |txs| == 1 {
      assert txs[1..] == [];
    } else if |txs| == 2 {
      var k1 := ClientAfterRead(k, txs[0].packet);
      var k2 := ClientAfterRead(k1, txs[1].packet);
      assert txs[1..] == [txs[1]] && [txs[1]][1..] == [];
      assert Chain(k2, []) && ReadAll(k2, []) == k2 && k2.threshold == k1.threshold;
      assert Chain(k1, [txs[1]]) && ReadAll(k1, [txs[1]]) == k2;
    }
  }

  // ----- every step keeps the agreement -----

  lemma ClientSendKeeps(cfg: Config, z: Zlib, s: System, p: RawPacket)
    requires Agree(cfg, z, s) && ClientMaySend(z, s.client, p)
    ensures Agree(cfg, z, Next(cfg, z, s, ClientSends(p)))
  {
    hide Safe, Step, Encodable, Receivable, LoginHello, Chain, Txs, FrameBytes, WireTx, InStep, ServerReadsUpTo,
         ClientTakes;
    var t, s' := Tx(s.client.threshold, p), ClientPuts(z, s, p);
    assert Next(cfg, z, s, ClientSends(p)) == s';
    hide Next;
    assert PendingUp(s') == PendingUp(s) + [t] && PendingDown(s') == PendingDown(s);
    OneFrame(z, t);
    WireAppend(z, PendingUp(s), [t]);
    SendKeepsChain(s, p);
    if s.server.phase == Running { ClientSendInStep(s, s', t); }
  }

  lemma SendKeepsChain(s: System, p: RawPacket)
    requires Chain(s.client, PendingDown(s)) && (s.client.mode == Fresh ==> s.server.sent == [])
    ensures Chain(ClientAfterSend(s.client, p), PendingDown(s))
  {
    hide LoginHello, Chain;
    if s.client.mode == Fresh {
      ChainEmpty(ClientAfterSend(s.client, p));
    } else {
      ChainSame(s.client, ClientAfterSend(s.client, p), PendingDown(s));
    }
  }

  lemma OneFrame(z: Zlib, t: Tx)
    ensures WireTx(z, [t]) == FrameBytes(z, t.format, t.packet)
  {
    hide FrameBytes;
    assert [t][1..] == [];
  }

  lemma ChainEmpty(c: Client)
    ensures Chain(c, [])
  {}

  /** The client, free to send, has put one frame in its own format behind those in flight. */
  predicate Puts(s: System, s': System, t: Tx) {
    && s.server.phase == Running && InStep(s) && !s.client.awaiting && t.format == s.client.threshold
    && s'.server == s.server && s'.client == ClientAfterSend(s.client, t.packet) && s'.upSent == s.upSent + [t]
    && s'.upGot == s.upGot && s'.downGot == s.downGot && s.upGot <= s.upSent && s.downGot <= DownSent(s)
  }

  lemma ClientSendInStep(s: System, s': System, t: Tx)
    requires Puts(s, s', t)
    ensures InStep(s')
  {
    PutsBehind(s, s', t);
    hide Puts, InStep;
    match s.client.mode
    case Fresh => FreshSends(s, s', t);
    case Other => OtherSends(s, s', t);
    case LoggingIn => LoggingInSends(s, s', t);
  }

  lemma PutsBehind(s: System, s': System, t: Tx)
    requires Puts(s, s', t)
    ensures PendingUp(s') == PendingUp(s) + [t] && PendingDown(s') == PendingDown(s)
    ensures PendingUp(s')[..|PendingUp(s)|] == PendingUp(s)
  {
    hide InStep, Txs, LoginHello;
  }

  lemma FreshSends(s: System, s': System, t: Tx)
    requires Puts(s, s', t) && s.client.mode == Fresh
    ensures InStep(s')
  {
    hide LoginHello, Txs, StartInFlight, AnswerInFlight;
    assert s.server == Initial(s.server.link) && s.client == Client(None, Fresh, false) && |s.upSent| == 0;
    FirstInStep(s', t);
  }

  /** The very first frame: a login handshake or something else. */
  lemma FirstInStep(s: System, t: Tx)
    requires s.server.state == Handshaking && s.server.threshold == None && |s.server.sent| == 0
    requires s.upSent == [t] && |s.upGot| == 0 && |s.downGot| == 0 && t.format == None
    requires s.client == ClientAfterSend(Client(None, Fresh, false), t.packet)
    ensures InStep(s)
  {
    hide LoginHello, Txs, StartInFlight, AnswerInFlight;
    assert PendingUp(s) == [t] && |PendingDown(s)| == 0;
  }

  lemma OtherSends(s: System, s': System, t: Tx)
    requires Puts(s, s', t) && PendingUp(s') == PendingUp(s) + [t] && s.client.mode == Other
    ensures InStep(s')
  {
    hide LoginHello, PendingUp, StartInFlight, AnswerInFlight;
  }

  lemma LoggingInSends(s: System, s': System, t: Tx)
    requires Puts(s, s', t) && PendingUp(s') == PendingUp(s) + [t] && PendingDown(s') == PendingDown(s)
    requires PendingUp(s')[..|PendingUp(s)|] == PendingUp(s) && s.client.mode == LoggingIn
    ensures InStep(s')
  {
    hide LoginHello, Txs, AnswerInFlight;
    var up, up' := PendingUp(s), PendingUp(s');
    if s.server.state == Handshaking { assert up == s.upSent; }
    hide PendingUp, PendingDown;
    if t.packet.id == 0 {
      assert StartInFlight(s');
    } else {
      assert NoStart(s'.server.state, up');
    }
  }

  lemma ServerReadKeeps(cfg: Config, z: Zlib, s: System, k: nat)
    requires Sound(z) && Agree(cfg, z, s) && s.server.phase == Running && k <= |s.up|
    ensures Agree(cfg, z, ServerTakes(cfg, z, s, k))
  {
    hide Safe, Step, DecodeFrame, Chain, WireTx, Txs, Deliverable, LoginHello;
    ReadFront(z, s.server.threshold, PendingUp(s), k);
    match DecodeFrame(z, s.server.threshold, s.up[..k])
    case Incomplete =>
    case Packet(p, rest) =>
      StepSafe(cfg, s.server, Arrived(p));
      if s.server.state == Login && p.id == 0 {
        StartHandled(cfg, z, s, k, p);
      } else {
        OtherHandled(cfg, z, s, k, p);
      }
    case Bad(_) =>
  }

  /** The server, reading `k` bytes, decodes the frame at the front of those in flight. */
  predicate Takes(z: Zlib, s: System, k: nat, p: RawPacket) {
    && k <= |s.up| && s.upGot <= s.upSent && PendingUp(s) != [] && PendingUp(s)[0] == Tx(s.server.threshold, p)
    && var r := DecodeFrame(z, s.server.threshold, s.up[..k]);
       r.Packet? && r.packet == p && r.rest + s.up[k..] == WireTx(z, PendingUp(s)[1..])
  }

  lemma UpTaken(cfg: Config, z: Zlib, s: System, k: nat, p: RawPacket)
    requires Takes(z, s, k, p)
    ensures var s' := ServerTakes(cfg, z, s, k);
            && s'.server == Step(cfg, s.server, Arrived(p)) && s'.client == s.client && s'.corrupt == s.corrupt
            && s'.upSent == s.upSent && s'.downGot == s.downGot && |s'.upGot| == |s.upGot| + 1 && s'.upGot <= s'.upSent
            && PendingUp(s') == PendingUp(s)[1..] && s'.up == WireTx(z, PendingUp(s'))
            && s'.down == s.down + WireTx(z, Txs(NewReplies(s.server.sent, s'.server.sent)))
  {
    hide Step, DecodeFrame, WireTx, Txs, NewReplies;
    var s' := ServerTakes(cfg, z, s, k);
    assert PendingUp(s)[0] == s.upSent[|s.upGot|];
    assert s'.upGot == s.upSent[..|s.upGot| + 1];
  }

  lemma DownTaken(z: Zlib, s: System, s': System, replies: seq<Outgoing>)
    requires s.downGot <= DownSent(s) && s.down == WireTx(z, PendingDown(s))
    requires s'.server.sent == s.server.sent + replies && s'.downGot == s.downGot
    requires s'.down == s.down + WireTx(z, Txs(NewReplies(s.server.sent, s'.server.sent)))
    ensures s'.downGot <= DownSent(s') && PendingDown(s') == PendingDown(s) + Txs(replies)
    ensures s'.down == WireTx(z, PendingDown(s'))
  {
    hide WireTx;
    assert NewReplies(s.server.sent, s'.server.sent) == replies;
    assert Txs(s'.server.sent) == Txs(s.server.sent) + Txs(replies);
    WireAppend(z, PendingDown(s), Txs(replies));
  }

  /** Taking a frame keeps the streams in order when the replies it caused are deliverable and readable. */
  lemma WiresKept(cfg: Config, z: Zlib, s: System, k: nat, p: RawPacket, replies: seq<Outgoing>)
    requires Wires(cfg, z, s) && Takes(z, s, k, p) && s.client.mode != Fresh
    requires Safe(cfg, Step(cfg, s.server, Arrived(p)))
             && Step(cfg, s.server, Arrived(p)).sent == s.server.sent + replies
    requires AllDeliverable(z, Txs(replies)) && Chain(s.client, PendingDown(s) + Txs(replies))
    ensures var s' := ServerTakes(cfg, z, s, k);
            && Wires(cfg, z, s')
            && s'.server == Step(cfg, s.server, Arrived(p)) && s'.client == s.client
            && s'.upSent == s.upSent && |s'.upGot| == |s.upGot| + 1
            && PendingUp(s') == PendingUp(s)[1..] && PendingDown(s') == PendingDown(s) + Txs(replies)
  {
    hide Safe, Step, DecodeFrame, WireTx, Deliverable, Chain, Txs;
    UpTaken(cfg, z, s, k, p);
    hide ServerTakes, Takes;
    DownTaken(z, s, ServerTakes(cfg, z, s, k), replies);
  }

  /** A status reply is plain, and so readable by a client that asked for status. */
  lemma StatusReadable(cfg: Config, z: Zlib, s: System, replies: seq<Outgoing>)
    requires Wires(cfg, z, s) && s.server.phase == Running && InStep(s) && |replies| <= 1
    requires replies != [] ==>
               && s.server.state == Status && replies[0].format == s.server.threshold
               && Encodable(ToRaw(replies[0].reply))
    ensures AllDeliverable(z, Txs(replies)) && Chain(s.client, PendingDown(s) + Txs(replies))
  {
    hide Safe, WireTx, LoginHello, ToRaw;
    var txs := Txs(replies);
    if replies != [] {
      assert s.client.mode == Other && s.server.threshold == None;
      OtherReads(s.client, PendingDown(s));
      assert txs[1..] == [];
      assert Chain(ClientAfterRead(s.client, txs[0].packet), []);
      ReceivableCases(z, None, ToRaw(replies[0].reply));
    } else {
      assert PendingDown(s) + txs == PendingDown(s);
    }
    hide Encodable, Receivable;
    ChainAppend(s.client, PendingDown(s), txs);
  }

  lemma OtherHandled(cfg: Config, z: Zlib, s: System, k: nat, p: RawPacket)
    requires Sound(z) && Agree(cfg, z, s) && s.server.phase == Running && Takes(z, s, k, p)
    requires !(s.server.state == Login && p.id == 0) && Safe(cfg, Step(cfg, s.server, Arrived(p)))
    ensures Agree(cfg, z, ServerTakes(cfg, z, s, k))
  {
    hide Safe, Step, Wires, LoginHello, Txs, Chain, Takes, ServerTakes;
    TakesMeans(z, s, k, p);
    var replies := OtherAnswer(cfg, s.server, p);
    StatusReadable(cfg, z, s, replies);
    assert s.client.mode != Fresh by { NotFresh(z, s, k, p); }
    WiresKept(cfg, z, s, k, p, replies);
    var s' := ServerTakes(cfg, z, s, k);
    assert replies == [] ==> PendingDown(s') == PendingDown(s) by { assert replies == [] ==> Txs(replies) == []; }
    hide InStep;
    if s'.server.phase == Running { OtherInStep(cfg, s, s', p); }
  }

  lemma NotFresh(z: Zlib, s: System, k: nat, p: RawPacket)
    requires Takes(z, s, k, p) && InStep(s)
    ensures s.client.mode != Fresh
  {
    hide DecodeFrame, WireTx, LoginHello;
  }

  lemma TakesMeans(z: Zlib, s: System, k: nat, p: RawPacket)
    requires Takes(z, s, k, p)
    ensures PendingUp(s) != [] && p == PendingUp(s)[0].packet && s.upGot <= s.upSent && k <= |s.up|
  {
    hide DecodeFrame, WireTx;
  }

  /** Where a packet that is not a login start takes a server that survives it. */
  lemma OtherMoves(cfg: Config, c: Conn, p: RawPacket)
    requires c.phase == Running && !(c.state == Login && p.id == 0) && Step(cfg, c, Arrived(p)).phase == Running
    ensures var d := Step(cfg, c, Arrived(p));
            d.state == match c.state
                       case Handshaking => if LoginHello(p) then Login else Status
                       case Login => Configuration
                       case other => other
    ensures c.state == Handshaking || c.state == Login || c.state == Status
  {
    hide DecodeHandshake, DecodeLoginStart, ReadI64, Encodable, Raws, ToRaw, Refusal;
  }

  lemma OtherInStep(cfg: Config, s: System, s': System, p: RawPacket)
    requires s.server.phase == Running && InStep(s) && s.upGot <= s.upSent
    requires PendingUp(s) != [] && p == PendingUp(s)[0].packet && !(s.server.state == Login && p.id == 0)
    requires s'.server == Step(cfg, s.server, Arrived(p)) && s'.server.phase == Running
             && s'.server.threshold == s.server.threshold
    requires s'.client == s.client && s'.upSent == s.upSent && |s'.upGot| == |s.upGot| + 1
    requires PendingUp(s') == PendingUp(s)[1..]
    requires PendingDown(s') == PendingDown(s) || s.server.state == Status
    ensures InStep(s')
  {
    hide Step, LoginHello, Txs, ReadAll;
    OtherMoves(cfg, s.server, p);
    var up, up' := PendingUp(s), PendingUp(s');
    assert forall i :: 0 <= i < |up'| ==> up'[i] == up[i + 1];
    if s.server.state == Handshaking { assert up[0] == s.upSent[0]; }
    hide PendingUp, PendingDown;
    if s.client.mode == LoggingIn {
      if s.client.awaiting {
        assert StartInFlight(s);
        assert |up| > 1 && up'[..|up'| - 1] == up[..|up| - 1][1..];
        assert StartInFlight(s');
      } else {
        assert NoStart(s'.server.state, up');
      }
    }
  }

  lemma StartHandled(cfg: Config, z: Zlib, s: System, k: nat, p: RawPacket)
    requires Sound(z) && Agree(cfg, z, s) && s.server.phase == Running && Takes(z, s, k, p)
    requires s.server.state == Login && p.id == 0 && Safe(cfg, Step(cfg, s.server, Arrived(p)))
    ensures Agree(cfg, z, ServerTakes(cfg, z, s, k))
  {
    hide Safe, Sound, Step, Wires, InStep, LoginHello, Txs, Chain, ReadAll, Takes, ServerTakes, OnLoginStart,
         AnswersStart, Deliverable, Refusal, PendingUp, PendingDown;
    var replies := LoginStartAnswer(cfg, s.server, p.body);
    var d := OnLoginStart(cfg, s.server, p.body);
    StartStep(cfg, s.server, p);
    TakesMeans(z, s, k, p);
    NotFresh(z, s, k, p);
    StartAlone(s);
    AnswerDeliverable(cfg, z, s.server, d, replies);
    AnswerReadable(cfg, s.server, d, replies, s.client);
    assert PendingDown(s) + Txs(replies) == Txs(replies);
    WiresKept(cfg, z, s, k, p, replies);
    if d.phase == Running {
      AnswerNonempty(cfg, s.server, d, replies);
      StartInStep(s, ServerTakes(cfg, z, s, k), replies);
    }
  }

  lemma StartStep(cfg: Config, c: Conn, p: RawPacket)
    requires c.state == Login && p.id == 0
    ensures Step(cfg, c, Arrived(p)) == OnLoginStart(cfg, c, p.body)
  {
    hide OnHandshake, OnStatusRequest, OnPing, OnLoginStart, Transition;
  }

  /** A login start that the server takes is all that is in flight, in the format both have. */
  lemma StartAlone(s: System)
    requires InStep(s) && s.server.state == Login && PendingUp(s) != [] && PendingUp(s)[0].packet.id == 0
    ensures s.client.mode == LoggingIn && s.client.awaiting && |PendingUp(s)| == 1 && PendingDown(s) == []
    ensures s.client.threshold == s.server.threshold
  {
    hide LoginHello, Txs, ReadAll;
    var up := PendingUp(s);
    assert StartInFlight(s);
  }

  lemma StartInStep(s: System, s': System, replies: seq<Outgoing>)
    requires InStep(s) && s.client.mode == LoggingIn && s.client.awaiting && s.server.state == Login
    requires s'.server.state == Login && s'.client == s.client && s'.upSent == s.upSent && s'.upGot != []
    requires |PendingUp(s')| == 0 && PendingDown(s') == Txs(replies) && replies != []
    requires forall i :: 0 <= i < |replies| ==> (Txs(replies)[i].packet.id == 2 <==> i == |replies| - 1)
    requires ReadAll(s.client, Txs(replies)).threshold == s'.server.threshold
    ensures InStep(s')
  {
    hide LoginHello, Txs, ReadAll;
  }

  lemma AnswerNonempty(cfg: Config, c: Conn, d: Conn, replies: seq<Outgoing>)
    requires AnswersStart(cfg, c, d, replies) && d.phase == Running
    ensures replies != []
  {}

  lemma ClientReadKeeps(cfg: Config, z: Zlib, s: System, k: nat)
    requires Sound(z) && Agree(cfg, z, s) && k <= |s.down|
    ensures Agree(cfg, z, ClientTakes(z, s, k))
  {
    hide Safe, DecodeFrame, WireTx, Txs, Deliverable, LoginHello, ReadVarInt;
    var down := PendingDown(s);
    ReadFront(z, s.client.threshold, down, k);
    match DecodeFrame(z, s.client.threshold, s.down[..k])
    case Incomplete =>
    case Packet(p, rest) =>
      var s' := ClientTakes(z, s, k);
      assert down[0] == DownSent(s)[|s.downGot|];
      assert s'.downGot == DownSent(s)[..|s.downGot| + 1];
      assert PendingDown(s') == down[1..] && PendingUp(s') == PendingUp(s);
      assert s.client.mode != Fresh;
      hide ClientTakes, Chain;
      if s.server.phase == Running { ClientReadInStep(s, s', p); }
    case Bad(_) =>
  }

  lemma ClientReadInStep(s: System, s': System, p: RawPacket)
    requires InStep(s) && s.client.mode != Fresh && PendingDown(s) != [] && p == PendingDown(s)[0].packet
    requires s'.server == s.server && s'.client == ClientAfterRead(s.client, p)
    requires s'.upSent == s.upSent && s'.upGot == s.upGot && PendingUp(s') == PendingUp(s)
             && PendingDown(s') == PendingDown(s)[1..]
    ensures InStep(s')
  {
    hide Txs, LoginHello, ReadVarInt;
    var down := PendingDown(s);
    assert forall i :: 0 <= i < |down| - 1 ==> PendingDown(s')[i] == down[i + 1];
    assert ReadAll(s.client, down) == ReadAll(s'.client, down[1..]);
    assert ReadAll(s'.client, []) == s'.client;
  }

  lemma IdleKeeps(cfg: Config, z: Zlib, s: System)
    requires Agree(cfg, z, s) && s.server.phase == Running
    ensures Agree(cfg, z, s.(server := Step(cfg, s.server, TimedOut)))
  {
    hide Safe, WireTx, Chain, Deliverable, Txs, Step, InStep;
    StepSafe(cfg, s.server, TimedOut);
    IdleSends(cfg, s.server);
  }

  lemma IdleSends(cfg: Config, c: Conn)
    ensures Step(cfg, c, TimedOut) == c.(phase := Failed(Timeout))
  {}

  lemma NextAgrees(cfg: Config, z: Zlib, s: System, a: Action)
    requires Sound(z) && Agree(cfg, z, s)
    ensures Agree(cfg, z, Next(cfg, z, s, a))
  {
    hide Agree, ServerTakes, ClientTakes, ClientMaySend;
    match a
    case ClientSends(p) => if ClientMaySend(z, s.client, p) { ClientSendKeeps(cfg, z, s, p); }
    case ServerReads(n) => if s.server.phase == Running { ServerReadKeeps(cfg, z, s, Cut(s.up, n)); }
    case ClientReads(n) => ClientReadKeeps(cfg, z, s, Cut(s.down, n));
    case ServerIdles => if s.server.phase == Running { IdleKeeps(cfg, z, s); }
  }

  lemma {:induction false} ExecAgrees(cfg: Config, z: Zlib, s: System, actions: seq<Action>)
    requires Sound(z) && Agree(cfg, z, s)
    ensures Agree(cfg, z, Exec(cfg, z, s, actions))
    decreases |actions|
  {
    hide Agree, Next;
    if actions != [] {
      NextAgrees(cfg, z, s, actions[0]);
      ExecAgrees(cfg, z, Next(cfg, z, s, actions[0]), actions[1..]);
    }
  }

  lemma StartAgrees(cfg: Config, z: Zlib, link: nat)
    ensures Agree(cfg, z, Start(link))
  {
    hide Deliverable, LoginHello, Refusal, FrameBytes;
  }

  /**
   Format agreement. In every interleaving, with every fragmentation of both streams, wherever the
   transport fails and however often the client logs in again: nothing fails to decode, and what each end
   decoded, with the format it decoded in, is a prefix of what the other end sent, with the format it
   encoded in. Compression disabled, zero, or negative are all covered.
   */
  lemma FormatAgreement(cfg: Config, z: Zlib, link: nat, actions: seq<Action>)
    requires Sound(z)
    ensures var s := Exec(cfg, z, Start(link), actions);
            !s.corrupt && s.upGot <= s.upSent && s.downGot <= DownSent(s)
  {
    hide Exec, Safe, InStep, WireTx, Chain, AllDeliverable, Txs;
    StartAgrees(cfg, z, link);
    ExecAgrees(cfg, z, Start(link), actions);
  }

  // ----- nothing gets stuck -----

  /** All that is in flight, read at once, yields the frame at the front. */
  lemma FrontDecodes(z: Zlib, th: Threshold, txs: seq<Tx>)
    requires Sound(z) && AllDeliverable(z, txs) && txs != [] && txs[0].format == th
    ensures DecodeFrame(z, th, WireTx(z, txs)) == Packet(txs[0].packet, WireTx(z, txs[1..]))
  {
    hide DecodeFrame, FrameBytes, Deliverable, Encodable, Receivable;
    assert Encodable(txs[0].packet) && Receivable(z, th, txs[0].packet) by { DeliverableMeans(z, txs[0]); }
    FrameExact(z, th, txs[0].packet, WireTx(z, txs[1..]));
  }

  lemma InFlight(z: Zlib, txs: seq<Tx>)
    ensures WireTx(z, txs) == [] <==> txs == []
  {}

  lemma ServerProgress(cfg: Config, z: Zlib, s: System)
    requires Sound(z) && Agree(cfg, z, s)
    ensures s.up == [] <==> s.upGot == s.upSent
    ensures s.server.phase == Running && s.up != [] ==>
              |s.upGot| < |s.upSent| && Next(cfg, z, s, ServerReads(|s.up|)).upGot == s.upSent[..|s.upGot| + 1]
  {
    hide Safe, Step, DecodeFrame, WireTx, Txs, Deliverable, Chain, LoginHello;
    var up := PendingUp(s);
    InFlight(z, up);
    if s.server.phase == Running && s.up != [] {
      FrontDecodes(z, s.server.threshold, up);
      assert s.up[..|s.up|] == s.up && up[0] == s.upSent[|s.upGot|];
    }
  }

  /** The server, and what the client has sent it, are as they were. */
  predicate SameUp(s: System, s': System) {
    && s'.server == s.server && s'.client.mode == s.client.mode
    && s'.up == s.up && s'.upSent == s.upSent && s'.upGot == s.upGot
  }

  lemma ClientProgress(cfg: Config, z: Zlib, s: System)
    requires Sound(z) && Agree(cfg, z, s)
    ensures s.down == [] <==> s.downGot == DownSent(s)
    ensures s.down != [] ==>
              var s' := Next(cfg, z, s, ClientReads(|s.down|));
              && |s.downGot| < |DownSent(s)| && s'.downGot == DownSent(s)[..|s.downGot| + 1]
              && SameUp(s, s')
  {
    hide Safe, Step, DecodeFrame, WireTx, Txs, Deliverable, InStep;
    var down := PendingDown(s);
    InFlight(z, down);
    if s.down != [] {
      FrontDecodes(z, s.client.threshold, down);
      assert s.down[..|s.down|] == s.down && down[0] == DownSent(s)[|s.downGot|];
    }
  }

  /**
   Progress. In every reachable system: bytes are in flight exactly when a frame is undelivered; and then a
   read of all of them delivers the next frame sent, to a server that still runs and to the client always.
   */
  lemma Progress(cfg: Config, z: Zlib, link: nat, actions: seq<Action>)
    requires Sound(z)
    ensures var s := Exec(cfg, z, Start(link), actions);
            && (s.up == [] <==> s.upGot == s.upSent) && (s.down == [] <==> s.downGot == DownSent(s))
            && (s.server.phase == Running && s.up != [] ==>
                  |s.upGot| < |s.upSent| && Next(cfg, z, s, ServerReads(|s.up|)).upGot == s.upSent[..|s.upGot| + 1])
            && (s.down != [] ==>
                  && |s.downGot| < |DownSent(s)|
                  && Next(cfg, z, s, ClientReads(|s.down|)).downGot == DownSent(s)[..|s.downGot| + 1])
  {
    hide Exec, Agree, Next, Txs;
    StartAgrees(cfg, z, link);
    ExecAgrees(cfg, z, Start(link), actions);
    ServerProgress(cfg, z, Exec(cfg, z, Start(link), actions));
    ClientProgress(cfg, z, Exec(cfg, z, Start(link), actions));
  }

  /** Reads of all that is in flight, as often as it takes. */
  lemma {:induction false} ClientCatchesUp(cfg: Config, z: Zlib, s: System) returns (steps: seq<Action>)
    requires Sound(z) && Agree(cfg, z, s)
    ensures forall i :: 0 <= i < |steps| ==> steps[i].ClientReads?
    ensures var s' := Exec(cfg, z, s, steps); SameUp(s, s') && s'.downGot == DownSent(s)
    decreases |DownSent(s)| - |s.downGot|
  {
    hide Next, Agree, Txs;
    ClientProgress(cfg, z, s);
    steps := [];
    if s.down != [] {
      var a := ClientReads(|s.down|);
      var s' := Next(cfg, z, s, a);
      NextAgrees(cfg, z, s, a);
      var rest := ClientCatchesUp(cfg, z, s');
      steps := [a] + rest;
      assert steps[1..] == rest;
    }
  }

  /** From every reachable system the client can read every frame the server has sent, and nothing else. */
  lemma AllDelivered(cfg: Config, z: Zlib, link: nat, actions: seq<Action>)
    requires Sound(z)
    ensures exists steps: seq<Action> ::
              && (forall i :: 0 <= i < |steps| ==> steps[i].ClientReads?)
              && var s := Exec(cfg, z, Start(link), actions);
                 var s' := Exec(cfg, z, s, steps);
                 s'.server == s.server && s'.downGot == DownSent(s)
  {
    hide Exec, Agree, Txs;
    StartAgrees(cfg, z, link);
    ExecAgrees(cfg, z, Start(link), actions);
    var steps := ClientCatchesUp(cfg, z, Exec(cfg, z, Start(link), actions));
  }

  // ----- a client that does not wait -----

  /** The same system, with a client that forgets that it is waiting. */
  function EagerNext(cfg: Config, z: Zlib, s: System, a: Action): System {
    if a.ClientSends? then Next(cfg, z, s.(client := s.client.(awaiting := false)), a) else Next(cfg, z, s, a)
  }

  function EagerExec(cfg: Config, z: Zlib, s: System, actions: seq<Action>): System
    decreases |actions|
  {
    if actions == [] then s else EagerExec(cfg, z, EagerNext(cfg, z, s, actions[0]), actions[1..])
  }

  /** The whole login at once, then reads of all that is in flight. */
  function EagerLogin(h: RawPacket, start: RawPacket): seq<Action> {
    [ClientSends(h), ClientSends(start), ClientSends(RawPacket(3, [])), ServerReads(10_000), ServerReads(10_000),
     ServerReads(10_000)]
  }

  /** A plain acknowledgement under a threshold: its id is taken for a size, with nothing behind it. */
  lemma PlainAcknowledgementRefused(z: Zlib, t: nat)
    requires t <= 3 ==> z.inflate([], 4).Corrupt? || |z.inflate([], 4).out| != 3
    ensures DecodeFrame(z, Some(t), FrameBytes(z, None, RawPacket(3, []))).Bad?
    ensures |FrameBytes(z, None, RawPacket(3, []))| == 2
  {
    var body: bytes := [3];
    assert WriteVarInt(3) == body && WriteVarInt(1) == [1];
    assert Raws(RawPacket(3, [])) == body && FrameBytes(z, None, RawPacket(3, [])) == [1] + body;
    hide ReadVarInt, WriteVarInt, Raws;
    VarIntRoundTrip(1, body);
    VarIntRoundTrip(3, []);
    assert body + [] == body && body[..1] == body && body[1..] == [];
  }

  lemma HelloSmall(h: Handshake, s: LoginStart)
    requires |h.serverAddress| <= 765 && |s.name| <= 48
    ensures |Raws(RawPacket(0, EncodeHandshake(h)))| <= 1000 && |Raws(RawPacket(0, EncodeLoginStart(s)))| <= 1000
  {
    hide WriteVarInt, EncodeBE, CastI32;
    VarIntRoundTrip(0, []);
    VarIntRoundTrip(h.protocolVersion, []);
    VarIntRoundTrip(CastI32(|h.serverAddress|), []);
    VarIntRoundTrip(CastI32(|s.name|), []);
    VarIntRoundTrip(NextStateValue(h.nextState), []);
  }

  lemma PlainFrameSmall(z: Zlib, p: RawPacket)
    requires |Raws(p)| <= 1000
    ensures Encodable(p) && Receivable(z, None, p) && |FrameBytes(z, None, p)| <= 1010
  {
    hide Raws, WriteVarInt, CastI32;
    VarIntRoundTrip(CastI32(|Raws(p)|), []);
  }

  /** Sending always works for a client that does not wait. */
  lemma EagerSend(cfg: Config, z: Zlib, s: System, p: RawPacket)
    requires s.client.threshold == None && Encodable(p) && Receivable(z, None, p)
    ensures var s' := EagerNext(cfg, z, s, ClientSends(p));
            && s'.server == s.server && s'.client.threshold == None && s'.up == s.up + FrameBytes(z, None, p)
  {
    hide FrameBytes, Encodable, Receivable, LoginHello;
  }

  /** Reading all of a few frames takes the one in front. */
  lemma EagerRead(cfg: Config, z: Zlib, s: System, p: RawPacket, rest: bytes)
    requires Sound(z) && s.server.phase == Running && Encodable(p) && Receivable(z, s.server.threshold, p)
    requires s.up == FrameBytes(z, s.server.threshold, p) + rest && |s.up| <= 10_000
    ensures var s' := EagerNext(cfg, z, s, ServerReads(10_000));
            s'.server == Step(cfg, s.server, Arrived(p)) && s'.up == rest
  {
    hide FrameBytes, Encodable, Receivable, DecodeFrame, Step, Txs, NewReplies, WireTx;
    FrameExact(z, s.server.threshold, p, rest);
    assert s.up[..|s.up|] == s.up && rest + s.up[|s.up|..] == rest;
  }

  lemma EagerSix(cfg: Config, z: Zlib, s: System, a: seq<Action>)
    requires |a| == 6
    ensures var s2 := EagerNext(cfg, z, EagerNext(cfg, z, s, a[0]), a[1]);
            var s4 := EagerNext(cfg, z, EagerNext(cfg, z, s2, a[2]), a[3]);
            EagerExec(cfg, z, s, a) == EagerNext(cfg, z, EagerNext(cfg, z, s4, a[4]), a[5])
  {
    hide EagerNext;
    EagerTwo(cfg, z, s, a);
    var s2 := EagerNext(cfg, z, EagerNext(cfg, z, s, a[0]), a[1]);
    EagerTwo(cfg, z, s2, a[2..]);
    EagerTwo(cfg, z, EagerNext(cfg, z, EagerNext(cfg, z, s2, a[2]), a[3]), a[2..][2..]);
  }

  lemma EagerTwo(cfg: Config, z: Zlib, s: System, a: seq<Action>)
    requires |a| >= 2
    ensures EagerExec(cfg, z, s, a) == EagerExec(cfg, z, EagerNext(cfg, z, EagerNext(cfg, z, s, a[0]), a[1]), a[2..])
  {
    hide EagerNext;
    assert a[1..][1..] == a[2..];
  }

  /**
   The waiting is needed: a client that sends its acknowledgement along with its login has it refused, for
   every name and address and every threshold the server switches to, and the streams are then corrupt. The
   one thing asked of zlib is that an empty input does not inflate to exactly three bytes.
   */
  lemma EagerAcknowledgementLost(cfg: Config, z: Zlib, link: nat, h: Handshake, start: LoginStart)
    requires Sound(z) && cfg.compression.Some? && cfg.compression.value >= 0 && link >= 2
    requires cfg.compression.value <= 3 ==> z.inflate([], 4).Corrupt? || |z.inflate([], 4).out| != 3
    requires IsUtf8(h.serverAddress) && |h.serverAddress| <= 765 && h.nextState != ToStatus
    requires ValidUsername(start.name)
    ensures var p, q := RawPacket(0, EncodeHandshake(h)), RawPacket(0, EncodeLoginStart(start));
            EagerExec(cfg, z, Start(link), EagerLogin(p, q)).corrupt
  {
    hide FrameBytes, Encodable, Receivable, DecodeFrame, EagerExec, EagerNext, Raws, EncodeHandshake, EncodeLoginStart,
         DecodeHandshake, IsUtf8, OnLoginStart, Refusal;
    var p, q, ack := RawPacket(0, EncodeHandshake(h)), RawPacket(0, EncodeLoginStart(start)), RawPacket(3, []);
    HelloSmall(h, start);
    PlainFrameSmall(z, p);
    PlainFrameSmall(z, q);
    AcknowledgementSmall();
    PlainFrameSmall(z, ack);
    var fp, fq, fa := FrameBytes(z, None, p), FrameBytes(z, None, q), FrameBytes(z, None, ack);
    EagerSix(cfg, z, Start(link), EagerLogin(p, q));
    EagerSend(cfg, z, Start(link), p);
    var s1 := EagerNext(cfg, z, Start(link), ClientSends(p));
    EagerSend(cfg, z, s1, q);
    var s2 := EagerNext(cfg, z, s1, ClientSends(q));
    EagerSend(cfg, z, s2, ack);
    var s3 := EagerNext(cfg, z, s2, ClientSends(ack));
    assert s3.up == fp + (fq + fa);
    EagerRead(cfg, z, s3, p, fq + fa);
    var s4 := EagerNext(cfg, z, s3, ServerReads(10_000));
    assert p.body + [] == p.body;
    HandshakeExact(h, []);
    assert s4.server == Initial(link).(state := Login, visited := [Handshaking, Login]);
    EagerRead(cfg, z, s4, q, fa);
    var s5 := EagerNext(cfg, z, s4, ServerReads(10_000));
    AsciiIsUtf8(start.name);
    LoginAnswered(cfg, s4.server, start.name, start.uuid);
    EagerRefused(cfg, z, s5, cfg.compression.value);
  }

  lemma AcknowledgementSmall()
    ensures |Raws(RawPacket(3, []))| <= 1000
  {
    VarIntRoundTrip(3, []);
  }

  lemma EagerRefused(cfg: Config, z: Zlib, s: System, t: nat)
    requires t <= 3 ==> z.inflate([], 4).Corrupt? || |z.inflate([], 4).out| != 3
    requires s.server.phase == Running && s.server.threshold == Some(t) && s.up == FrameBytes(z, None, RawPacket(3, []))
    ensures EagerNext(cfg, z, s, ServerReads(10_000)).corrupt
  {
    hide FrameBytes, DecodeFrame, Step;
    PlainAcknowledgementRefused(z, t);
    assert s.up[..2] == s.up;
  }
}
