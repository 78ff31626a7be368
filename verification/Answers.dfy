/**
 What each packet is answered with, from every running connection (crates/net/src/connection.rs): the exact
 connection that results, for the packets that are answered, the ones that are refused, and a transport that
 fails part of the way.
 */
module Answers {
  import opened Bytes
  import opened Utf8
  import opened Wire
  import opened VarInt
  import opened Packets
  import opened Codec
  import opened Connection

  function Entering(c: Conn, to: State): Conn {
    c.(state := to, visited := c.visited + [to])
  }

  // ----- answered -----

  /** A handshake chooses the path; a transfer takes the login path. */
  lemma HandshakeAnswered(cfg: Config, c: Conn, h: Handshake)
    requires c.state == Handshaking && IsUtf8(h.serverAddress) && |h.serverAddress| <= 765
    ensures Step(cfg, c, Arrived(RawPacket(0, EncodeHandshake(h))))
            == Entering(c, if h.nextState == ToStatus then Status else Login)
  {
    hide EncodeHandshake, DecodeHandshake, IsUtf8, Refusal;
    assert EncodeHandshake(h) + [] == EncodeHandshake(h);
    HandshakeExact(h, []);
  }

  lemma StringSize(n: nat)
    ensures 1 + |WriteVarInt(CastI32(n))| + n <= 2_097_151 <==> n <= 2_097_147
  {
    if n < TWO_31 {
      VarIntLenExact(n);
    }
  }

  /**
   A status request, whatever its body: the document the first time, an error the second. A document above
   2 097 147 bytes fits no frame.
   */
  lemma StatusAnswered(cfg: Config, c: Conn, body: bytes)
    requires c.state == Status
    ensures var d := Step(cfg, c, Arrived(RawPacket(0, body)));
            var json := cfg.statusJson;
            d == if c.statusSeen then c.(phase := Failed(DuplicateStatusRequest))
                 else if |json| > 2_097_147 then
                   c.(statusSeen := true, phase := Failed(Protocol(FrameTooLarge(1 + |WriteString(json)|, 2_097_151))))
                 else if c.link == 0 then c.(statusSeen := true, phase := Failed(Protocol(Io)))
                 else c.(statusSeen := true, sent := c.sent + [Outgoing(c.threshold, StatusReply(json))],
                         link := c.link - 1)
  {
    assert |WriteVarInt(0)| == 1;
    hide WriteVarInt, CastI32, Refusal;
    StringSize(|cfg.statusJson|);
  }

  /** A ping is answered whether or not a status request came before it, and ends the connection. */
  lemma PingAnswered(cfg: Config, c: Conn, payload: i64)
    requires c.state == Status && c.phase == Running
    ensures Step(cfg, c, Arrived(RawPacket(1, EncodeBE(8, payload))))
            == if c.link == 0 then c.(phase := Failed(Protocol(Io)))
               else c.(sent := c.sent + [Outgoing(c.threshold, PongReply(payload))], link := c.link - 1,
                       phase := Finished)
  {
    PongSmall(payload);
    hide EncodeBE, ReadI64, Raws, ToRaw, Encodable, Refusal;
    assert EncodeBE(8, payload) + [] == EncodeBE(8, payload);
    I64RoundTrip(payload, []);
  }

  /** A ping straight after the handshake. */
  lemma PingWithoutRequest(cfg: Config, h: Handshake, payload: i64, link: nat)
    requires IsUtf8(h.serverAddress) && |h.serverAddress| <= 765 && h.nextState == ToStatus && link >= 1
    ensures Run(cfg, Initial(link), [Arrived(RawPacket(0, EncodeHandshake(h))),
                                     Arrived(RawPacket(1, EncodeBE(8, payload)))])
            == Conn(Status, false, None, [Outgoing(None, PongReply(payload))], [Handshaking, Status], link - 1,
                    Finished)
  {
    hide EncodeHandshake, EncodeBE, Step, Run, IsUtf8;
    var a, b := Arrived(RawPacket(0, EncodeHandshake(h))), Arrived(RawPacket(1, EncodeBE(8, payload)));
    HandshakeAnswered(cfg, Initial(link), h);
    var c := Step(cfg, Initial(link), a);
    assert c.visited == [Handshaking, Status];
    PingAnswered(cfg, c, payload);
    assert [a, b] == [a] + ([b] + []);
    RunOne(cfg, Initial(link), a, [b] + []);
    RunOne(cfg, c, b, []);
    RunEmpty(cfg, Step(cfg, c, b));
    assert c.sent + [Outgoing(None, PongReply(payload))] == [Outgoing(None, PongReply(payload))];
  }

  /** An acknowledgement moves on whatever its body holds and whatever was sent before it. */
  lemma AcknowledgementAnswered(cfg: Config, c: Conn, body: bytes)
    requires c.state == Login
    ensures Step(cfg, c, Arrived(RawPacket(3, body))) == Entering(c, Configuration)
  {
    hide OnHandshake, OnStatusRequest, OnPing, OnLoginStart;
  }

  /** What a login success grants: the name, and twice the identity derived from it, and no properties. */
  lemma SuccessGrants(cfg: Config, name: bytes)
    ensures Granted(cfg, name).profile.username == name && Granted(cfg, name).profile.properties == []
    ensures Granted(cfg, name).profile.uuid == cfg.offlineUuid(name)
            && Granted(cfg, name).sessionId == cfg.offlineUuid(name)
  {}

  /** The replies to a good name, spelt out. */
  lemma LoginRepliesAre(cfg: Config, th: Threshold, name: bytes)
    ensures var id := cfg.offlineUuid(name);
            var success := SuccessReply(LoginSuccess(GameProfile(id, name, []), id));
            LoginReplies(cfg, th, name)
            == match cfg.compression
               case None => [Outgoing(th, success)]
               case Some(t) => [Outgoing(th, CompressionReply(t)), Outgoing(if t < 0 then None else Some(t), success)]
  {}

  // ----- usernames -----

  predicate NameCharacter(c: char) {
    c in
    {'A', 'B', 'C', 'D', 'E', 'F', 'G', 'H', 'I', 'J', 'K', 'L', 'M', 'N', 'O', 'P', 'Q', 'R', 'S', 'T', 'U', 'V',
     'W', 'X', 'Y', 'Z', 'a', 'b', 'c', 'd', 'e', 'f', 'g', 'h', 'i', 'j', 'k', 'l', 'm', 'n', 'o', 'p', 'q', 'r',
     's', 't', 'u', 'v', 'w', 'x', 'y', 'z', '0', '1', '2', '3', '4', '5', '6', '7', '8', '9', '_'}
  }

  lemma NameByteExact(b: byte)
    ensures NameByte(b) <==> NameCharacter(b as char)
  {}

  /** A good name is one to sixteen of the 63 listed characters. */
  lemma UsernameExact(name: bytes)
    ensures ValidUsername(name) <==>
            1 <= |name| <= 16 && forall i :: 0 <= i < |name| ==> NameCharacter(name[i] as char)
  {
    hide NameByte, NameCharacter;
    forall i | 0 <= i < |name|
      ensures NameByte(name[i]) <==> NameCharacter(name[i] as char)
    {
      NameByteExact(name[i]);
    }
  }

  // ----- refused -----

  /** Any packet the state does not expect ends the connection, and says which. */
  lemma UnexpectedRefused(cfg: Config, c: Conn, p: RawPacket)
    requires (c.state, p.id) !in {(Handshaking, 0), (Status, 0), (Status, 1), (Login, 0), (Login, 3)}
    ensures Step(cfg, c, Arrived(p)) == c.(phase := Failed(UnexpectedPacket(c.state, p.id)))
  {
    hide OnHandshake, OnStatusRequest, OnPing, OnLoginStart, Transition;
  }

  /** A body that does not decode ends the connection with the reason, and nothing is sent. */
  lemma MalformedRefused(cfg: Config, c: Conn, body: bytes)
    ensures c.state == Handshaking && DecodeHandshake(body).Err? ==>
              Step(cfg, c, Arrived(RawPacket(0, body))) == c.(phase := Failed(Protocol(DecodeHandshake(body).error)))
    ensures c.state == Status && ReadI64(body).Err? ==>
              Step(cfg, c, Arrived(RawPacket(1, body))) == c.(phase := Failed(Protocol(ReadI64(body).error)))
    ensures c.state == Login && DecodeLoginStart(body).Err? ==>
              Step(cfg, c, Arrived(RawPacket(0, body))) == c.(phase := Failed(Protocol(DecodeLoginStart(body).error)))
  {
    hide DecodeHandshake, DecodeLoginStart, ReadI64, Refusal, Raws, ToRaw;
  }

  /** So does a body with anything after its fields, by how much. */
  lemma TrailingRefused(cfg: Config, c: Conn, h: Handshake, start: LoginStart, payload: i64, s: bytes)
    requires |s| > 0 && IsUtf8(h.serverAddress) && |h.serverAddress| <= 765 && IsUtf8(start.name) && |start.name| <= 48
    ensures var d := c.(phase := Failed(Protocol(TrailingBytes(|s|))));
            && (c.state == Handshaking ==> Step(cfg, c, Arrived(RawPacket(0, EncodeHandshake(h) + s))) == d)
            && (c.state == Status ==> Step(cfg, c, Arrived(RawPacket(1, EncodeBE(8, payload) + s))) == d)
            && (c.state == Login ==> Step(cfg, c, Arrived(RawPacket(0, EncodeLoginStart(start) + s))) == d)
  {
    hide DecodeHandshake, EncodeHandshake, DecodeLoginStart, EncodeLoginStart, ReadI64, EncodeBE, Refusal, Raws, ToRaw,
         IsUtf8;
    HandshakeExact(h, s);
    LoginStartExact(start, s);
    I64RoundTrip(payload, s);
  }

  /** The other ways to end: a frame that does not decode, silence, and a peer that leaves. */
  lemma EndingsExact(cfg: Config, c: Conn, e: ProtocolError)
    ensures Step(cfg, c, Undecodable(e)) == c.(phase := Failed(Protocol(e)))
    ensures Step(cfg, c, TimedOut) == c.(phase := Failed(Timeout))
    ensures Step(cfg, c, PeerClosed) == c.(phase := Finished)
  {
    hide Handle;
  }

  // ----- a transport that fails part of the way -----

  /**
   A login start on a transport with fewer than two sends left: the switch follows the announcement only once
   that is out, and a refusal that cannot be sent fails as a transport error.
   */
  lemma LoginCutShort(cfg: Config, c: Conn, name: bytes, claimed: u128)
    requires c.phase == Running && c.state == Login && c.link < 2 && IsUtf8(name) && |name| <= 48
    ensures var d := Step(cfg, c, Arrived(RawPacket(0, EncodeLoginStart(LoginStart(name, claimed)))));
            && (c.link == 0 ==> d == c.(phase := Failed(Protocol(Io))))
            && (c.link == 1 && !ValidUsername(name) ==>
                  d == c.(sent := c.sent + [Outgoing(c.threshold, RefusalReply(Refusal()))], link := 0,
                          phase := Failed(InvalidUsername(name))))
            && (c.link == 1 && ValidUsername(name) && cfg.compression.None? ==>
                  d == c.(sent := c.sent + [Outgoing(c.threshold, SuccessReply(Granted(cfg, name)))], link := 0))
            && (c.link == 1 && ValidUsername(name) && cfg.compression.Some? ==>
                  var t := cfg.compression.value;
                  d == c.(sent := c.sent + [Outgoing(c.threshold, CompressionReply(t))], link := 0,
                          threshold := if t < 0 then None else Some(t), phase := Failed(Protocol(Io))))
  {
    RefusalSmall();
    hide EncodeLoginStart, DecodeLoginStart, IsUtf8, Raws, ToRaw, Refusal, NameByte;
    var body := EncodeLoginStart(LoginStart(name, claimed));
    assert body + [] == body;
    LoginStartExact(LoginStart(name, claimed), []);
    if ValidUsername(name) {
      SmallBodies(if cfg.compression.Some? then cfg.compression.value else 0, Granted(cfg, name));
    }
  }
}
