/**
 The server's replies as bytes, and what the client at the other end makes of them (crates/protocol/src/packets/
 status.rs, packets/login.rs): a reference decoder, written from the packets' own field lists and limits, that
 recovers every reply from the wire.
 */
module Replies {
  import opened Bytes
  import opened Utf8
  import opened Wire
  import opened VarInt
  import opened Packets
  import opened Codec
  import opened Connection

  // ----- replies as bytes -----

  function WireOf(z: Zlib, sent: seq<Outgoing>): bytes {
    if sent == [] then []
    else WireOf(z, sent[..|sent| - 1]) + FrameBytes(z, sent[|sent| - 1].format, ToRaw(sent[|sent| - 1].reply))
  }

  lemma WireSnoc(z: Zlib, sent: seq<Outgoing>, o: Outgoing)
    ensures WireOf(z, sent + [o]) == WireOf(z, sent) + FrameBytes(z, o.format, ToRaw(o.reply))
  {
    assert (sent + [o])[..|sent|] == sent;
  }

  // ----- one reply -----

  function Content<T>(r: Field<T>): Option<T> {
    match r case Ok(v, s) => (if s == [] then Some(v) else None) case Err(_) => None
  }

  /** What a client that is logging in, or asking for status, takes a packet to say. */
  function ReadReply(login: bool, p: RawPacket): Option<Reply> {
    if login && p.id == 0 then
      match Content(ReadString(p.body, 262_144)) case Some(reason) => Some(RefusalReply(reason)) case None => None
    else if login && p.id == 2 then
      match Content(DecodeLoginSuccess(p.body)) case Some(success) => Some(SuccessReply(success)) case None => None
    else if login && p.id == 3 then
      match Content(ReadVarInt(p.body)) case Some(t) => Some(CompressionReply(t)) case None => None
    else if !login && p.id == 0 then
      match Content(ReadString(p.body, 32_767)) case Some(json) => Some(StatusReply(json)) case None => None
    else if !login && p.id == 1 then
      match Content(ReadI64(p.body)) case Some(payload) => Some(PongReply(payload)) case None => None
    else None
  }

  /** What the types and the packets' limits ask of a reply. */
  predicate Readable(login: bool, r: Reply) {
    match r
    case StatusReply(json) => !login && IsUtf8(json) && |json| <= 98_301
    case PongReply(_) => !login
    case RefusalReply(reason) => login && IsUtf8(reason) && |reason| <= 786_432
    case CompressionReply(_) => login
    case SuccessReply(s) => login && SuccessFits(s) && IsUtf8(s.profile.username) && AllTyped(s.profile.properties)
  }

  /** Every reply is recovered from its packet, content and all. */
  lemma ReplyRead(login: bool, r: Reply)
    requires Readable(login, r)
    ensures ReadReply(login, ToRaw(r)) == Some(r)
  {
    hide ReadString, WriteString, ReadVarInt, WriteVarInt, ReadI64, EncodeBE, DecodeLoginSuccess, EncodeLoginSuccess,
         IsUtf8, SuccessFits, AllTyped;
    match r
    case StatusReply(json) =>
      assert WriteString(json) + [] == WriteString(json);
      StringExact(json, 32_767, []);
    case PongReply(payload) =>
      assert EncodeBE(8, payload) + [] == EncodeBE(8, payload);
      I64RoundTrip(payload, []);
    case RefusalReply(reason) =>
      assert WriteString(reason) + [] == WriteString(reason);
      StringExact(reason, 262_144, []);
    case CompressionReply(t) =>
      assert WriteVarInt(t) + [] == WriteVarInt(t);
      VarIntRoundTrip(t, []);
    case SuccessReply(s) =>
      assert EncodeLoginSuccess(s) + [] == EncodeLoginSuccess(s);
      LoginSuccessExact(s, []);
  }

  // ----- all that was sent -----

  /** The replies understood, and the bytes left when one was not. */
  datatype Understood = Understood(replies: seq<Reply>, rest: bytes)

  /** A client decodes frame after frame, and switches format when it is told to. */
  function Understand(z: Zlib, login: bool, th: Threshold, s: bytes): Understood
    decreases |s|
  {
    match DecodeFrame(z, th, s)
    case Incomplete => Understood([], s)
    case Bad(_) => Understood([], s)
    case Packet(p, rest) =>
      match ReadReply(login, p)
      case None => Understood([], s)
      case Some(r) => AfterReply(r, Understand(z, login, NextFormat(th, r), rest))
  }

  function AfterReply(r: Reply, u: Understood): Understood {
    Understood([r] + u.replies, u.rest)
  }

  function NextFormat(th: Threshold, r: Reply): Threshold {
    match r
    case CompressionReply(t) => if t < 0 then None else Some(t)
    case _ => th
  }

  function Contents(sent: seq<Outgoing>): (rs: seq<Reply>)
    ensures |rs| == |sent| && forall i :: 0 <= i < |sent| ==> rs[i] == sent[i].reply
  {
    seq(|sent|, i requires 0 <= i < |sent| => sent[i].reply)
  }

  /** A status document its own packet allows. */
  predicate Sendable(cfg: Config) {
    IsUtf8(cfg.statusJson) && |cfg.statusJson| <= 98_301
  }

  predicate Plain(text: string) {
    forall i :: 0 <= i < |text| ==> text[i] as int < 0x80
  }

  lemma PlainAppend(a: string, b: string)
    requires Plain(a) && Plain(b)
    ensures Plain(a + b)
  {}

  lemma PlainIsUtf8(text: string)
    requires Plain(text)
    ensures IsUtf8(Ascii(text))
  {
    AsciiIsUtf8(Ascii(text));
  }

  lemma RefusalIsUtf8()
    ensures IsUtf8(Refusal())
  {
    var a, b, c, d, e := "{\"text\":\"Invalid ", "username. ", "Use 1-16 characters ", "of A-Z, a-z, ", "0-9 or _.\"}";
    assert Plain(a);
    assert Plain(b);
    assert Plain(c);
    assert Plain(d);
    assert Plain(e);
    hide Plain, IsUtf8, Ascii;
    PlainAppend(d, e);
    PlainAppend(c, d + e);
    PlainAppend(b, c + (d + e));
    PlainAppend(a, b + (c + (d + e)));
    PlainIsUtf8(REFUSAL_TEXT);
  }

  /** The refusal is a text of 71 characters that names the problem. */
  lemma RefusalIsText()
    ensures |Refusal()| == 71 && Refusal()[17..25] == Ascii("username")
  {
    assert REFUSAL_TEXT[17..25] == "username. "[..8];
    AsciiSlice(REFUSAL_TEXT, 17, 25);
  }

  lemma AsciiSlice(text: string, i: nat, j: nat)
    requires i <= j <= |text|
    ensures Ascii(text)[i..j] == Ascii(text[i..j])
  {}

  /** Whatever a run may send can be read, and is small enough for any format. */
  lemma ProperReadable(cfg: Config, visited: seq<State>, r: Reply)
    requires Proper(cfg, visited, r) && Sendable(cfg)
    ensures Readable(OnLogin(visited), r) && |Raws(ToRaw(r))| <= 1_000_000
  {
    RefusalIsUtf8();
    hide WriteVarInt, EncodeBE, CastI32, Refusal, IsUtf8, NameByte;
    VarIntRoundTrip(ToRaw(r).id, []);
    match r
    case StatusReply(json) => VarIntRoundTrip(CastI32(|json|), []);
    case RefusalReply(reason) => VarIntRoundTrip(CastI32(|reason|), []);
    case CompressionReply(t) => VarIntRoundTrip(t, []);
    case SuccessReply(s) =>
      ValidIsUtf8(s.profile.username);
      SmallBodies(0, s);
    case _ =>
  }

  lemma ValidIsUtf8(name: bytes)
    requires ValidUsername(name)
    ensures IsUtf8(name)
  {
    AsciiIsUtf8(name);
  }

  lemma UnderstandOne(z: Zlib, login: bool, th: Threshold, r: Reply, s: bytes)
    requires Sound(z) && Readable(login, r) && |Raws(ToRaw(r))| <= 1_000_000
    ensures Understand(z, login, th, FrameBytes(z, th, ToRaw(r)) + s)
            == AfterReply(r, Understand(z, login, NextFormat(th, r), s))
  {
    hide DecodeFrame, FrameBytes, Raws, ToRaw, ReadReply, Readable, Encodable, Receivable;
    SmallReceivable(z, th, ToRaw(r));
    FrameExact(z, th, ToRaw(r), s);
    ReplyRead(login, r);
  }

  function AfterReplies(rs: seq<Reply>, u: Understood): Understood {
    Understood(rs + u.replies, u.rest)
  }

  lemma {:induction false} LogUnderstood(cfg: Config, z: Zlib, visited: seq<State>, sent: seq<Outgoing>, s: bytes)
    requires Sound(z) && Sendable(cfg) && Log(cfg, visited, sent)
    ensures var login := OnLogin(visited);
            Understand(z, login, None, WireOf(z, sent) + s)
            == AfterReplies(Contents(sent), Understand(z, login, FormatAfter(sent), s))
    decreases |sent|
  {
    hide Understand, FrameBytes, ToRaw, Proper, Readable, Raws, OnLogin, HasStatus, Sendable;
    var login := OnLogin(visited);
    if sent == [] {
      assert WireOf(z, sent) + s == s && Contents(sent) == [];
    } else {
      var init, o := sent[..|sent| - 1], sent[|sent| - 1];
      var frame := FrameBytes(z, o.format, ToRaw(o.reply));
      LogUnderstood(cfg, z, visited, init, frame + s);
      Assoc(WireOf(z, init), frame, s);
      ProperReadable(cfg, visited, o.reply);
      UnderstandOne(z, login, o.format, o.reply, s);
      assert Contents(sent) == Contents(init) + [o.reply];
    }
  }

  /** In every run, a client that follows the format recovers from the wire exactly the replies sent, in order. */
  lemma WireUnderstood(cfg: Config, z: Zlib, c: Conn)
    requires Sound(z) && Sendable(cfg) && Safe(cfg, c)
    ensures Understand(z, OnLogin(c.visited), None, WireOf(z, c.sent)) == Understood(Contents(c.sent), [])
  {
    LogUnderstood(cfg, z, c.visited, c.sent, []);
    assert WireOf(z, c.sent) + [] == WireOf(z, c.sent);
    EmptyIncomplete(z, FormatAfter(c.sent));
    assert Contents(c.sent) + [] == Contents(c.sent);
    hide WireOf, FormatAfter, DecodeFrame, Log, Legal;
  }
}
