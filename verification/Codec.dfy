/**
 Length-prefixed framing with optional compression (crates/protocol/src/codec.rs). zlib (RFC 1950) is a
 parameter: a pair of functions assumed only to be lossless up to the read limit, and not to expand
 input beyond twice its size and a constant.
 */
module Codec {
  import opened Bytes
  import opened Wire
  import opened VarInt
  import opened Packets

  const MAX_PACKET_SIZE: nat := 2_097_151

  datatype Inflated = Inflated(out: bytes) | Corrupt

  /** `inflate(y, limit)` reads at most `limit` bytes of what `y` inflates to. */
  datatype Zlib = Zlib(deflate: bytes -> bytes, inflate: (bytes, nat) -> Inflated)

  function Take(x: bytes, limit: nat): bytes {
    if |x| <= limit then x else x[..limit]
  }

  ghost predicate Sound(z: Zlib) {
    && (forall x: bytes, limit: nat :: z.inflate(z.deflate(x), limit) == Inflated(Take(x, limit)))
    && (forall x: bytes :: |z.deflate(x)| <= 2 * |x| + 64)
  }

  /** `None` is the uncompressed format. */
  type Threshold = Option<nat>

  function SetCompression(threshold: int): Threshold {
    if threshold < 0 then None else Some(threshold)
  }

  datatype RawPacket = RawPacket(id: i32, body: bytes)

  // ----- decoding -----

  datatype Payload = Raw(data: bytes) | Broken(error: ProtocolError)

  function Decompress(z: Zlib, threshold: nat, frame: bytes): (r: Payload)
    ensures r.Raw? ==> |r.data| <= |frame| || |r.data| <= MAX_PACKET_SIZE
  {
    match ReadVarInt(frame)
    case Err(e) => Broken(e)
    case Ok(declared, rest) =>
      if declared < 0 then Broken(NegativeLength(declared))
      else if declared == 0 then Raw(rest)
      else if declared > MAX_PACKET_SIZE then Broken(FrameTooLarge(declared, MAX_PACKET_SIZE))
      else if declared < threshold then Broken(CompressedBelowThreshold(declared, threshold))
      else match z.inflate(rest, declared + 1)
        case Corrupt => Broken(Decompression)
        case Inflated(out) =>
          if |out| != declared then Broken(CompressedSizeMismatch(declared, |out|)) else Raw(out)
  }

  function Unwrap(z: Zlib, th: Threshold, frame: bytes): (r: Payload)
    ensures r.Raw? && |frame| <= MAX_PACKET_SIZE ==> |r.data| <= MAX_PACKET_SIZE
  {
    match th case None => Raw(frame) case Some(t) => Decompress(z, t, frame)
  }

  datatype Frame = Incomplete | Packet(packet: RawPacket, rest: bytes) | Bad(error: ProtocolError)

  function Open(z: Zlib, th: Threshold, frame: bytes, rest: bytes): (r: Frame)
    ensures r.Packet? ==> r.rest == rest
    ensures !r.Incomplete?
  {
    match Unwrap(z, th, frame)
    case Broken(e) => Bad(e)
    case Raw(data) =>
      match ReadVarInt(data)
      case Err(e) => Bad(e)
      case Ok(id, body) => Packet(RawPacket(id, body), rest)
  }

  /** One frame off the front of the buffer, if it is all there. */
  function DecodeFrame(z: Zlib, th: Threshold, s: bytes): (r: Frame)
    ensures r.Packet? ==> |r.rest| < |s|
  {
    match ReadVarInt(s)
    case Err(e) => if e == UnexpectedEof then Incomplete else Bad(e)
    case Ok(declared, s1) =>
      if declared < 0 then Bad(NegativeLength(declared))
      else if declared > MAX_PACKET_SIZE then Bad(FrameTooLarge(declared, MAX_PACKET_SIZE))
      else if |s1| < declared then Incomplete
      else Open(z, th, s1[..declared], s1[declared..])
  }

  /** More input never changes a frame, or an error, that was already there. */
  lemma FrameExtends(z: Zlib, th: Threshold, s: bytes, t: bytes)
    requires !DecodeFrame(z, th, s).Incomplete?
    ensures DecodeFrame(z, th, s + t) ==
            (match DecodeFrame(z, th, s) case Packet(p, rest) => Packet(p, rest + t) case other => other)
  {
    hide ReadVarInt, Unwrap;
    VarIntExtends(s, t);
    if ReadVarInt(s).Ok? {
      var n, s1 := ReadVarInt(s).value, ReadVarInt(s).rest;
      if 0 <= n <= |s1| {
        assert (s1 + t)[..n] == s1[..n] && (s1 + t)[n..] == s1[n..] + t;
      }
    }
  }

  /** No yielded packet is larger than a frame may be, whatever it inflated from. */
  lemma PacketBounded(z: Zlib, th: Threshold, s: bytes)
    requires DecodeFrame(z, th, s).Packet?
    ensures var p := DecodeFrame(z, th, s).packet; |WriteVarInt(p.id)| + |p.body| <= MAX_PACKET_SIZE
  {
    hide ReadVarInt, WriteVarInt, Unwrap;
    var n, s1 := ReadVarInt(s).value, ReadVarInt(s).rest;
    VarIntRewrite(Unwrap(z, th, s1[..n]).data);
  }

  // ----- encoding -----

  /** The packet id and body: what the length prefix counts, and what is compressed. */
  function Raws(p: RawPacket): (r: bytes)
    ensures |r| >= 1
  {
    WriteVarInt(p.id) + p.body
  }

  /** The frame after its length prefix: plain, marked uncompressed by a zero, or compressed. */
  function Wrap(z: Zlib, th: Threshold, p: RawPacket): bytes {
    match th
    case None => Raws(p)
    case Some(t) =>
      if |Raws(p)| < t then WriteVarInt(0) + Raws(p) else WriteVarInt(CastI32(|Raws(p)|)) + z.deflate(Raws(p))
  }

  datatype Encoded = Sent(out: bytes) | Refused(error: ProtocolError)

  function FrameBytes(z: Zlib, th: Threshold, p: RawPacket): bytes {
    WriteVarInt(CastI32(|Wrap(z, th, p)|)) + Wrap(z, th, p)
  }

  predicate Encodable(p: RawPacket) {
    |Raws(p)| <= MAX_PACKET_SIZE
  }

  function EncodeFrame(z: Zlib, th: Threshold, p: RawPacket): Encoded {
    if !Encodable(p) then Refused(FrameTooLarge(|Raws(p)|, MAX_PACKET_SIZE)) else Sent(FrameBytes(z, th, p))
  }

  /** The outer length is what a decoder bounds; the encoder bounds only the packet. */
  predicate Receivable(z: Zlib, th: Threshold, p: RawPacket) {
    |Wrap(z, th, p)| <= MAX_PACKET_SIZE
  }

  /** A wrapped packet is recovered; the zero marker cannot be confused with a size, since an id takes a byte. */
  lemma WrapRoundTrip(z: Zlib, th: Threshold, p: RawPacket)
    requires Sound(z) && Encodable(p)
    ensures Unwrap(z, th, Wrap(z, th, p)) == Raw(Raws(p))
  {
    hide ReadVarInt, WriteVarInt, Raws, CastI32;
    var raw := Raws(p);
    if th.Some? {
      VarIntRoundTrip(0, raw);
      VarIntRoundTrip(CastI32(|raw|), z.deflate(raw));
      assert z.inflate(z.deflate(raw), |raw| + 1) == Inflated(raw);
    }
  }

  /**
   What the four guards amount to, whoever compressed the payload and whatever size was declared for it: it
   is accepted exactly when the declared size is the true one, not below the threshold and within the bound;
   a size that passes the bounds and is wrong is reported with at most one byte inflated beyond it.
   */
  lemma CompressedExact(z: Zlib, t: nat, declared: i32, x: bytes)
    requires Sound(z) && declared != 0
    ensures var r := Decompress(z, t, WriteVarInt(declared) + z.deflate(x));
            && (r.Raw? <==> declared == |x| && t <= |x| <= MAX_PACKET_SIZE)
            && (r.Raw? ==> r.data == x)
            && (declared != |x| && 0 < declared && t <= declared <= MAX_PACKET_SIZE ==>
                  r == Broken(CompressedSizeMismatch(declared, if |x| < declared then |x| else declared + 1)))
  {
    hide ReadVarInt, WriteVarInt;
    VarIntRoundTrip(declared, z.deflate(x));
  }

  lemma WrapShort(z: Zlib, th: Threshold, p: RawPacket)
    requires Sound(z) && Encodable(p)
    ensures |Wrap(z, th, p)| <= 2 * |Raws(p)| + 69 < TWO_31
  {
    hide ReadVarInt, WriteVarInt, Raws, CastI32;
    VarIntRoundTrip(0, []);
    VarIntRoundTrip(CastI32(|Raws(p)|), []);
  }

  /**
   A frame the encoder made is decoded to its packet exactly when its outer length is within the frame
   bound; otherwise the decoder refuses it by that length.
   */
  lemma FrameExact(z: Zlib, th: Threshold, p: RawPacket, s: bytes)
    requires Sound(z) && Encodable(p)
    ensures DecodeFrame(z, th, FrameBytes(z, th, p) + s) ==
            if Receivable(z, th, p) then Packet(p, s) else Bad(FrameTooLarge(|Wrap(z, th, p)|, MAX_PACKET_SIZE))
  {
    WrapShort(z, th, p);
    WrapRoundTrip(z, th, p);
    VarIntRoundTrip(p.id, p.body);
    hide ReadVarInt, WriteVarInt, CastI32, Wrap, Unwrap;
    var w := Wrap(z, th, p);
    Assoc(WriteVarInt(CastI32(|w|)), w, s);
    VarIntRoundTrip(CastI32(|w|), w + s);
    Split(w, s);
  }

  /** Plain frames are always receivable; marked ones exactly when one byte is to spare. */
  lemma ReceivableCases(z: Zlib, th: Threshold, p: RawPacket)
    requires Encodable(p)
    ensures th.None? ==> Receivable(z, th, p)
    ensures th.Some? && |Raws(p)| < th.value ==> (Receivable(z, th, p) <==> |Raws(p)| < MAX_PACKET_SIZE)
  {
    hide Raws;
    assert |WriteVarInt(0)| == 1;
  }

  /** The encoder accepts a packet its own decoder then refuses: the largest one, marked uncompressed. */
  lemma LargestPacketLost(z: Zlib)
    requires Sound(z)
    ensures exists p: RawPacket, th: Threshold ::
              EncodeFrame(z, th, p).Sent? && DecodeFrame(z, th, EncodeFrame(z, th, p).out).Bad?
  {
    var p := RawPacket(0, seq(MAX_PACKET_SIZE - 1, _ => 0));
    var th: Threshold := Some(MAX_PACKET_SIZE + 1);
    assert |WriteVarInt(0)| == 1;
    assert |Raws(p)| == MAX_PACKET_SIZE;
    hide Raws, Wrap, DecodeFrame, WriteVarInt;
    ReceivableCases(z, th, p);
    FrameExact(z, th, p, []);
    assert FrameBytes(z, th, p) + [] == FrameBytes(z, th, p);
    assert EncodeFrame(z, th, p).Sent? && DecodeFrame(z, th, EncodeFrame(z, th, p).out).Bad?;
  }

  /** Small packets are receivable in every format, so login never runs into the outer bound. */
  lemma SmallReceivable(z: Zlib, th: Threshold, p: RawPacket)
    requires Sound(z) && |Raws(p)| <= 1_000_000
    ensures Encodable(p) && Receivable(z, th, p)
  {
    hide Raws, Wrap;
    WrapShort(z, th, p);
  }

  // ----- what the threshold means -----

  /**
   Announcing `t` means, for sender and receiver: a negative `t` puts plain frames in force; otherwise a packet
   of at least `t` bytes is compressed and its size announced, a smaller one is marked by a zero; and a
   compressed payload of `|x|` bytes is taken exactly when `t <= |x| <= 2_097_151`.
   */
  lemma ThresholdMeans(z: Zlib, t: int, p: RawPacket, x: bytes)
    requires Sound(z) && Encodable(p) && 0 < |x| < TWO_31
    ensures t < 0 ==> Wrap(z, SetCompression(t), p) == Raws(p)
    ensures t < 0 ==> forall frame :: Unwrap(z, SetCompression(t), frame) == Raw(frame)
    ensures t >= 0 ==> ReadVarInt(Wrap(z, SetCompression(t), p))
                       == if |Raws(p)| < t then Ok(0, Raws(p)) else Ok(|Raws(p)|, z.deflate(Raws(p)))
    ensures t >= 0 ==> Unwrap(z, SetCompression(t), WriteVarInt(|x|) + z.deflate(x))
                       == if |x| > 2_097_151 then Broken(FrameTooLarge(|x|, 2_097_151))
                          else if |x| < t then Broken(CompressedBelowThreshold(|x|, t)) else Raw(x)
  {
    hide ReadVarInt, WriteVarInt, Raws, CastI32;
    VarIntRoundTrip(0, Raws(p));
    VarIntRoundTrip(CastI32(|Raws(p)|), z.deflate(Raws(p)));
    VarIntRoundTrip(|x|, z.deflate(x));
  }

  /** The encoder refuses exactly the packets above 2 097 151 bytes, by their size. */
  lemma EncoderCap(z: Zlib, th: Threshold, p: RawPacket)
    ensures EncodeFrame(z, th, p) == if |WriteVarInt(p.id) + p.body| > 2_097_151
                                     then Refused(FrameTooLarge(|WriteVarInt(p.id) + p.body|, 2_097_151))
                                     else Sent(FrameBytes(z, th, p))
  {}

  // ----- what decoding says of every input -----

  /** The decoder asks for more exactly when the length, or the frame it announces, is not all there yet. */
  lemma IncompleteExact(z: Zlib, th: Threshold, s: bytes)
    ensures DecodeFrame(z, th, s).Incomplete? <==>
            || (|s| < 5 && AllContinue(s, |s|))
            || (exists n: nat, rest: bytes :: ReadVarInt(s) == Ok(n, rest) && |rest| < n <= 2_097_151)
  {
    hide ReadVarInt, AllContinue, Open;
    VarIntOutcome(s);
  }

  /** A length that cannot be one is refused at once, by its value, whatever else has arrived. */
  lemma LengthRefused(z: Zlib, th: Threshold, s: bytes)
    ensures |s| >= 5 && AllContinue(s, 5) ==> DecodeFrame(z, th, s) == Bad(VarIntTooLong(5))
    ensures forall n: int, rest: bytes :: ReadVarInt(s) == Ok(n, rest) ==>
              && (n < 0 ==> DecodeFrame(z, th, s) == Bad(NegativeLength(n)))
              && (n > 2_097_151 ==> DecodeFrame(z, th, s) == Bad(FrameTooLarge(n, 2_097_151)))
  {
    hide ReadVarInt, AllContinue, Open;
    VarIntOutcome(s);
  }

  /** A packet is decoded exactly when a length, however padded, announces a frame that unwraps to its id and body. */
  lemma FrameReadExact(z: Zlib, th: Threshold, s: bytes, p: RawPacket, rest: bytes)
    ensures DecodeFrame(z, th, s) == Packet(p, rest) <==>
            exists frame: bytes, data: bytes ::
              && ReadVarInt(s) == Ok(|frame|, frame + rest) && |frame| <= 2_097_151
              && Unwrap(z, th, frame) == Raw(data) && ReadVarInt(data) == Ok(p.id, p.body)
  {
    hide ReadVarInt, Unwrap;
    if DecodeFrame(z, th, s) == Packet(p, rest) {
      var n, s1 := ReadVarInt(s).value, ReadVarInt(s).rest;
      assert s1 == s1[..n] + s1[n..];
      assert ReadVarInt(s) == Ok(|s1[..n]|, s1[..n] + rest);
    }
    forall frame: bytes, data: bytes |
      && ReadVarInt(s) == Ok(|frame|, frame + rest) && |frame| <= 2_097_151
      && Unwrap(z, th, frame) == Raw(data) && ReadVarInt(data) == Ok(p.id, p.body)
      ensures DecodeFrame(z, th, s) == Packet(p, rest)
    {
      Split(frame, rest);
    }
  }

  /**
   With any zlib and under any threshold, a payload is taken exactly when it is marked uncompressed, or declares
   a permitted size and inflates to just that many bytes.
   */
  lemma PayloadReadExact(z: Zlib, t: nat, frame: bytes, x: bytes)
    ensures Decompress(z, t, frame) == Raw(x) <==>
            || ReadVarInt(frame) == Ok(0, x)
            || exists rest: bytes ::
                 && ReadVarInt(frame) == Ok(|x|, rest) && 0 < |x| && t <= |x| <= 2_097_151
                 && z.inflate(rest, |x| + 1) == Inflated(x)
  {
    hide ReadVarInt;
  }

  /** Every reason to refuse a payload, in the order they are tried; one that does not inflate is never taken. */
  lemma PayloadRefusals(z: Zlib, t: nat, frame: bytes)
    ensures var p, r := ReadVarInt(frame), Decompress(z, t, frame);
            && (p.Err? ==> r == Broken(p.error))
            && (p.Ok? && p.value < 0 ==> r == Broken(NegativeLength(p.value)))
            && (p.Ok? && p.value > 2_097_151 ==> r == Broken(FrameTooLarge(p.value, 2_097_151)))
            && (p.Ok? && 0 < p.value <= 2_097_151 && p.value < t ==> r == Broken(CompressedBelowThreshold(p.value, t)))
            && (p.Ok? && 0 < p.value <= 2_097_151 && t <= p.value ==>
                  match z.inflate(p.rest, p.value + 1)
                  case Corrupt => r == Broken(Decompression)
                  case Inflated(out) => |out| != p.value ==> r == Broken(CompressedSizeMismatch(p.value, |out|)))
  {
    hide ReadVarInt;
  }

  // ----- streams -----

  /** The packets decoded so far, the bytes left over, and the error that ended the stream, if any. */
  datatype Stream = Stream(packets: seq<RawPacket>, buffer: bytes, error: Option<ProtocolError>)

  function After(done: seq<RawPacket>, st: Stream): Stream {
    Stream(done + st.packets, st.buffer, st.error)
  }

  /** Decode until the decoder asks for more. */
  function Drain(z: Zlib, th: Threshold, s: bytes): (st: Stream)
    ensures st.error.None? ==> DecodeFrame(z, th, st.buffer).Incomplete?
    decreases |s|
  {
    match DecodeFrame(z, th, s)
    case Incomplete => Stream([], s, None)
    case Bad(e) => Stream([], [], Some(e))
    case Packet(p, rest) => After([p], Drain(z, th, rest))
  }

  /** Chunks arrive one at a time; after each, decode until the decoder asks for more. */
  function Feed(z: Zlib, th: Threshold, buffer: bytes, chunks: seq<bytes>): (st: Stream)
    decreases |chunks|
  {
    if chunks == [] then Stream([], buffer, None)
    else
      var d := Drain(z, th, buffer + chunks[0]);
      if d.error.Some? then d else After(d.packets, Feed(z, th, d.buffer, chunks[1..]))
  }

  function Concat(chunks: seq<bytes>): bytes {
    if chunks == [] then [] else chunks[0] + Concat(chunks[1..])
  }

  lemma {:induction false} DrainAppend(z: Zlib, th: Threshold, s: bytes, t: bytes)
    ensures var d := Drain(z, th, s);
            Drain(z, th, s + t) == if d.error.Some? then d else After(d.packets, Drain(z, th, d.buffer + t))
    decreases |s|
  {
    hide DecodeFrame;
    if !DecodeFrame(z, th, s).Incomplete? {
      FrameExtends(z, th, s, t);
      if DecodeFrame(z, th, s).Packet? {
        DrainAppend(z, th, DecodeFrame(z, th, s).rest, t);
      }
    }
  }

  /**
   Fragmentation independence: however a byte stream is split, the packets, the first error and the bytes
   left over are those of decoding it whole.
   */
  lemma {:induction false} FragmentationIndependent(z: Zlib, th: Threshold, buffer: bytes, chunks: seq<bytes>)
    requires DecodeFrame(z, th, buffer).Incomplete?
    ensures Feed(z, th, buffer, chunks) == Drain(z, th, buffer + Concat(chunks))
    decreases |chunks|
  {
    hide DecodeFrame;
    if chunks == [] {
      assert buffer + Concat(chunks) == buffer;
    } else {
      var d, tail := Drain(z, th, buffer + chunks[0]), Concat(chunks[1..]);
      Assoc(buffer, chunks[0], tail);
      DrainAppend(z, th, buffer + chunks[0], tail);
      if d.error.None? {
        FragmentationIndependent(z, th, d.buffer, chunks[1..]);
      }
    }
  }

  function EncodeAll(z: Zlib, th: Threshold, ps: seq<RawPacket>): bytes {
    if ps == [] then [] else FrameBytes(z, th, ps[0]) + EncodeAll(z, th, ps[1..])
  }

  predicate AllReceivable(z: Zlib, th: Threshold, ps: seq<RawPacket>) {
    forall i :: 0 <= i < |ps| ==> Encodable(ps[i]) && Receivable(z, th, ps[i])
  }

  lemma {:induction false} SequenceRoundTrip(z: Zlib, th: Threshold, ps: seq<RawPacket>)
    requires Sound(z) && AllReceivable(z, th, ps)
    ensures Drain(z, th, EncodeAll(z, th, ps)) == Stream(ps, [], None)
    decreases |ps|
  {
    hide DecodeFrame, FrameBytes, Receivable, Encodable;
    if ps == [] {
      EmptyIncomplete(z, th);
    } else {
      FrameExact(z, th, ps[0], EncodeAll(z, th, ps[1..]));
      SequenceRoundTrip(z, th, ps[1..]);
      assert ps == [ps[0]] + ps[1..];
      assert |EncodeAll(z, th, ps[1..])| < |EncodeAll(z, th, ps)|;
    }
  }

  lemma EmptyIncomplete(z: Zlib, th: Threshold)
    ensures DecodeFrame(z, th, []).Incomplete?
  {}

  /** Encode any packets, cut the bytes anywhere, decode: the same packets in order, nothing left over. */
  lemma FragmentedRoundTrip(z: Zlib, th: Threshold, ps: seq<RawPacket>, chunks: seq<bytes>)
    requires Sound(z) && AllReceivable(z, th, ps) && Concat(chunks) == EncodeAll(z, th, ps)
    ensures Feed(z, th, [], chunks) == Stream(ps, [], None)
  {
    hide DecodeFrame, EncodeAll, Drain, Feed, Concat;
    EmptyIncomplete(z, th);
    FragmentationIndependent(z, th, [], chunks);
    assert [] + Concat(chunks) == Concat(chunks);
    SequenceRoundTrip(z, th, ps);
  }

  // ----- the codec as the source runs it -----

  class PacketCodec {
    const z: Zlib
    var threshold: Threshold
    var scratch: Sink
    var compressed: bytes

    constructor (z: Zlib)
      ensures threshold == None && this.z == z && fresh(scratch)
    {
      this.z := z;
      threshold := None;
      scratch := new Sink();
      compressed := [];
    }

    method SetThreshold(t: int)
      modifies this`threshold
      ensures threshold == SetCompression(t)
    {
      threshold := if t < 0 then None else Some(t);
    }

    method Inflate(src: Source, t: nat) returns (r: Outcome<bytes>)
      modifies src
      ensures match Decompress(z, t, old(src.rest))
              case Raw(data) => r == Success(data)
              case Broken(e) => r == Failure(e)
    {
      hide ReadVarInt;
      var declared :- GetVarInt(src);
      if declared < 0 {
        return Failure(NegativeLength(declared));
      }
      if declared == 0 {
        return Success(src.rest);
      }
      if declared > MAX_PACKET_SIZE {
        return Failure(FrameTooLarge(declared, MAX_PACKET_SIZE));
      }
      if declared < t {
        return Failure(CompressedBelowThreshold(declared, t));
      }
      match z.inflate(src.rest, declared + 1)
      case Corrupt => return Failure(Decompression);
      case Inflated(out) =>
        if |out| != declared {
          return Failure(CompressedSizeMismatch(declared, |out|));
        }
        return Success(out);
    }

    /** An incomplete frame consumes nothing; a decoded one is removed from the front. */
    method Decode(src: Source) returns (r: Outcome<Option<RawPacket>>)
      modifies src
      ensures match DecodeFrame(z, threshold, old(src.rest))
              case Incomplete => r == Success(None) && src.rest == old(src.rest)
              case Packet(p, rest) => r == Success(Some(p)) && src.rest == rest
              case Bad(e) => r == Failure(e)
    {
      hide ReadVarInt, Decompress;
      var peeked := PeekVarInt(src.rest);
      VarIntWidth(src.rest);
      match peeked
      case Partial => return Success(None);
      case Overlong => return Failure(VarIntTooLong(MAX_VARINT_LEN));
      case Value(declared, prefix) =>
        if declared < 0 {
          return Failure(NegativeLength(declared));
        }
        if declared > MAX_PACKET_SIZE {
          return Failure(FrameTooLarge(declared, MAX_PACKET_SIZE));
        }
        var frameLen := prefix + declared;
        if |src.rest| < frameLen {
          return Success(None);
        }
        var body := new Source(src.rest[prefix..frameLen]);
        assert src.rest[prefix..][..declared] == body.rest && src.rest[prefix..][declared..] == src.rest[frameLen..];
        src.rest := src.rest[frameLen..];
        if threshold.Some? {
          var inflated :- Inflate(body, threshold.value);
          body := new Source(inflated);
        }
        var id :- GetVarInt(body);
        return Success(Some(RawPacket(id, body.rest)));
    }

    /** Appends the frame, or refuses the packet and appends nothing. */
    method Encode(p: RawPacket, dst: Sink) returns (error: Option<ProtocolError>)
      requires dst != scratch
      modifies this`compressed, scratch, dst
      ensures match EncodeFrame(z, threshold, p)
              case Sent(out) => error == None && dst.data == old(dst.data) + out
              case Refused(e) => error == Some(e) && dst.data == old(dst.data)
    {
      hide WriteVarInt, CastI32, VarIntLen, FrameBytes, Raws;
      FrameForms(z, threshold, p);
      FillScratch(p);
      var len := |scratch.data|;
      if len > MAX_PACKET_SIZE {
        return Some(FrameTooLarge(len, MAX_PACKET_SIZE));
      }
      if threshold.None? {
        PutPlain(dst, CastI32(len), scratch.data);
        return None;
      }
      if len < threshold.value {
        PutMarked(dst, CastI32(1 + len), 0, scratch.data);
        return None;
      }
      compressed := z.deflate(scratch.data);
      PutMarked(dst, CastI32(VarIntLen(CastI32(len)) + |compressed|), CastI32(len), compressed);
      return None;
    }

    /** The id and body, encoded before their length is known. */
    method FillScratch(p: RawPacket)
      modifies scratch
      ensures scratch.data == Raws(p)
    {
      scratch.data := [];
      PutVarInt(scratch, p.id);
      scratch.Put(p.body);
    }
  }

  method PutPlain(dst: Sink, outer: i32, body: bytes)
    modifies dst
    ensures dst.data == old(dst.data) + (WriteVarInt(outer) + body)
  {
    PutVarInt(dst, outer);
    dst.Put(body);
  }

  method PutMarked(dst: Sink, outer: i32, dataLength: i32, body: bytes)
    modifies dst
    ensures dst.data == old(dst.data) + (WriteVarInt(outer) + (WriteVarInt(dataLength) + body))
  {
    PutVarInt(dst, outer);
    PutVarInt(dst, dataLength);
    dst.Put(body);
    AssocFour(old(dst.data), WriteVarInt(outer), WriteVarInt(dataLength), body);
  }

  lemma AssocFour(a: bytes, b: bytes, c: bytes, d: bytes)
    ensures ((a + b) + c) + d == a + (b + (c + d))
  {
    Assoc(a, b, c);
    Assoc(a, b + c, d);
    Assoc(b, c, d);
  }

  /** The three frame forms with their outer lengths, computed as the encoder computes them. */
  lemma FrameForms(z: Zlib, th: Threshold, p: RawPacket)
    ensures var raw := Raws(p); var len := |raw|;
            FrameBytes(z, th, p) ==
            if th.None? then WriteVarInt(CastI32(len)) + raw
            else if len < th.value then WriteVarInt(CastI32(1 + len)) + (WriteVarInt(0) + raw)
            else
              WriteVarInt(CastI32(VarIntLen(CastI32(len)) + |z.deflate(raw)|))
              + (WriteVarInt(CastI32(len)) + z.deflate(raw))
  {
    hide Raws, CastI32;
    var len := |Raws(p)|;
    VarIntLenExact(0);
    VarIntLenExact(CastI32(len));
    hide WriteVarInt;
  }

  lemma VarIntWidth(s: bytes)
    ensures ReadVarInt(s).Ok? ==> |ReadVarInt(s).rest| < |s| && ReadVarInt(s).rest == s[|s| - |ReadVarInt(s).rest|..]
    ensures ReadVarInt(s).Err? ==>
              ReadVarInt(s).error == UnexpectedEof || ReadVarInt(s).error == VarIntTooLong(MAX_VARINT_LEN)
  {
    hide ReadGroups;
  }
}
