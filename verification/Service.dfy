/**
 A connection driven by raw bytes (crates/net/src/connection.rs, `run`): frames are decoded one at a time,
 each in the format in force once the frame before it has been handled. The classes run it as the source
 does and put real frames on the wire.
 */
module Service {
  import opened Bytes
  import opened Wire
  import opened Packets
  import opened Codec
  import opened Connection
  import opened Replies

  // ----- bytes in, state out -----

  /** A connection and the bytes it has received but not yet decoded. */
  datatype Session = Session(conn: Conn, buffer: bytes)

  /** Decode and handle until the decoder asks for more or the connection ends; an ended one drops its input. */
  function Pump(cfg: Config, z: Zlib, c: Conn, s: bytes): (r: Session)
    ensures r.conn.phase == Running ==> DecodeFrame(z, r.conn.threshold, r.buffer).Incomplete?
    ensures r.conn.phase != Running ==> r.buffer == []
    decreases |s|
  {
    if c.phase != Running then Session(c, [])
    else match DecodeFrame(z, c.threshold, s)
      case Incomplete => Session(c, s)
      case Bad(e) => Session(Step(cfg, c, Undecodable(e)), [])
      case Packet(p, rest) => Pump(cfg, z, Step(cfg, c, Arrived(p)), rest)
  }

  function Receive(cfg: Config, z: Zlib, st: Session, chunk: bytes): Session {
    Pump(cfg, z, st.conn, st.buffer + chunk)
  }

  function ReceiveAll(cfg: Config, z: Zlib, st: Session, chunks: seq<bytes>): Session
    decreases |chunks|
  {
    if chunks == [] then st else ReceiveAll(cfg, z, Receive(cfg, z, st, chunks[0]), chunks[1..])
  }

  predicate Settled(z: Zlib, st: Session) {
    if st.conn.phase == Running then DecodeFrame(z, st.conn.threshold, st.buffer).Incomplete? else st.buffer == []
  }

  lemma {:induction false} PumpAppend(cfg: Config, z: Zlib, c: Conn, s: bytes, t: bytes)
    ensures Pump(cfg, z, c, s + t) == Receive(cfg, z, Pump(cfg, z, c, s), t)
    decreases |s|
  {
    hide DecodeFrame, Step;
    if c.phase == Running && !DecodeFrame(z, c.threshold, s).Incomplete? {
      FrameExtends(z, c.threshold, s, t);
      if DecodeFrame(z, c.threshold, s).Packet? {
        var p, rest := DecodeFrame(z, c.threshold, s).packet, DecodeFrame(z, c.threshold, s).rest;
        PumpAppend(cfg, z, Step(cfg, c, Arrived(p)), rest, t);
      } else {
        UndecodableEnds(cfg, c, DecodeFrame(z, c.threshold, s).error);
      }
    }
  }

  lemma UndecodableEnds(cfg: Config, c: Conn, e: ProtocolError)
    ensures Step(cfg, c, Undecodable(e)).phase != Running
  {}

  /**
   However the peer's bytes are cut into reads, the connection ends in the same state, having sent the same
   replies, even when handling a frame changes the format of the next one.
   */
  lemma {:induction false} ReadsIrrelevant(cfg: Config, z: Zlib, st: Session, chunks: seq<bytes>)
    requires Settled(z, st)
    ensures ReceiveAll(cfg, z, st, chunks) == Receive(cfg, z, st, Concat(chunks))
    decreases |chunks|
  {
    hide DecodeFrame, Pump;
    if chunks == [] {
      assert st.buffer + [] == st.buffer;
      PumpSettled(cfg, z, st);
    } else {
      PumpAppend(cfg, z, st.conn, st.buffer + chunks[0], Concat(chunks[1..]));
      Assoc(st.buffer, chunks[0], Concat(chunks[1..]));
      ReadsIrrelevant(cfg, z, Receive(cfg, z, st, chunks[0]), chunks[1..]);
    }
  }

  lemma PumpSettled(cfg: Config, z: Zlib, st: Session)
    requires Settled(z, st)
    ensures Pump(cfg, z, st.conn, st.buffer) == st
  {
    hide DecodeFrame, Step;
  }

  // ----- whole conversations -----

  /** What a read of the transport yields. */
  datatype Input = Chunk(data: bytes) | Elapsed | Hangup

  /** A hangup in the middle of a frame is a transport error; between frames it is a normal end. */
  function Converse(cfg: Config, z: Zlib, st: Session, inputs: seq<Input>): Session
    decreases |inputs|
  {
    if inputs == [] || st.conn.phase != Running then st
    else match inputs[0]
      case Chunk(data) => Converse(cfg, z, Receive(cfg, z, st, data), inputs[1..])
      case Elapsed => Session(Step(cfg, st.conn, TimedOut), [])
      case Hangup => Session(Step(cfg, st.conn, if st.buffer == [] then PeerClosed else Undecodable(Io)), [])
  }

  lemma {:induction false} PumpSafe(cfg: Config, z: Zlib, c: Conn, s: bytes)
    requires Safe(cfg, c)
    ensures Safe(cfg, Pump(cfg, z, c, s).conn)
    decreases |s|
  {
    hide DecodeFrame, Step, Safe;
    if c.phase == Running {
      match DecodeFrame(z, c.threshold, s)
      case Incomplete =>
      case Bad(e) => StepSafe(cfg, c, Undecodable(e));
      case Packet(p, rest) =>
        StepSafe(cfg, c, Arrived(p));
        PumpSafe(cfg, z, Step(cfg, c, Arrived(p)), rest);
    }
  }

  /** Whatever bytes arrive, in whatever reads, with whatever zlib: the run stays safe. */
  lemma {:induction false} ConverseSafe(cfg: Config, z: Zlib, st: Session, inputs: seq<Input>)
    requires Safe(cfg, st.conn)
    ensures Safe(cfg, Converse(cfg, z, st, inputs).conn)
    decreases |inputs|
  {
    hide Pump, Step, Safe;
    if inputs != [] && st.conn.phase == Running {
      match inputs[0]
      case Chunk(data) =>
        PumpSafe(cfg, z, st.conn, st.buffer + data);
        ConverseSafe(cfg, z, Receive(cfg, z, st, data), inputs[1..]);
      case Elapsed => StepSafe(cfg, st.conn, TimedOut);
      case Hangup => StepSafe(cfg, st.conn, if st.buffer == [] then PeerClosed else Undecodable(Io));
    }
  }

  // ----- a conversation in bytes is a run of events -----

  /** The events that handling these bytes amounts to. */
  function Heard(cfg: Config, z: Zlib, c: Conn, s: bytes): seq<Event>
    decreases |s|
  {
    if c.phase != Running then []
    else match DecodeFrame(z, c.threshold, s)
      case Incomplete => []
      case Bad(e) => [Undecodable(e)]
      case Packet(p, rest) => [Arrived(p)] + Heard(cfg, z, Step(cfg, c, Arrived(p)), rest)
  }

  function HeardAll(cfg: Config, z: Zlib, st: Session, inputs: seq<Input>): seq<Event>
    decreases |inputs|
  {
    if inputs == [] || st.conn.phase != Running then []
    else match inputs[0]
      case Chunk(data) =>
        Heard(cfg, z, st.conn, st.buffer + data) + HeardAll(cfg, z, Receive(cfg, z, st, data), inputs[1..])
      case Elapsed => [TimedOut]
      case Hangup => [if st.buffer == [] then PeerClosed else Undecodable(Io)]
  }

  lemma {:induction false} RunAppend(cfg: Config, c: Conn, a: seq<Event>, b: seq<Event>)
    ensures Run(cfg, c, a + b) == Run(cfg, Run(cfg, c, a), b)
    decreases |a|
  {
    hide Step;
    if a == [] {
      assert a + b == b;
    } else if c.phase == Running {
      RunAppend(cfg, Step(cfg, c, a[0]), a[1..], b);
      assert (a + b)[1..] == a[1..] + b;
    }
  }

  lemma RunSingle(cfg: Config, c: Conn, e: Event)
    requires c.phase == Running
    ensures Run(cfg, c, [e]) == Step(cfg, c, e)
  {
    hide Step;
    RunOne(cfg, c, e, []);
    assert [e] + [] == [e];
  }

  lemma {:induction false} PumpIsRun(cfg: Config, z: Zlib, c: Conn, s: bytes)
    ensures Pump(cfg, z, c, s).conn == Run(cfg, c, Heard(cfg, z, c, s))
    decreases |s|
  {
    hide DecodeFrame, Step, Run;
    RunEmpty(cfg, c);
    if c.phase == Running {
      match DecodeFrame(z, c.threshold, s)
      case Incomplete =>
      case Bad(e) => RunSingle(cfg, c, Undecodable(e));
      case Packet(p, rest) =>
        PumpIsRun(cfg, z, Step(cfg, c, Arrived(p)), rest);
        RunOne(cfg, c, Arrived(p), Heard(cfg, z, Step(cfg, c, Arrived(p)), rest));
    }
  }

  /** Every conversation in bytes is a run over decoded events, so every theorem about runs holds of it. */
  lemma {:induction false} ConverseIsRun(cfg: Config, z: Zlib, st: Session, inputs: seq<Input>)
    ensures Converse(cfg, z, st, inputs).conn == Run(cfg, st.conn, HeardAll(cfg, z, st, inputs))
    decreases |inputs|
  {
    hide Pump, Heard, Step, Run;
    RunEmpty(cfg, st.conn);
    if inputs != [] && st.conn.phase == Running {
      match inputs[0]
      case Chunk(data) =>
        PumpIsRun(cfg, z, st.conn, st.buffer + data);
        var next := Receive(cfg, z, st, data);
        ConverseIsRun(cfg, z, next, inputs[1..]);
        RunAppend(cfg, st.conn, Heard(cfg, z, st.conn, st.buffer + data), HeardAll(cfg, z, next, inputs[1..]));
      case Elapsed => RunSingle(cfg, st.conn, TimedOut);
      case Hangup => RunSingle(cfg, st.conn, if st.buffer == [] then PeerClosed else Undecodable(Io));
    }
  }

  // ----- the claimed uuid, in bytes -----

  function Arrivals(ps: seq<RawPacket>): seq<Event> {
    if ps == [] then [] else [Arrived(ps[0])] + Arrivals(ps[1..])
  }

  /** What a peer puts on the wire for these packets: each in the format the server has in force by then. */
  function Spoken(cfg: Config, z: Zlib, c: Conn, ps: seq<RawPacket>): bytes
    decreases |ps|
  {
    if ps == [] || c.phase != Running then []
    else FrameBytes(z, c.threshold, ps[0]) + Spoken(cfg, z, Step(cfg, c, Arrived(ps[0])), ps[1..])
  }

  predicate Speakable(cfg: Config, z: Zlib, c: Conn, ps: seq<RawPacket>)
    decreases |ps|
  {
    || ps == [] || c.phase != Running
    || (Encodable(ps[0]) && Receivable(z, c.threshold, ps[0])
        && Speakable(cfg, z, Step(cfg, c, Arrived(ps[0])), ps[1..]))
  }

  lemma {:induction false} SpokenIsHeard(cfg: Config, z: Zlib, c: Conn, ps: seq<RawPacket>)
    requires Sound(z) && Speakable(cfg, z, c, ps)
    ensures Pump(cfg, z, c, Spoken(cfg, z, c, ps)) == Session(Run(cfg, c, Arrivals(ps)), [])
    decreases |ps|
  {
    hide DecodeFrame, Step, Run, FrameBytes, Encodable, Receivable;
    RunEmpty(cfg, c);
    EmptyIncomplete(z, c.threshold);
    if ps != [] {
      var d, rest := Step(cfg, c, Arrived(ps[0])), Arrivals(ps[1..]);
      RunOne(cfg, c, Arrived(ps[0]), rest);
      if c.phase == Running {
        FrameExact(z, c.threshold, ps[0], Spoken(cfg, z, d, ps[1..]));
        SpokenIsHeard(cfg, z, d, ps[1..]);
      }
    }
  }

  lemma {:induction false} ArrivalsAt(ps: seq<RawPacket>)
    ensures |Arrivals(ps)| == |ps| && forall i :: 0 <= i < |ps| ==> Arrivals(ps)[i] == Arrived(ps[i])
  {
    if ps != [] { ArrivalsAt(ps[1..]); }
  }

  /**
   Two peers that speak the same packets but for the uuids their login starts claim, each frame in the format
   then in force, cut into reads in any way: the connection ends the same, having sent the same bytes.
   */
  lemma ClaimedUuidIrrelevantInBytes(cfg: Config, z: Zlib, link: nat, ps: seq<RawPacket>, qs: seq<RawPacket>,
                                     chunks: seq<bytes>, otherChunks: seq<bytes>)
    requires Sound(z) && Speakable(cfg, z, Initial(link), ps) && Speakable(cfg, z, Initial(link), qs)
    requires |ps| == |qs| && (ps != [] ==> ps[0] == qs[0])
    requires forall i :: 0 <= i < |ps| ==> SameButUuid(Arrived(ps[i]), Arrived(qs[i]))
    requires Concat(chunks) == Spoken(cfg, z, Initial(link), ps)
             && Concat(otherChunks) == Spoken(cfg, z, Initial(link), qs)
    ensures ReceiveAll(cfg, z, Session(Initial(link), []), chunks)
            == ReceiveAll(cfg, z, Session(Initial(link), []), otherChunks)
  {
    hide DecodeFrame, Run, Pump, Spoken, Speakable, ReceiveAll, Concat, SameButUuid, Arrivals;
    var st := Session(Initial(link), []);
    EmptyIncomplete(z, None);
    ReadsIrrelevant(cfg, z, st, chunks);
    ReadsIrrelevant(cfg, z, st, otherChunks);
    assert st.buffer + Concat(chunks) == Concat(chunks) && st.buffer + Concat(otherChunks) == Concat(otherChunks);
    SpokenIsHeard(cfg, z, Initial(link), ps);
    SpokenIsHeard(cfg, z, Initial(link), qs);
    ArrivalsAt(ps);
    ArrivalsAt(qs);
    ClaimedUuidIrrelevant(cfg, link, Arrivals(ps), Arrivals(qs));
  }

  // ----- the connection as the source runs it -----

  class ConnectionState {
    var current: State
    var statusRequestSeen: bool
    ghost var visited: seq<State>

    constructor ()
      ensures current == Handshaking && !statusRequestSeen && visited == [Handshaking]
    {
      current := Handshaking;
      statusRequestSeen := false;
      visited := [Handshaking];
    }

    method MoveTo(to: State) returns (error: Option<NetError>)
      modifies this
      ensures statusRequestSeen == old(statusRequestSeen)
      ensures if Permitted(old(current), to)
              then error == None && current == to && visited == old(visited) + [to]
              else
                && error == Some(IllegalTransition(old(current), to))
                && current == old(current) && visited == old(visited)
    {
      if !Permitted(current, to) {
        return Some(IllegalTransition(current, to));
      }
      current := to;
      visited := visited + [to];
      return None;
    }

    method MarkStatusRequestSeen() returns (error: Option<NetError>)
      modifies this`statusRequestSeen
      ensures statusRequestSeen && error == if old(statusRequestSeen) then Some(DuplicateStatusRequest) else None
    {
      if statusRequestSeen {
        return Some(DuplicateStatusRequest);
      }
      statusRequestSeen := true;
      return None;
    }
  }

  class ServerConnection {
    const cfg: Config
    const state: ConnectionState
    const codec: PacketCodec
    const wire: Sink
    var link: nat
    ghost var sent: seq<Outgoing>

    ghost predicate Valid()
      reads this, state, codec, wire
    {
      && codec.scratch != wire
      && wire.data == WireOf(codec.z, sent)
    }

    /** The abstract connection, in the given phase. */
    ghost function View(phase: Phase): Conn
      reads this, state, codec
    {
      Conn(state.current, state.statusRequestSeen, codec.threshold, sent, state.visited, link, phase)
    }

    constructor (cfg: Config, z: Zlib, link: nat)
      ensures Valid() && fresh(state) && fresh(codec) && fresh(wire) && fresh(codec.scratch)
      ensures View(Running) == Initial(link) && this.cfg == cfg && codec.z == z
    {
      this.cfg := cfg;
      state := new ConnectionState();
      codec := new PacketCodec(z);
      wire := new Sink();
      this.link := link;
      sent := [];
    }

    /** Encode in the format in force and flush; nothing reaches the wire when either fails. */
    method SendReply(r: Reply) returns (phase: Phase)
      requires Valid()
      modifies this, codec`compressed, codec.scratch, wire
      ensures Valid() && View(phase) == Send(old(View(Running)), r) && codec.scratch == old(codec.scratch)
    {
      hide FrameBytes, ToRaw, Raws, WireOf;
      ghost var before := wire.data;
      var frame := new Sink();
      var error := codec.Encode(ToRaw(r), frame);
      if error.Some? {
        return Failed(Protocol(error.value));
      }
      if link == 0 {
        return Failed(Protocol(Io));
      }
      WireSnoc(codec.z, sent, Outgoing(codec.threshold, r));
      assert frame.data == FrameBytes(codec.z, codec.threshold, ToRaw(r)) && wire.data == before;
      wire.Put(frame.data);
      sent := sent + [Outgoing(codec.threshold, r)];
      link := link - 1;
      return Running;
    }

    method HandleHandshake(body: bytes) returns (phase: Phase)
      requires Valid()
      modifies state
      ensures Valid() && View(phase) == OnHandshake(old(View(Running)), body)
    {
      hide DecodeHandshake, WireOf;
      var src := new Source(body);
      var h := GetHandshake(src);
      if h.Failure? {
        return Failed(Protocol(h.error));
      }
      if src.rest != [] {
        return Failed(Protocol(TrailingBytes(|src.rest|)));
      }
      var error;
      if h.value.nextState == ToStatus {
        error := state.MoveTo(Status);
      } else {
        error := state.MoveTo(Login);
      }
      return if error.Some? then Failed(error.value) else Running;
    }

    method HandleStatusRequest() returns (phase: Phase)
      requires Valid()
      modifies this, state, codec`compressed, codec.scratch, wire
      ensures Valid() && View(phase) == OnStatusRequest(cfg, old(View(Running))) && codec.scratch == old(codec.scratch)
    {
      hide Send, WireOf;
      var error := state.MarkStatusRequestSeen();
      if error.Some? {
        return Failed(error.value);
      }
      phase := SendReply(StatusReply(cfg.statusJson));
    }

    method HandlePing(body: bytes) returns (phase: Phase)
      requires Valid()
      modifies this, codec`compressed, codec.scratch, wire
      ensures Valid() && View(phase) == OnPing(old(View(Running)), body) && codec.scratch == old(codec.scratch)
    {
      hide Send, WireOf, ReadI64;
      var payload := WholeBody(ReadI64(body));
      if payload.Err? {
        return Failed(Protocol(payload.error));
      }
      phase := SendReply(PongReply(payload.value));
      if phase == Running {
        phase := Finished;
      }
    }

    method HandleLoginStart(body: bytes) returns (phase: Phase)
      requires Valid()
      modifies this, codec, codec.scratch, wire
      ensures Valid() && View(phase) == OnLoginStart(cfg, old(View(Running)), body)
              && codec.scratch == old(codec.scratch)
    {
      hide Send, WireOf, DecodeLoginStart, ValidUsername, Refusal;
      var src := new Source(body);
      var start := GetLoginStart(src);
      if start.Failure? {
        return Failed(Protocol(start.error));
      }
      if src.rest != [] {
        return Failed(Protocol(TrailingBytes(|src.rest|)));
      }
      var name := start.value.name;
      if !ValidUsername(name) {
        phase := SendReply(RefusalReply(Refusal()));
        return if phase == Running then Failed(InvalidUsername(name)) else phase;
      }
      var uuid := cfg.offlineUuid(name);
      if cfg.compression.Some? {
        phase := SendReply(CompressionReply(cfg.compression.value));
        if phase != Running {
          return;
        }
        codec.SetThreshold(cfg.compression.value);
      }
      phase := SendReply(SuccessReply(LoginSuccess(GameProfile(uuid, name, []), uuid)));
    }

    method HandleLoginAcknowledged() returns (phase: Phase)
      requires Valid()
      modifies state
      ensures Valid() && View(phase) == Transition(old(View(Running)), Configuration)
    {
      hide WireOf;
      var error := state.MoveTo(Configuration);
      return if error.Some? then Failed(error.value) else Running;
    }

    method Dispatch(p: RawPacket) returns (phase: Phase)
      requires Valid()
      modifies this, state, codec, codec.scratch, wire
      ensures Valid() && View(phase) == Handle(cfg, old(View(Running)), p) && codec.scratch == old(codec.scratch)
    {
      hide OnHandshake, OnStatusRequest, OnPing, OnLoginStart, Transition, WireOf;
      if state.current == Handshaking && p.id == 0 {
        phase := HandleHandshake(p.body);
      } else if state.current == Status && p.id == 0 {
        phase := HandleStatusRequest();
      } else if state.current == Status && p.id == 1 {
        phase := HandlePing(p.body);
      } else if state.current == Login && p.id == 0 {
        phase := HandleLoginStart(p.body);
      } else if state.current == Login && p.id == 3 {
        phase := HandleLoginAcknowledged();
      } else {
        phase := Failed(UnexpectedPacket(state.current, p.id));
      }
    }

    /** Service every frame that has arrived whole. */
    method ServeBuffered(src: Source) returns (phase: Phase)
      requires Valid()
      modifies this, state, codec, codec.scratch, wire, src
      ensures Valid() && codec.scratch == old(codec.scratch)
      ensures View(phase) == Pump(cfg, codec.z, old(View(Running)), old(src.rest)).conn
      ensures phase == Running ==> src.rest == Pump(cfg, codec.z, old(View(Running)), old(src.rest)).buffer
    {
      hide DecodeFrame, Pump, Handle, WireOf;
      phase := Running;
      while phase == Running
        invariant Valid() && codec.scratch == old(codec.scratch)
        invariant Pump(cfg, codec.z, old(View(Running)), old(src.rest)) == Pump(cfg, codec.z, View(phase), src.rest)
        decreases phase == Running, |src.rest|
      {
        PumpNext(cfg, codec.z, View(Running), src.rest);
        var frame := codec.Decode(src);
        if frame.Failure? {
          phase := Failed(Protocol(frame.error));
          PumpEnds(cfg, codec.z, View(phase), src.rest);
        } else if frame.value.None? {
          return;
        } else {
          phase := Dispatch(frame.value.value);
        }
      }
      PumpEnds(cfg, codec.z, View(phase), src.rest);
    }
  }

  /** `Connection::run` over what its transport yields; the inputs given may end before the connection does. */
  method Serve(cfg: Config, z: Zlib, link: nat, inputs: seq<Input>) returns (phase: Phase, wire: bytes)
    ensures var c := Converse(cfg, z, Session(Initial(link), []), inputs).conn;
            phase == c.phase && wire == WireOf(z, c.sent)
    ensures Sound(z) && Sendable(cfg) ==>
              Recovered(z, Converse(cfg, z, Session(Initial(link), []), inputs).conn, wire)
  {
    hide Recovered, Sendable, Sound;
    if Sound(z) && Sendable(cfg) {
      ConverseUnderstood(cfg, z, link, inputs);
    }
    hide Converse, Pump, WireOf, Step;
    var conn := new ServerConnection(cfg, z, link);
    var src := new Source([]);
    ghost var start := Session(Initial(link), []);
    phase := Running;
    for i := 0 to |inputs|
      invariant conn.Valid() && conn.cfg == cfg && conn.codec.z == z && fresh(conn) && fresh(src) && phase == Running
      invariant fresh(conn.state) && fresh(conn.codec) && fresh(conn.codec.scratch) && fresh(conn.wire)
      invariant Converse(cfg, z, start, inputs) == Converse(cfg, z, Session(conn.View(Running), src.rest), inputs[i..])
    {
      assert inputs[i..][1..] == inputs[i + 1..];
      ConverseNext(cfg, z, Session(conn.View(Running), src.rest), inputs[i..]);
      match inputs[i]
      case Elapsed => return Failed(Timeout), conn.wire.data;
      case Hangup => return if src.rest == [] then Finished else Failed(Protocol(Io)), conn.wire.data;
      case Chunk(data) =>
        src.rest := src.rest + data;
        phase := conn.ServeBuffered(src);
        if phase != Running {
          ConverseEnds(cfg, z, Session(conn.View(phase), []), inputs[i + 1..]);
          return phase, conn.wire.data;
        }
    }
    ConverseEnds(cfg, z, Session(conn.View(Running), src.rest), []);
    wire := conn.wire.data;
  }

  /** A client that follows the format recovers from these bytes exactly the replies sent, in order. */
  predicate Recovered(z: Zlib, c: Conn, wire: bytes) {
    Understand(z, OnLogin(c.visited), None, wire) == Understood(Contents(c.sent), [])
  }

  /** What a client that follows the format makes of the bytes sent, whatever the conversation was. */
  lemma ConverseUnderstood(cfg: Config, z: Zlib, link: nat, inputs: seq<Input>)
    requires Sound(z) && Sendable(cfg)
    ensures var c := Converse(cfg, z, Session(Initial(link), []), inputs).conn; Recovered(z, c, WireOf(z, c.sent))
  {
    hide Converse, Understand, WireOf, Safe, Run, OnLogin, Contents;
    StartSafe(cfg, link);
    ConverseSafe(cfg, z, Session(Initial(link), []), inputs);
    WireUnderstood(cfg, z, Converse(cfg, z, Session(Initial(link), []), inputs).conn);
  }

  lemma StartSafe(cfg: Config, link: nat)
    ensures Safe(cfg, Initial(link))
  {}

  lemma ConverseNext(cfg: Config, z: Zlib, st: Session, inputs: seq<Input>)
    requires inputs != [] && st.conn.phase == Running
    ensures Converse(cfg, z, st, inputs) ==
            if inputs[0].Chunk? then Converse(cfg, z, Receive(cfg, z, st, inputs[0].data), inputs[1..])
            else if inputs[0].Elapsed? then Session(st.conn.(phase := Failed(Timeout)), [])
            else Session(st.conn.(phase := if st.buffer == [] then Finished else Failed(Protocol(Io))), [])
  {
    hide Pump, Handle;
  }

  lemma ConverseEnds(cfg: Config, z: Zlib, st: Session, inputs: seq<Input>)
    requires inputs == [] || st.conn.phase != Running
    ensures Converse(cfg, z, st, inputs) == st
  {}

  lemma PumpNext(cfg: Config, z: Zlib, c: Conn, s: bytes)
    requires c.phase == Running
    ensures var r := DecodeFrame(z, c.threshold, s);
            Pump(cfg, z, c, s) == if r.Incomplete? then Session(c, s)
                                  else if r.Bad? then Session(c.(phase := Failed(Protocol(r.error))), [])
                                  else Pump(cfg, z, Handle(cfg, c, r.packet), r.rest)
  {
    hide DecodeFrame, Handle;
  }

  lemma PumpEnds(cfg: Config, z: Zlib, c: Conn, s: bytes)
    requires c.phase != Running
    ensures Pump(cfg, z, c, s) == Session(c, [])
  {
    hide DecodeFrame, Handle;
  }
}
