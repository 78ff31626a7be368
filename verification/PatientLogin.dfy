/**
 A login between the two parties, run to its end (crates/net/tests/login.rs): for every configuration and every
 name there is an interleaving in which the client waits where it must, and both ends finish in configuration,
 in the same format, with everything delivered.
 */
module PatientLogin {
  import opened Bytes
  import opened Utf8
  import opened Packets
  import opened Codec
  import opened Connection
  import opened Answers
  import opened TwoParty

  lemma {:induction false} ExecAppend(cfg: Config, z: Zlib, s: System, a: seq<Action>, b: seq<Action>)
    ensures Exec(cfg, z, s, a + b) == Exec(cfg, z, Exec(cfg, z, s, a), b)
    decreases |a|
  {
    hide Next;
    if a == [] {
      assert a + b == b;
    } else {
      assert (a + b)[1..] == a[1..] + b;
      ExecAppend(cfg, z, Next(cfg, z, s, a[0]), a[1..], b);
    }
  }

  lemma ExecOne(cfg: Config, z: Zlib, s: System, a: Action)
    ensures Exec(cfg, z, s, [a]) == Next(cfg, z, s, a)
  {
    hide Next;
    assert [a][1..] == [];
    assert Exec(cfg, z, Next(cfg, z, s, a), []) == Next(cfg, z, s, a);
  }

  /** A frame the client may send joins those in flight. */
  lemma Sends(cfg: Config, z: Zlib, s: System, p: RawPacket)
    requires Agree(cfg, z, s) && ClientMaySend(z, s.client, p)
    ensures var s' := Next(cfg, z, s, ClientSends(p));
            && s'.server == s.server && s'.client == ClientAfterSend(s.client, p) && s'.downGot == s.downGot
            && PendingUp(s') == PendingUp(s) + [Tx(s.client.threshold, p)]
  {
    hide Safe, InStep, Chain, WireTx, FrameBytes, Encodable, Receivable, LoginHello, Txs, AllDeliverable;
  }

  /** The server catchUp all that is in flight and handles the frame in front. */
  lemma Takes(cfg: Config, z: Zlib, s: System)
    requires Sound(z) && Agree(cfg, z, s) && s.server.phase == Running && PendingUp(s) != []
    ensures var s' := Next(cfg, z, s, ServerReads(|s.up|));
            && s'.server == Step(cfg, s.server, Arrived(PendingUp(s)[0].packet)) && s'.client == s.client
            && PendingUp(s') == PendingUp(s)[1..] && s'.downGot == s.downGot
  {
    hide Safe, Step, DecodeFrame, WireTx, Txs, Deliverable, Chain, LoginHello, NewReplies;
    var up := PendingUp(s);
    FrontDecodes(z, s.server.threshold, up);
    assert s.up[..|s.up|] == s.up;
  }

  /** Once all is delivered, a client that logged in no longer waits, and has the server's format. */
  lemma SettledInStep(cfg: Config, z: Zlib, s: System)
    requires Agree(cfg, z, s) && s.server.phase == Running && s.client.mode == LoggingIn
    requires |PendingUp(s)| == 0 && s.downGot == DownSent(s)
    ensures !s.client.awaiting && s.client.threshold == s.server.threshold
  {
    hide Wires, LoginHello, Txs, ReadAll;
    assert |PendingDown(s)| == 0;
    hide PendingUp, PendingDown;
  }

  /** Handshake and login start, sent and taken: the server has answered and the client is still to read it. */
  lemma Greets(cfg: Config, z: Zlib, link: nat, h: Handshake, start: LoginStart) returns (steps: seq<Action>)
    requires Sound(z) && link >= 2 && ValidUsername(start.name)
    requires IsUtf8(h.serverAddress) && |h.serverAddress| <= 765 && h.nextState != ToStatus
    ensures var s := Exec(cfg, z, Start(link), steps);
            && Agree(cfg, z, s) && s.client.mode == LoggingIn && |PendingUp(s)| == 0
            && s.server.phase == Running && s.server.state == Login && s.server.visited == [Handshaking, Login]
            && s.server.sent == LoginReplies(cfg, None, start.name)
            && s.server.threshold == Configured(cfg)
  {
    hide Agree, Exec, Next, Step, Encodable, Receivable, EncodeHandshake, EncodeLoginStart, DecodeHandshake, IsUtf8,
         Raws, LoginReplies, PendingUp, NameByte;
    var p, q := RawPacket(0, EncodeHandshake(h)), RawPacket(0, EncodeLoginStart(start));
    AsciiIsUtf8Name(start.name);
    HelloSmall(h, start);
    PlainFrameSmall(z, p);
    PlainFrameSmall(z, q);
    HelloLogs(h);
    StartAgrees(cfg, z, link);
    var s0 := Start(link);
    assert PendingUp(s0) == [] by { NoneUp(link); }
    Sends(cfg, z, s0, p);
    NextAgrees(cfg, z, s0, ClientSends(p));
    var s1 := Next(cfg, z, s0, ClientSends(p));
    Sends(cfg, z, s1, q);
    NextAgrees(cfg, z, s1, ClientSends(q));
    var s2 := Next(cfg, z, s1, ClientSends(q));
    assert PendingUp(s2) == [Tx(None, p), Tx(None, q)];
    Takes(cfg, z, s2);
    NextAgrees(cfg, z, s2, ServerReads(|s2.up|));
    var s3 := Next(cfg, z, s2, ServerReads(|s2.up|));
    HandshakeAnswered(cfg, s2.server, h);
    Takes(cfg, z, s3);
    NextAgrees(cfg, z, s3, ServerReads(|s3.up|));
    var s4 := Next(cfg, z, s3, ServerReads(|s3.up|));
    LoginAnswered(cfg, s3.server, start.name, start.uuid);
    assert [] + LoginReplies(cfg, None, start.name) == LoginReplies(cfg, None, start.name);
    var a := [ClientSends(p)] + ([ClientSends(q)] + ([ServerReads(|s2.up|)] + [ServerReads(|s3.up|)]));
    ExecFour(cfg, z, s0, ClientSends(p), ClientSends(q), ServerReads(|s2.up|), ServerReads(|s3.up|));
    return a;
  }

  lemma NoneUp(link: nat)
    ensures PendingUp(Start(link)) == []
  {}

  lemma AsciiIsUtf8Name(name: bytes)
    requires ValidUsername(name)
    ensures IsUtf8(name) && |name| <= 48
  {
    AsciiIsUtf8(name);
  }

  lemma HelloLogs(h: Handshake)
    requires IsUtf8(h.serverAddress) && |h.serverAddress| <= 765 && h.nextState != ToStatus
    ensures LoginHello(RawPacket(0, EncodeHandshake(h)))
  {
    hide EncodeHandshake, DecodeHandshake, IsUtf8;
    HandshakeExact(h, []);
    assert EncodeHandshake(h) + [] == EncodeHandshake(h);
  }

  lemma ExecFour(cfg: Config, z: Zlib, s: System, a: Action, b: Action, c: Action, d: Action)
    ensures Exec(cfg, z, s, [a] + ([b] + ([c] + [d])))
            == Next(cfg, z, Next(cfg, z, Next(cfg, z, Next(cfg, z, s, a), b), c), d)
  {
    hide Next, Exec;
    ExecAppend(cfg, z, s, [a], [b] + ([c] + [d]));
    ExecOne(cfg, z, s, a);
    var s1 := Next(cfg, z, s, a);
    ExecAppend(cfg, z, s1, [b], [c] + [d]);
    ExecOne(cfg, z, s1, b);
    var s2 := Next(cfg, z, s1, b);
    ExecAppend(cfg, z, s2, [c], [d]);
    ExecOne(cfg, z, s2, c);
    ExecOne(cfg, z, Next(cfg, z, s2, c), d);
  }

  /** The client has read the answer, acknowledges it in the format then in force, and the server takes that. */
  lemma Acknowledges(cfg: Config, z: Zlib, s: System) returns (steps: seq<Action>)
    requires Sound(z) && Agree(cfg, z, s) && s.client.mode == LoggingIn && |PendingUp(s)| == 0
    requires s.server.phase == Running && s.server.state == Login
    ensures var s' := Exec(cfg, z, s, steps);
            && s'.server == Entering(s.server, Configuration) && s'.downGot == DownSent(s)
            && s'.client.threshold == s.server.threshold && |PendingUp(s')| == 0
  {
    hide Agree, Exec, Next, Step, Encodable, Receivable, Raws, PendingUp, Txs;
    var catchUp := ClientCatchesUp(cfg, z, s);
    ExecAgrees(cfg, z, s, catchUp);
    var s1 := Exec(cfg, z, s, catchUp);
    SameUpPending(s, s1);
    SettledInStep(cfg, z, s1);
    var ack := RawPacket(3, []);
    AcknowledgementSmall();
    SmallReceivable(z, s1.client.threshold, ack);
    Sends(cfg, z, s1, ack);
    NextAgrees(cfg, z, s1, ClientSends(ack));
    var s2 := Next(cfg, z, s1, ClientSends(ack));
    assert PendingUp(s2) == [Tx(s1.client.threshold, ack)];
    Takes(cfg, z, s2);
    var s3 := Next(cfg, z, s2, ServerReads(|s2.up|));
    AcknowledgementAnswered(cfg, s2.server, []);
    steps := catchUp + ([ClientSends(ack)] + [ServerReads(|s2.up|)]);
    ExecAppend(cfg, z, s, catchUp, [ClientSends(ack)] + [ServerReads(|s2.up|)]);
    ExecAppend(cfg, z, s1, [ClientSends(ack)], [ServerReads(|s2.up|)]);
    ExecOne(cfg, z, s1, ClientSends(ack));
    ExecOne(cfg, z, s2, ServerReads(|s2.up|));
  }

  lemma SameUpPending(s: System, s': System)
    requires SameUp(s, s')
    ensures PendingUp(s') == PendingUp(s)
  {}

  /**
   The login completes: the server ends in configuration having sent what the design promises, the client has
   read all of it, and both are in the format the configuration asks for.
   */
  lemma LoginCompletes(cfg: Config, z: Zlib, link: nat, h: Handshake, start: LoginStart) returns (steps: seq<Action>)
    requires Sound(z) && link >= 2 && ValidUsername(start.name)
    requires IsUtf8(h.serverAddress) && |h.serverAddress| <= 765 && h.nextState != ToStatus
    ensures var s := Exec(cfg, z, Start(link), steps);
            && s.server.phase == Running && s.server.visited == [Handshaking, Login, Configuration]
            && s.server.sent == LoginReplies(cfg, None, start.name) && s.downGot == Txs(s.server.sent)
            && s.client.threshold == s.server.threshold
            && s.server.threshold == match cfg.compression
                                     case None => None
                                     case Some(t) => if t < 0 then None else Some(t)
  {
    hide Agree, Exec, LoginReplies, PendingUp, IsUtf8, NameByte, Txs;
    var a := Greets(cfg, z, link, h, start);
    var s := Exec(cfg, z, Start(link), a);
    var b := Acknowledges(cfg, z, s);
    ExecAppend(cfg, z, Start(link), a, b);
    steps := a + b;
  }
}
