/**
 * The two programs together: a line typed on one client, through the
 * server's receive loop and relay, to what every client prints.
 */
module Chat {
  import opened Bytes
  import opened Utf8
  import opened Frame
  import opened Connection
  import opened Registry
  import opened Server
  import opened Lines
  import opened Client

  /**
   * A typed line that fits a frame with its prefix travels intact: the
   * server passes on exactly the client's message, and a client that
   * reads the relayed frame prints the message followed by its padding.
   */
  lemma LineTravelsIntact(username: Bytes, line: Bytes)
    requires ValidUtf8(username) && NoZero(username) && ValidUtf8(line) && NoZero(line)
    requires |Outgoing(username, line)| <= FRAME_SIZE
    ensures var m := Outgoing(username, line);
      && ServerDecode(Encode(m)) == Decoded(m)
      && ClientDecode(Encode(m)) == Decoded(m + Zeros(FRAME_SIZE - |m|))
  {
    var m := Outgoing(username, line);
    OutgoingShape(username, line);
    OutgoingNoZero(username, line);
    ServerRoundTrip(m);
    ClientSeesPadding(m);
  }

  /** "alice\n", the name line `AliceTypesHello`'s client reads. */
  const ALICE_LINE: Bytes := [0x61, 0x6C, 0x69, 0x63, 0x65, 0x0A]
  /** "alice". */
  const ALICE: Bytes := [0x61, 0x6C, 0x69, 0x63, 0x65]
  /** "hello\n". */
  const HELLO_LINE: Bytes := [0x68, 0x65, 0x6C, 0x6C, 0x6F, 0x0A]
  /** "hello". */
  const HELLO: Bytes := [0x68, 0x65, 0x6C, 0x6C, 0x6F]
  /** "alice: hello". */
  const ALICE_HELLO: Bytes := [0x61, 0x6C, 0x69, 0x63, 0x65, 0x3A, 0x20, 0x68, 0x65, 0x6C, 0x6C, 0x6F]

  /** The name line "alice\n" gives the user name "alice". */
  lemma AliceName()
    ensures ValidUtf8(ALICE_LINE) && Trim(ALICE_LINE) == ALICE
  {
    assert TrimStart(ALICE_LINE) == ALICE_LINE;
    assert ALICE_LINE[..5] == ALICE;
    assert TrimEnd(ALICE) == ALICE;
    AsciiIsValid(ALICE_LINE);
  }

  /** The line "hello\n" is not the sentinel, and is sent as "alice: hello". */
  lemma HelloLine()
    ensures ValidUtf8(HELLO_LINE) && !IsQuit(HELLO_LINE)
    ensures Outgoing(ALICE, HELLO_LINE) == ALICE_HELLO
  {
    assert TrimStart(HELLO_LINE) == HELLO_LINE;
    assert HELLO_LINE[..5] == HELLO;
    assert TrimEnd(HELLO) == HELLO;
    assert Trim(HELLO_LINE) == HELLO;
    assert |HELLO| != |QUIT|;
    assert ALICE + SEPARATOR + HELLO == ALICE_HELLO;
    AsciiIsValid(HELLO_LINE);
  }

  /** The server decodes the frame of "alice: hello" as itself; a client prints it with 244 NULs. */
  lemma AliceHelloFrame()
    ensures ServerDecode(Encode(ALICE_HELLO)) == Decoded(ALICE_HELLO)
    ensures ClientDecode(Encode(ALICE_HELLO)) == Decoded(ALICE_HELLO + Zeros(FRAME_SIZE - 12))
  {
    AsciiIsValid(ALICE_HELLO);
    ServerRoundTrip(ALICE_HELLO);
    ClientSeesPadding(ALICE_HELLO);
  }

  /**
   * "alice" starts a client and types "hello": the client's network
   * thread writes the frame of "alice: hello".
   */
  method AliceTypesHello() returns (frame: Frame)
    ensures frame == Encode(ALICE_HELLO)
  {
    AliceName();
    HelloLine();
    var alice := new Client(ALICE_LINE);
    alice.SubmitLine(HELLO_LINE);
    assert alice.outbox == [ALICE_HELLO];
    alice.NetworkStep(true, WouldBlock);
    frame := alice.written[0];
  }

  /**
   * Two clients are connected when the first one's frame of a message
   * arrives: the server relays that message, writing its frame to both in
   * accept order, and keeps both.
   */
  method RelayToTwoClients(text: Bytes) returns (relayed: Option<Bytes>, writes: seq<Write>, clients: seq<Handle>)
    requires |text| <= FRAME_SIZE && NoZero(text) && ValidUtf8(text)
    ensures relayed == Some(text)
    ensures writes == [Write(Handle(0), Encode(text), true), Write(Handle(1), Encode(text), true)]
    ensures clients == [Handle(0), Handle(1)]
  {
    ServerRoundTrip(text);
    var frame := Encode(text);
    var server := new Server();
    var h1, rx1 := server.Accept();
    var h2, rx2 := server.Accept();
    assert server.clients == [h1, h2];

    rx1.Step(Filled(frame), server);
    assert server.inbox == [text];

    relayed, writes := server.Relay([true, true]);
    AllWritesSucceed([h1, h2], [true, true]);
    clients := server.clients;
    assert writes[0] == Write(h1, frame, true) && writes[1] == Write(h2, frame, true);
  }

  /** A client that reads the relayed frame of a message prints the message with its padding. */
  method ClientPrintsRelayed(text: Bytes) returns (shown: seq<Bytes>)
    requires |text| <= FRAME_SIZE && NoZero(text) && ValidUtf8(text)
    ensures shown == [text + Zeros(FRAME_SIZE - |text|)]
  {
    ClientSeesPadding(text);
    var bob := new Client([]);
    ZerosAreValid(0);
    bob.NetworkStep(true, Filled(Encode(text)));
    shown := bob.shown;
  }

  /** Pruning three connections whose middle write failed keeps the outer two. */
  lemma PruneMiddle<T>(a: T, b: T, c: T)
    ensures Surviving([a, b, c], [true, false, true]) == [a, c]
  {
    var cs, ok := [a, b, c], [true, false, true];
    assert cs[1..] == [b, c] && cs[1..][1..] == [c] && ok[1..] == [false, true] && ok[1..][1..] == [true];
    assert Surviving(cs[1..][1..], ok[1..][1..]) == [c];
  }

  /**
   * A connection whose write fails is dropped on that relay, and only it:
   * the connection after it keeps its place and still gets the frame.
   */
  method OneDeadConnection(msg: Bytes) returns (writes: seq<Write>, clients: seq<Handle>)
    requires |msg| <= FRAME_SIZE && NoZero(msg) && ValidUtf8(msg)
    ensures |writes| == 3 && writes[0] == Write(Handle(0), Encode(msg), true)
    ensures writes[1] == Write(Handle(1), Encode(msg), false)
    ensures writes[2] == Write(Handle(2), Encode(msg), true)
    ensures clients == [Handle(0), Handle(2)]
  {
    ServerRoundTrip(msg);
    var server := new Server();
    var h1, rx1 := server.Accept();
    var h2, rx2 := server.Accept();
    var h3, rx3 := server.Accept();
    rx1.Step(Filled(Encode(msg)), server);
    assert server.inbox == [msg];
    var relayed;
    relayed, writes := server.Relay([true, false, true]);
    PruneMiddle(h1, h2, h3);
    clients := server.clients;
  }
}
