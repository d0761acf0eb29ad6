/**
 * The client: a main loop that turns typed lines into messages on a
 * channel, and a network thread that writes queued messages as frames
 * and prints the frames it reads. Each method is one iteration of one of
 * the two loops.
 */
module Client {
  import opened Bytes
  import opened Utf8
  import opened Frame
  import opened Connection
  import opened Lines

  /**
   * The network thread runs until the channel reports `Disconnected`, a
   * read fails ("Lost connection to server"), or an `expect` panics (a
   * failed write or an undecodable frame).
   */
  datatype NetState = Running | Disconnected | LostConnection | Crashed

  /** The network thread's state after a receive step ended in s. */
  function AfterRead(s: LoopState): NetState {
    match s
    case Open => Running
    case Closed => LostConnection
    case Panicked => Crashed
  }

  /** m is valid UTF-8 and starts with the user name and `": "`. */
  ghost predicate FromUser(username: Bytes, m: Bytes) {
    ValidUtf8(m) && |m| >= |username| + 2 && m[..|username| + 2] == username + SEPARATOR
  }

  class Client {
    /** The first input line, trimmed. */
    const username: Bytes
    /** The main loop is still reading lines (its sender `tx` is alive). */
    var sending: bool
    /** Messages sent on the channel that the network thread has not taken yet. */
    var outbox: seq<Bytes>
    var net: NetState
    /** Frames written to the server, oldest first. */
    var written: seq<Frame>
    /** Texts printed from frames read from the server, oldest first. */
    var shown: seq<Bytes>

    ghost predicate Valid()
      reads this
    {
      && ValidUtf8(username)
      && (forall k :: 0 <= k < |outbox| ==> FromUser(username, outbox[k]))
      && (net == Disconnected ==> !sending && outbox == [])
      && (forall k :: 0 <= k < |shown| ==> |shown[k]| == FRAME_SIZE && ValidUtf8(shown[k]))
    }

    /**
     * Start-up: the user name is the first line, trimmed; the channel is
     * empty and both loops are running.
     */
    constructor (nameLine: Bytes)
      requires ValidUtf8(nameLine)
      ensures Valid()
      ensures username == Trim(nameLine)
      ensures sending && outbox == [] && net == Running && written == [] && shown == []
    {
      username := Trim(nameLine);
      sending, outbox, net, written, shown := true, [], Running, [], [];
      TrimKeepsUtf8(nameLine);
    }

    /**
     * One iteration of the main loop on a typed line. A line that trims to
     * `:q` ends the loop and queues nothing. Any other line is sent as
     * `"<username>: <trimmed line>"`; if the network thread has already
     * ended, its receiver is gone, the send fails and the loop ends instead.
     */
    method SubmitLine(line: Bytes)
      requires Valid() && sending && ValidUtf8(line)
      modifies this`sending, this`outbox
      ensures Valid()
      ensures IsQuit(line) ==> !sending && outbox == old(outbox)
      ensures !IsQuit(line) && net == Running ==> sending && outbox == old(outbox) + [Outgoing(username, line)]
      ensures !IsQuit(line) && net != Running ==> !sending && outbox == old(outbox)
    {
      var msg := Trim(line);
      if msg == QUIT {
        sending := false;
        return;
      }
      var m := username + SEPARATOR + msg;
      if net != Running {
        sending := false;
      } else {
        OutgoingShape(username, line);
        outbox := outbox + [m];
      }
    }

    /**
     * One iteration of the network thread. First `try_recv`: a queued
     * message is written as its frame (a failed write panics the thread);
     * an empty channel writes nothing; a disconnected one (main loop over,
     * nothing queued) ends the thread. Then, unless the thread has ended,
     * `read_exact` with result r: a full frame is decoded whole and
     * printed, `WouldBlock` does nothing, any other error ends the thread.
     */
    method NetworkStep(writeOk: bool, r: ReadResult)
      requires Valid() && net == Running
      modifies this`outbox, this`net, this`written, this`shown
      ensures Valid()
      ensures old(outbox) != [] ==> outbox == old(outbox)[1..]
      ensures old(outbox) != [] && !writeOk ==> net == Crashed && written == old(written) && shown == old(shown)
      ensures old(outbox) == [] && !sending ==> net == Disconnected && outbox == [] && written == old(written) && shown == old(shown)
      ensures old(outbox) == [] && sending ==> outbox == [] && written == old(written)
      ensures old(outbox) != [] && writeOk ==> written == old(written) + [Encode(old(outbox)[0])]
      ensures (old(outbox) == [] && sending) || (old(outbox) != [] && writeOk) ==>
        && net == AfterRead(OnRead(r, ClientDecode).next)
        && shown == old(shown) + OnRead(r, ClientDecode).delivered
    {
      if outbox != [] {
        var msg := outbox[0];
        outbox := outbox[1..];
        if !writeOk {
          net := Crashed;
          return;
        }
        written := written + [Encode(msg)];
      } else if !sending {
        net := Disconnected;
        return;
      }
      match r {
        case WouldBlock =>
        case Failed =>
          net := LostConnection;
        case Filled(f) =>
          var d := ClientDecode(f);
          if d.Decoded? {
            shown := shown + [d.text];
          } else {
            net := Crashed;
          }
      }
    }
  }
}
