/**
 * The rule both programs apply to the outcome of `read_exact` on a
 * non-blocking socket: a full frame is decoded, `WouldBlock` does
 * nothing, any other error ends the receive loop, and a decode failure
 * panics through `expect`, which also ends the loop's thread.
 */
module Connection {
  import opened Bytes
  import opened Utf8
  import opened Frame

  /** The outcome of one `read_exact` into a 256-byte buffer. */
  datatype ReadResult = Filled(frame: Frame) | WouldBlock | Failed

  /**
   * A receive loop is Open until a read error closes it or a decode
   * failure panics its thread; neither end state is ever left.
   */
  datatype LoopState = Open | Closed | Panicked

  /** What one iteration does: the next state and the text it passes on (at most one). */
  datatype Reaction = Reaction(next: LoopState, delivered: seq<Bytes>)

  /**
   * One iteration of a receive loop on read result r, with decode the
   * side's own frame decoder.
   */
  function OnRead(r: ReadResult, decode: Frame -> DecodeResult): (x: Reaction)
    ensures r.WouldBlock? ==> x == Reaction(Open, [])
    ensures r.Failed? ==> x == Reaction(Closed, [])
    ensures r.Filled? && decode(r.frame).NotUtf8? ==> x == Reaction(Panicked, [])
    ensures r.Filled? && decode(r.frame).Decoded? ==> x == Reaction(Open, [decode(r.frame).text])
  {
    match r
    case WouldBlock => Reaction(Open, [])
    case Failed => Reaction(Closed, [])
    case Filled(f) =>
      match decode(f)
      case Decoded(t) => Reaction(Open, [t])
      case NotUtf8 => Reaction(Panicked, [])
  }

  /**
   * A receive loop run over a trace of read results: each iteration is
   * OnRead, and once the loop is no longer Open the remaining results are
   * never read.
   */
  function Run(trace: seq<ReadResult>, decode: Frame -> DecodeResult): (x: Reaction)
    decreases |trace|
  {
    if trace == [] then Reaction(Open, [])
    else
      var before := Run(trace[..|trace| - 1], decode);
      if before.next != Open then before
      else
        var step := OnRead(trace[|trace| - 1], decode);
        Reaction(step.next, before.delivered + step.delivered)
  }

  /** An open loop handles one more read result with OnRead, keeping what it delivered before. */
  lemma RunExtends(trace: seq<ReadResult>, r: ReadResult, decode: Frame -> DecodeResult)
    requires Run(trace, decode).next == Open
    ensures Run(trace + [r], decode) ==
      Reaction(OnRead(r, decode).next, Run(trace, decode).delivered + OnRead(r, decode).delivered)
  {
    assert (trace + [r])[..|trace|] == trace;
  }

  /** Closed and Panicked are terminal: nothing read afterwards has any effect. */
  lemma {:induction false} RunStopsForGood(trace: seq<ReadResult>, more: seq<ReadResult>, decode: Frame -> DecodeResult)
    requires Run(trace, decode).next != Open
    ensures Run(trace + more, decode) == Run(trace, decode)
    decreases |more|
  {
    if more != [] {
      var init := more[..|more| - 1];
      assert (trace + more)[..|trace + more| - 1] == trace + init;
      RunStopsForGood(trace, init, decode);
    } else {
      assert trace + more == trace;
    }
  }

  /** A `WouldBlock` changes nothing: the loop just polls again. */
  lemma WouldBlockIsNoOp(trace: seq<ReadResult>, decode: Frame -> DecodeResult)
    ensures Run(trace + [WouldBlock], decode) == Run(trace, decode)
  {
    assert (trace + [WouldBlock])[..|trace|] == trace;
  }

  /** A loop that has not stopped has read no error and no undecodable frame. */
  lemma {:induction false} OpenRunSawNoFailure(trace: seq<ReadResult>, decode: Frame -> DecodeResult)
    requires Run(trace, decode).next == Open
    ensures forall i :: 0 <= i < |trace| ==> !trace[i].Failed?
    ensures forall i :: 0 <= i < |trace| && trace[i].Filled? ==> decode(trace[i].frame).Decoded?
    decreases |trace|
  {
    if trace != [] {
      var init := trace[..|trace| - 1];
      OpenRunSawNoFailure(init, decode);
      forall i | 0 <= i < |trace| - 1 ensures trace[i] == init[i] { }
    }
  }

  /**
   * On the server, every message a receive loop passes on is what `take_while`
   * and `from_utf8` accept: at most 256 bytes, no NUL, valid UTF-8.
   */
  lemma {:induction false} ServerForwardsDecodedText(trace: seq<ReadResult>)
    ensures forall k :: 0 <= k < |Run(trace, ServerDecode).delivered| ==>
      var m := Run(trace, ServerDecode).delivered[k];
      |m| <= FRAME_SIZE && NoZero(m) && ValidUtf8(m)
    decreases |trace|
  {
    if trace != [] {
      ServerForwardsDecodedText(trace[..|trace| - 1]);
    }
  }

  /**
   * The read results a receive loop sees when its peer writes the frames
   * of ms and every read returns one whole frame: the k-th read is the
   * frame of ms[k].
   */
  function FramesOf(ms: seq<Bytes>): (trace: seq<ReadResult>)
    ensures |trace| == |ms|
    decreases |ms|
  {
    if ms == [] then [] else FramesOf(ms[..|ms| - 1]) + [Filled(Encode(ms[|ms| - 1]))]
  }

  /** The k-th read result of FramesOf(ms) is the whole frame of ms[k]. */
  lemma {:induction false} FramesOfReadsEachFrame(ms: seq<Bytes>)
    ensures forall k :: 0 <= k < |ms| ==> FramesOf(ms)[k] == Filled(Encode(ms[k]))
    decreases |ms|
  {
    if ms != [] {
      var init := ms[..|ms| - 1];
      FramesOfReadsEachFrame(init);
      forall k | 0 <= k < |ms| - 1 ensures FramesOf(ms)[k] == Filled(Encode(ms[k])) {
        assert FramesOf(ms)[k] == FramesOf(init)[k] && init[k] == ms[k];
      }
    }
  }

  /** A non-empty sequence is its front followed by its last element. */
  lemma LastSplit<T>(s: seq<T>)
    requires s != []
    ensures s[..|s| - 1] + [s[|s| - 1]] == s
  {
  }

  /** An open server loop that reads the frame of one more decodable message passes that message on. */
  lemma ServerReadsOneMore(trace: seq<ReadResult>, sent: seq<Bytes>, m: Bytes)
    requires Run(trace, ServerDecode) == Reaction(Open, sent)
    requires Decodable(m)
    ensures Run(trace + [Filled(Encode(m))], ServerDecode) == Reaction(Open, sent + [m])
  {
    ServerRoundTrip(m);
    RunExtends(trace, Filled(Encode(m)), ServerDecode);
  }

  /**
   * End to end over a connection: when the peer writes the frames of
   * messages ms, each of at most 256 bytes with no NUL and valid UTF-8,
   * and each read returns one whole frame, the server's receive loop
   * stays open and passes on exactly ms, in order.
   */
  lemma {:induction false} ServerReceivesWhatWasSent(ms: seq<Bytes>)
    requires forall k :: 0 <= k < |ms| ==> Decodable(ms[k])
    ensures Run(FramesOf(ms), ServerDecode) == Reaction(Open, ms)
    decreases |ms|
  {
    if ms != [] {
      var init, last := ms[..|ms| - 1], ms[|ms| - 1];
      assert FramesOf(ms) == FramesOf(init) + [Filled(Encode(last))];
      assert forall k :: 0 <= k < |init| ==> init[k] == ms[k];
      ServerReceivesWhatWasSent(init);
      ServerReadsOneMore(FramesOf(init), init, last);
      LastSplit(ms);
    }
  }
}
