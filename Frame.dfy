/**
 * The fixed-size wire frame both programs exchange: a message's bytes,
 * zero-padded or truncated to exactly 256 bytes, and the two different
 * ways the server and the client turn a received frame back into text.
 */
module Frame {
  import opened Bytes
  import opened Utf8

  /** `MAX_MESSAGE_SIZE` on the server, `MESSAGE_SIZE` on the client. */
  const FRAME_SIZE: nat := 256

  /** What `read_exact` fills and `write_all` sends: exactly 256 bytes. */
  type Frame = s: Bytes | |s| == FRAME_SIZE witness Zeros(FRAME_SIZE)

  /** The result of a `from_utf8` call; `expect` panics on `NotUtf8`. */
  datatype DecodeResult = Decoded(text: Bytes) | NotUtf8

  /**
   * `msg.into_bytes()` followed by `resize(256, 0)`: the frame that both
   * the client and the server write for a message.
   */
  function Encode(msg: Bytes): (f: Frame)
    ensures |msg| <= FRAME_SIZE ==> f[..|msg|] == msg
    ensures forall i :: |msg| <= i < FRAME_SIZE ==> f[i] == 0
    ensures |msg| > FRAME_SIZE ==> f == msg[..FRAME_SIZE]
  {
    Resize(msg, FRAME_SIZE, 0)
  }

  /**
   * A message the server's decode can return, and gets back intact from
   * its frame: at most 256 bytes, no NUL, valid UTF-8.
   */
  predicate Decodable(m: Bytes) {
    |m| <= FRAME_SIZE && NoZero(m) && ValidUtf8(m)
  }

  /** `into_iter().take_while(|&x| x != 0).collect()`. */
  function TakeWhileNonZero(s: Bytes): (p: Bytes)
    ensures |p| <= |s| && p == s[..|p|]
    ensures NoZero(p)
    ensures |p| < |s| ==> s[|p|] == 0
  {
    if s == [] || s[0] == 0 then [] else [s[0]] + TakeWhileNonZero(s[1..])
  }

  /** The server's decode: the bytes before the first zero, checked as UTF-8. */
  function ServerDecode(f: Frame): (r: DecodeResult)
    ensures r.Decoded? ==> |r.text| <= FRAME_SIZE && NoZero(r.text) && ValidUtf8(r.text)
    ensures r.Decoded? ==> r.text == f[..|r.text|] && (|r.text| < FRAME_SIZE ==> f[|r.text|] == 0)
  {
    var p := TakeWhileNonZero(f);
    if ValidUtf8(p) then Decoded(p) else NotUtf8
  }

  /** The client's decode: all 256 bytes, padding included, checked as UTF-8. */
  function ClientDecode(f: Frame): (r: DecodeResult)
    ensures r.Decoded? ==> |r.text| == FRAME_SIZE && ValidUtf8(r.text)
  {
    if ValidUtf8(f) then Decoded(f) else NotUtf8
  }

  /**
   * The client's decode fails (its `expect` panics) exactly when the whole
   * frame is not valid UTF-8; when it succeeds the text is the frame itself,
   * padding and all.
   */
  lemma ClientDecodeFailsIff(f: Frame)
    ensures ClientDecode(f) == NotUtf8 <==> !ValidUtf8(f)
    ensures ClientDecode(f) != NotUtf8 ==> ClientDecode(f) == Decoded(f)
  {
  }

  /**
   * The zero-free prefix that ends at a zero byte (or at the end) is
   * unique: any such prefix is exactly what `take_while` keeps.
   */
  lemma {:induction false} TakeWhileIsLongestZeroFreePrefix(s: Bytes, n: nat)
    requires n <= |s| && NoZero(s[..n]) && (n == |s| || s[n] == 0)
    ensures TakeWhileNonZero(s) == s[..n]
    decreases n
  {
    if n > 0 {
      assert s[0] == s[..n][0];
      var rest := s[1..][..n - 1];
      assert NoZero(rest) by {
        forall i | 0 <= i < n - 1 ensures rest[i] != 0 {
          assert rest[i] == s[..n][i + 1];
        }
      }
      TakeWhileIsLongestZeroFreePrefix(s[1..], n - 1);
      assert s[..n] == [s[0]] + s[1..][..n - 1];
    }
  }

  /** A message of at most 256 bytes is the start of its frame; the rest is zeros. */
  lemma EncodeShort(msg: Bytes)
    requires |msg| <= FRAME_SIZE
    ensures Encode(msg) == msg + Zeros(FRAME_SIZE - |msg|)
  {
  }

  /** Bytes without a NUL survive the zero padding: take_while gives them back. */
  lemma TakeWhileOfEncoded(msg: Bytes)
    requires |msg| <= FRAME_SIZE && NoZero(msg)
    ensures TakeWhileNonZero(Encode(msg)) == msg
  {
    TakeWhileIsLongestZeroFreePrefix(Encode(msg), |msg|);
  }

  /**
   * Round trip: a message of at most 256 bytes with no NUL comes back
   * unchanged from the server's decode of its frame (a message of
   * exactly 256 bytes fills the frame and has no terminator).
   */
  lemma ServerRoundTrip(msg: Bytes)
    requires |msg| <= FRAME_SIZE && NoZero(msg) && ValidUtf8(msg)
    ensures ServerDecode(Encode(msg)) == Decoded(msg)
  {
    TakeWhileOfEncoded(msg);
  }

  /**
   * The other direction: a frame whose bytes after the first zero are all
   * zero is rebuilt exactly by encoding what the server decodes from it.
   */
  lemma EncodeOfServerDecode(f: Frame, n: nat)
    requires n <= FRAME_SIZE && NoZero(f[..n]) && ValidUtf8(f[..n])
    requires forall i :: n <= i < FRAME_SIZE ==> f[i] == 0
    ensures ServerDecode(f) == Decoded(f[..n])
    ensures Encode(ServerDecode(f).text) == f
  {
    TakeWhileIsLongestZeroFreePrefix(f, n);
    assert Encode(f[..n]) == f;
  }

  /**
   * The server's decode fails (its `expect` panics) exactly when the bytes
   * before the first zero, f[..n], are not valid UTF-8.
   */
  lemma ServerDecodeFailsIff(f: Frame, n: nat)
    requires n <= FRAME_SIZE && NoZero(f[..n]) && (n == FRAME_SIZE || f[n] == 0)
    ensures ServerDecode(f) == NotUtf8 <==> !ValidUtf8(f[..n])
    ensures ServerDecode(f) != NotUtf8 ==> ServerDecode(f) == Decoded(f[..n])
  {
    TakeWhileIsLongestZeroFreePrefix(f, n);
  }

  /**
   * The client shows every byte of a frame: for a message of at most 256
   * bytes it decodes the message followed by 256 - |msg| NUL characters,
   * and it fails exactly when the message is not valid UTF-8.
   */
  lemma ClientSeesPadding(msg: Bytes)
    requires |msg| <= FRAME_SIZE
    ensures ValidUtf8(msg) ==> ClientDecode(Encode(msg)) == Decoded(msg + Zeros(FRAME_SIZE - |msg|))
    ensures !ValidUtf8(msg) ==> ClientDecode(Encode(msg)) == NotUtf8
  {
    var f := Encode(msg);
    assert f == msg + Zeros(FRAME_SIZE - |msg|);
    if ValidUtf8(msg) {
      ZerosAreValid(FRAME_SIZE - |msg|);
      ConcatValid(msg, Zeros(FRAME_SIZE - |msg|));
    } else if ValidUtf8(f) {
      assert f[..|msg|] == msg;
      PrefixBeforeAsciiValid(f, |msg|);
    }
  }

  /**
   * The two decoders disagree on every message shorter than a frame: the
   * server returns the message, the client the message with its padding.
   */
  lemma DecodeAsymmetry(msg: Bytes)
    requires |msg| < FRAME_SIZE && NoZero(msg) && ValidUtf8(msg)
    ensures ServerDecode(Encode(msg)) == Decoded(msg)
    ensures ClientDecode(Encode(msg)) == Decoded(msg + Zeros(FRAME_SIZE - |msg|))
    ensures ServerDecode(Encode(msg)) != ClientDecode(Encode(msg))
  {
    ServerRoundTrip(msg);
    ClientSeesPadding(msg);
    assert |msg + Zeros(FRAME_SIZE - |msg|)| != |msg|;
  }

  /** `take_while` keeps nothing at or after a zero byte. */
  lemma TakeWhileStopsAtZero(s: Bytes, i: nat)
    requires i < |s| && s[i] == 0
    ensures |TakeWhileNonZero(s)| <= i
  {
  }

  /**
   * The decoders disagree on every valid UTF-8 message shorter than a frame,
   * zero bytes included: the client's text is always a whole frame, while
   * the server's stops at the padding byte in the frame's last position.
   */
  lemma DecodersAlwaysDisagree(msg: Bytes)
    requires |msg| < FRAME_SIZE && ValidUtf8(msg)
    ensures ServerDecode(Encode(msg)) != ClientDecode(Encode(msg))
  {
    var f := Encode(msg);
    assert f[FRAME_SIZE - 1] == 0;
    TakeWhileStopsAtZero(f, FRAME_SIZE - 1);
    ClientSeesPadding(msg);
    ZerosAreValid(FRAME_SIZE - |msg|);
    ClientAcceptsThenServerAccepts(f);
  }

  /**
   * Whatever the client accepts the server accepts too, and the server's
   * text is the client's text cut at its first NUL.
   */
  lemma ClientAcceptsThenServerAccepts(f: Frame)
    requires ClientDecode(f).Decoded?
    ensures ServerDecode(f) == Decoded(TakeWhileNonZero(ClientDecode(f).text))
  {
    var p := TakeWhileNonZero(f);
    PrefixBeforeAsciiValid(f, |p|);
  }

  /**
   * Truncation is by bytes, not characters: a valid message longer than a
   * frame whose 257th byte continues a character leaves a frame that ends
   * inside that character, so the client's decode fails, and so does the
   * server's when the first 256 bytes hold no NUL.
   */
  lemma TruncationSplitsCharacter(msg: Bytes)
    requires |msg| > FRAME_SIZE && ValidUtf8(msg) && IsTail(msg[FRAME_SIZE])
    ensures ClientDecode(Encode(msg)) == NotUtf8
    ensures NoZero(msg[..FRAME_SIZE]) ==> ServerDecode(Encode(msg)) == NotUtf8
  {
    var f := Encode(msg);
    if ValidUtf8(f) {
      ValidPrefixEndsAtBoundary(msg, FRAME_SIZE);
    }
    if NoZero(msg[..FRAME_SIZE]) {
      TakeWhileIsLongestZeroFreePrefix(f, FRAME_SIZE);
      assert f[..FRAME_SIZE] == f;
    }
  }

  /**
   * One concrete instance: 255 letters followed by the two bytes of U+00E9
   * is valid UTF-8 of 257 bytes, and neither side can decode its frame.
   */
  lemma TruncationExample()
    ensures var msg := seq(255, _ => 0x61 as byte) + [0xC3, 0xA9];
      && |msg| == FRAME_SIZE + 1 && ValidUtf8(msg)
      && ServerDecode(Encode(msg)) == NotUtf8 && ClientDecode(Encode(msg)) == NotUtf8
  {
    var letters: Bytes := seq(255, _ => 0x61 as byte);
    var e: Bytes := [0xC3, 0xA9];
    var msg := letters + e;
    AsciiIsValid(letters);
    assert FirstCharWidth(e) == 2 && e[2..] == [];
    ConcatValid(letters, e);
    assert msg[FRAME_SIZE] == 0xA9;
    assert NoZero(msg[..FRAME_SIZE]);
    TruncationSplitsCharacter(msg);
  }
}
