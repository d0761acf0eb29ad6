# RustDemoTCP chat core in Dafny

RustDemoTCP is a terminal chat room built from two programs. The server
accepts TCP connections and starts one receive thread per connection.
Each receive thread reads fixed 256-byte frames, decodes them as text and
hands the text to the server's main loop over a channel. The main loop
writes the frame of each message to every connection in its registry. A
connection whose write fails is dropped from the registry.

The client reads a user name, then sends each typed line as
`"<username>: <line>"` until the user types `:q`. Its network thread
writes queued messages as frames and prints every frame it reads.

The model has these parts:

- `Bytes`: bytes, zero fill, no-NUL, and `Vec::resize`.
- `Utf8`: the well-formedness check behind `String::from_utf8` and
  `str::from_utf8`, using the byte grammar of section 4 of RFC 3629.
- `Frame`: the frame codec.
  - Both sides encode a message with `resize(256, 0)`.
  - The server decodes the bytes before the first NUL (`take_while`).
  - The client decodes all 256 bytes.
- `Connection`: what one `read_exact` outcome does to a receive loop, plus
  `Run`, which folds a whole trace of read results.
- `Registry`: the fan-out prune (`filter_map` keeping each connection
  whose `write_all` succeeded), as a function on sequences.
- `Server`:
  - the class `Server`, holding the registry, an accept counter and the
    channel's queue;
  - its accept and relay steps;
  - the class `ReceiveLoop`, one per connection.
- `Lines`: `trim`, the `:q` sentinel and the `"<username>: "` prefix.
- `Client`: the class `Client`, with one method per iteration of the main
  loop (`SubmitLine`) and of the network thread (`NetworkStep`).
- `Chat`: lemmas and small scenarios that connect the two programs.

Each `loop { ... }` of the source is modelled as one method call per
iteration. The scheduler's interleaving of the threads becomes the order
in which a caller invokes these methods. The outcome of each I/O call is
a parameter: the `read_exact` result, and whether a `write_all`
succeeded.

Three behaviours of the code are worth stating on their own:

- `Frame.Encode` truncates a message longer than 256 bytes, as `resize`
  does. The code raises no size error.
  `Frame.TruncationSplitsCharacter` shows what this truncation does to a
  multi-byte character.
- After `:q` the client's `main` returns, which ends the process together
  with its network thread. The model only stops the main loop (`sending`
  becomes false). After that, the network thread reports `Disconnected`
  once the channel is empty.
- An undecodable frame panics only its own receive thread on the server
  (`Panicked`). A read error only ends that thread (`Closed`). In both
  cases the cloned write handle stays in the registry until a relayed
  write to it fails.

## Model

| member | source | states |
|---|---|---|
| Bytes.Resize | class-demo-server/src/main.rs:46 | The result has exactly n bytes. It is the first n bytes of s when s is at least that long. Otherwise it is s followed by copies of the fill byte. |
| Frame.Encode | class-demo-server/src/main.rs:45-46 | A message of at most 256 bytes starts the frame and the rest of the frame is zeros. A longer message is cut to its first 256 bytes. |
| Frame.TakeWhileNonZero | class-demo-server/src/main.rs:27 | The result is a prefix of s with no NUL. It ends at the first NUL of s, or at the end of s. |
| Frame.TakeWhileIsLongestZeroFreePrefix | class-demo-server/src/main.rs:27 | Any NUL-free prefix of s that ends at a NUL (or at the end of s) is exactly what `take_while` keeps. |
| Frame.TakeWhileStopsAtZero | class-demo-server/src/main.rs:27 | `take_while` keeps nothing at or after a NUL byte: its output is no longer than the position of any NUL. |
| Frame.ServerDecode | class-demo-server/src/main.rs:27-28 | Decoded text is at most 256 bytes, has no NUL and is valid UTF-8. It is the frame's prefix up to its first NUL. |
| Frame.ClientDecode | class-demo-client/src/main.rs:49-50 | Decoded text is 256 bytes long and valid UTF-8. `Frame.ClientDecodeFailsIff` states exactly what it is. |
| Frame.ClientDecodeFailsIff | class-demo-client/src/main.rs:49-50 | For every frame, the client's decode fails (its `expect` panics) if and only if the whole frame is not valid UTF-8. When it succeeds, the text is the frame itself. |
| Frame.EncodeShort | class-demo-client/src/main.rs:34-35 | Encoding a message of at most 256 bytes gives the message followed by 256 - n zero bytes. |
| Frame.TakeWhileOfEncoded | class-demo-server/src/main.rs:27 | `take_while` on the frame of a NUL-free message of at most 256 bytes gives the message back. |
| Frame.ServerRoundTrip | class-demo-server/src/main.rs:27-28 | Round trip: the server decodes the frame of a NUL-free, valid UTF-8 message of at most 256 bytes to exactly that message. |
| Frame.EncodeOfServerDecode | class-demo-server/src/main.rs:45-46 | Inverse round trip: a frame that is a valid text followed only by zeros is rebuilt exactly by encoding what the server decodes from it. |
| Frame.ServerDecodeFailsIff | class-demo-server/src/main.rs:27-28 | The server's decode fails (its `expect` panics) if and only if the bytes before the first NUL are not valid UTF-8. When it succeeds, it returns those bytes. |
| Frame.ClientSeesPadding | class-demo-client/src/main.rs:49-50 | For a message of at most 256 bytes, the client prints the message plus its NUL padding when the message is valid UTF-8, and fails otherwise. |
| Frame.DecodeAsymmetry | class-demo-client/src/main.rs:49-50 | For a NUL-free, valid UTF-8 message shorter than a frame, the server returns the message and the client returns the message with its padding, so the two differ. |
| Frame.DecodersAlwaysDisagree | class-demo-client/src/main.rs:49-50 | For every valid UTF-8 message shorter than a frame, NULs included, the server's result and the client's result on its frame differ. |
| Frame.ClientAcceptsThenServerAccepts | class-demo-server/src/main.rs:27-28 | Whatever frame the client accepts, the server accepts too. The server's text is the client's text cut at its first NUL. |
| Frame.TruncationSplitsCharacter | class-demo-client/src/main.rs:34-35 | A valid message over 256 bytes whose 257th byte continues a character gives a frame the client cannot decode. The server cannot decode it either when its 256 bytes hold no NUL. |
| Frame.TruncationExample | class-demo-server/src/main.rs:45-46 | A concrete 257-byte valid message (255 letters and U+00E9) whose frame neither side can decode. |
| Utf8.ValidUtf8 | class-demo-server/src/main.rs:28 | The check of `String::from_utf8` and `str::from_utf8` (class-demo-client/src/main.rs:50): a sequence of well-formed characters. Its properties are stated by `Utf8.ConcatValid`, `Utf8.PrefixBeforeAsciiValid` and `Utf8.ValidPrefixEndsAtBoundary`. |
| Utf8.FirstCharWidth | class-demo-server/src/main.rs:28 | The width of the first well-formed character (at most 4, never past the end). An ASCII byte has width 1. A positive width starts on a non-continuation byte, then continuation bytes. |
| Utf8.ConcatValid | class-demo-client/src/main.rs:74 | The concatenation of two valid UTF-8 strings is valid UTF-8. |
| Utf8.AsciiIsValid | class-demo-client/src/main.rs:35 | Every ASCII byte string (zero padding among them) is valid UTF-8. |
| Utf8.PrefixBeforeAsciiValid | class-demo-server/src/main.rs:27-28 | Cutting a valid string just before an ASCII byte leaves a valid string. |
| Utf8.ValidPrefixEndsAtBoundary | class-demo-client/src/main.rs:35 | If a valid string and its first i bytes are both valid, byte i is not a continuation byte. |
| Connection.OnRead | class-demo-server/src/main.rs:25-37 | One receive iteration. `WouldBlock` stays open and passes nothing on. Any other error closes the loop. An undecodable frame panics. A decoded frame stays open and passes on exactly its text. |
| Connection.Run | class-demo-server/src/main.rs:22-37 | The receive `loop` over a trace of read results: `Connection.OnRead` per iteration, and nothing after the loop stops. Stated by `Connection.RunStopsForGood`, `Connection.WouldBlockIsNoOp` and `Connection.ServerReceivesWhatWasSent`. |
| Connection.RunExtends | class-demo-server/src/main.rs:22-37 | An open loop handles one more read result by the receive rule and keeps everything it passed on before. |
| Connection.RunStopsForGood | class-demo-client/src/main.rs:47-58 | After a loop has closed or panicked, no later read result changes its state or what it delivered. |
| Connection.WouldBlockIsNoOp | class-demo-server/src/main.rs:32 | A `WouldBlock` read leaves the loop's state and output unchanged. |
| Connection.OpenRunSawNoFailure | class-demo-server/src/main.rs:25-37 | A loop that is still open has seen no read error and no undecodable frame. |
| Connection.ServerForwardsDecodedText | class-demo-server/src/main.rs:27-30 | Everything a server receive loop sends on the channel is at most 256 bytes, NUL-free and valid UTF-8. |
| Connection.FramesOfReadsEachFrame | class-demo-server/src/main.rs:25 | In the trace of a peer writing messages ms, with one whole frame per read, the k-th read result is the frame of ms[k]. |
| Connection.ServerReadsOneMore | class-demo-server/src/main.rs:25-30 | An open server loop that reads the frame of one more decodable message stays open and passes exactly that message on. |
| Connection.ServerReceivesWhatWasSent | class-demo-server/src/main.rs:25-30 | When a peer writes the frames of decodable messages (at most 256 bytes, NUL-free, valid UTF-8) and every read returns one whole frame, the receive loop stays open and sends exactly those messages on the channel, in order. |
| Registry.Surviving | class-demo-server/src/main.rs:44-48 | The pruned registry is no longer than before, and holds only connections that were registered. |
| Registry.SurvivingAppend | class-demo-server/src/main.rs:44-48 | Pruning distributes over concatenation: it decides connection by connection. |
| Registry.SurvivingStep | class-demo-server/src/main.rs:47 | Adding one connection adds it to the pruned registry exactly when its write succeeded. |
| Registry.OkPositionsSound | class-demo-server/src/main.rs:47 | Each listed position is in range and had a successful write. The survivor at that rank is the connection at that position. |
| Registry.OkPositionsIncrease | class-demo-server/src/main.rs:44-48 | The positions of successful writes are listed in strictly increasing order. |
| Registry.OkPositionsComplete | class-demo-server/src/main.rs:47 | Every position whose write succeeded is listed. |
| Registry.SurvivingIsOkSubsequence | class-demo-server/src/main.rs:44-48 | The pruned registry is exactly the subsequence of the registry at the positions whose write succeeded, in the original order. |
| Registry.SurvivingMembership | class-demo-server/src/main.rs:47 | A connection survives if and only if some position holding it had a successful write. |
| Registry.AllWritesSucceed | class-demo-server/src/main.rs:44-48 | When every write succeeds, nothing is pruned. |
| Registry.AllWritesFail | class-demo-server/src/main.rs:44-48 | When every write fails, the registry becomes empty. |
| Registry.SurvivingLength | class-demo-server/src/main.rs:44-48 | The registry shrinks by exactly the number of failed writes. |
| Server.SurvivingKeepsAcceptOrder | class-demo-server/src/main.rs:44-48 | Pruning keeps the registry in accept order. |
| Server.Server.constructor | class-demo-server/src/main.rs:13-14 | The server starts with an empty registry, no accepts and an empty channel. |
| Server.Server.Accept | class-demo-server/src/main.rs:16-22 | Accept appends a new handle, distinct from every registered one, to the registry and leaves earlier entries alone. A fresh receive loop starts open for it. Accept order is kept. |
| Server.Server.Relay | class-demo-server/src/main.rs:43-49 | With an empty channel nothing changes. Otherwise the oldest message is taken and its frame is written to each registered connection in order. The registry becomes the pruned registry of those outcomes. Accept order and decodable queued messages are kept. |
| Server.ReceiveLoop.constructor | class-demo-server/src/main.rs:22 | `thread::spawn` starts the receive loop for the accepted handle, open. |
| Server.ReceiveLoop.Step | class-demo-server/src/main.rs:22-37 | The loop state and the channel change exactly as the receive rule says for the server's decoder. Nothing else on the server changes. Every queued message stays decodable: at most 256 bytes, NUL-free, valid UTF-8. |
| Lines.Trim | class-demo-client/src/main.rs:16 | `str::trim` (also class-demo-client/src/main.rs:70) on ASCII whitespace. Stated by `Lines.TrimIsInnerSlice`, `Lines.TrimIdempotent` and `Lines.TrimKeepsUtf8`. |
| Lines.TrimStartIsSuffix | class-demo-client/src/main.rs:70 | The start trim leaves a suffix that does not start with whitespace. Everything it removed is whitespace. |
| Lines.TrimEndIsPrefix | class-demo-client/src/main.rs:70 | The end trim leaves a prefix that does not end with whitespace. Everything it removed is whitespace. |
| Lines.TrimIsInnerSlice | class-demo-client/src/main.rs:70 | `trim` gives the slice s[i..j]. Everything outside the slice is whitespace, and the slice neither starts nor ends with whitespace. |
| Lines.TrimIdempotent | class-demo-client/src/main.rs:16 | Trimming twice is the same as trimming once. |
| Lines.TrimStartKeepsUtf8 | class-demo-client/src/main.rs:70 | Removing leading whitespace keeps a valid string valid. |
| Lines.TrimKeepsUtf8 | class-demo-client/src/main.rs:16 | A trimmed valid string is valid UTF-8. |
| Lines.IsQuit | class-demo-client/src/main.rs:70-71 | The trimmed line equals `:q`. Stated by `Lines.QuitIgnoresSurroundingSpace` and `Client.Client.SubmitLine`. |
| Lines.Outgoing | class-demo-client/src/main.rs:74 | `format!("{}: {}", username, msg)`. Stated by `Lines.OutgoingShape` and `Lines.OutgoingNoZero`. |
| Lines.OutgoingShape | class-demo-client/src/main.rs:74 | The message is the user name, then `": "`, then the trimmed line. It is valid UTF-8 when the name and the line are. |
| Lines.TrimKeepsNoZero | class-demo-client/src/main.rs:70 | Trimming adds no NUL. |
| Lines.OutgoingNoZero | class-demo-client/src/main.rs:74 | An outgoing message holds a NUL only if the user name or the line does. |
| Lines.QuitIgnoresSurroundingSpace | class-demo-client/src/main.rs:70-73 | `:q` with whitespace around it still ends the send loop. |
| Client.Client.constructor | class-demo-client/src/main.rs:14-16 | The user name is the trimmed first line. The channel is empty and both loops run. |
| Client.Client.SubmitLine | class-demo-client/src/main.rs:67-77 | A line that trims to `:q` stops the loop and queues nothing. Any other line is queued as `"<username>: <trimmed line>"`. If the network thread has ended, the send fails and the loop stops. Every queued message keeps the prefix. |
| Client.Client.NetworkStep | class-demo-client/src/main.rs:27-59 | On `try_recv`, a queued message is written as its frame, and a failed write crashes the thread. An empty channel writes nothing. A disconnected channel (loop stopped, nothing queued) ends the thread. Then the read follows the receive rule for the client's decoder. Every printed text is 256 valid UTF-8 bytes. |
| Chat.LineTravelsIntact | class-demo-client/src/main.rs:74 | A NUL-free, valid UTF-8 typed line, sent under a NUL-free, valid user name, whose message fits a frame reaches the server as exactly that message. A client reading its frame prints the message with its padding. |
| Chat.AliceName | class-demo-client/src/main.rs:14-16 | The name line "alice\n" gives the user name "alice". |
| Chat.HelloLine | class-demo-client/src/main.rs:70-74 | "hello\n" is not the sentinel and is sent as "alice: hello". |
| Chat.AliceHelloFrame | class-demo-server/src/main.rs:27-28 | The server decodes the frame of "alice: hello" as itself. A client prints it with 244 NULs. |
| Chat.AliceTypesHello | class-demo-client/src/main.rs:32-36 | The client "alice" typing "hello" writes the frame of "alice: hello". |
| Chat.RelayToTwoClients | class-demo-server/src/main.rs:16-49 | With two clients connected, the first one's frame of a message reaches the relay. Its frame is written to both, in accept order, and neither is pruned. |
| Chat.ClientPrintsRelayed | class-demo-client/src/main.rs:47-51 | A client reading the relayed frame of a message prints exactly the message followed by its NUL padding. |
| Chat.PruneMiddle | class-demo-server/src/main.rs:44-48 | Of three connections whose middle write failed, the outer two remain, in order. |
| Chat.OneDeadConnection | class-demo-server/src/main.rs:43-49 | With three connections and a decodable message received from the first, a failed write to the second still writes to all three: the first and third writes succeed and the second fails. Only the second is dropped, and the third keeps its place. |

## Left out

- Threads, the `mpsc` channels and the 200 ms sleeps are not modelled as
  concurrency. Each loop iteration is a method. A channel is a queue
  field: `Server.inbox` for the server, `Client.outbox` for the client.
- Socket setup (`bind`, `connect`, `set_nonblocking`, `try_clone`), the
  host constant and any failure of these calls are not modelled. A
  connection is a `Handle` numbered in accept order.
- `println!` of connection and disconnection notices and of received
  text is not modelled. The client's printed output is only recorded
  as its `shown` sequence.
- Reading standard input is a parameter. A failing `read_line` (an
  `expect` panic in the main loop) is not modelled.
- `Lines.Trim`: trims only ASCII whitespace. Rust's `trim` also removes
  other Unicode White_Space characters; byte-level Unicode tables are out
  of scope.
- `Utf8.ValidUtf8`: uses the grammar of section 4 of RFC 3629. It does
  not report where decoding stopped, which the source never uses.
- `Server.ReceiveLoop.Step`: assumes the server's `tx.send` succeeds.
  The receiver lives as long as the server's main loop, so it can only
  fail once the process is ending.
- A `read_exact` on a non-blocking socket can return `WouldBlock`
  after reading part of a frame. Those bytes are already consumed, so
  the next read starts inside the frame. The model's `WouldBlock`
  consumes nothing, and every `Filled` read is a whole frame as the peer
  wrote it. `Connection.FramesOfReadsEachFrame` and
  `Connection.ServerReceivesWhatWasSent` hold only when each read
  returns one whole frame.
- `write_all` is modelled as succeeding or failing for a whole frame.
  Partial writes before an error are not modelled, because the source
  drops the connection either way.
- The process exit after `:q`, which takes the network thread down with
  `main`, is not modelled. The model keeps stepping the network thread
  until the channel reports `Disconnected`.
- An `accept` that fails or finds no pending connection is not a step
  of the model. It is a no-op in the source.
