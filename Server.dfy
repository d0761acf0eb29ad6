/**
 * The server's state: the registry of connections it writes to, the
 * channel its receive loops feed, and one receive loop per accepted
 * connection. Each method is one iteration of a loop of the server.
 */
module Server {
  import opened Bytes
  import opened Utf8
  import opened Frame
  import opened Connection
  import opened Registry

  /**
   * A connection's write side (`socket.try_clone()`); connections are told
   * apart by the order in which they were accepted.
   */
  datatype Handle = Handle(id: nat)

  /** One `write_all` of a relayed frame, and whether it succeeded. */
  datatype Write = Write(to: Handle, frame: Frame, ok: bool)

  /** The registry lists connections in accept order, each accepted already. */
  ghost predicate InAcceptOrder(cs: seq<Handle>, accepted: nat) {
    && (forall i, j :: 0 <= i < j < |cs| ==> cs[i].id < cs[j].id)
    && (forall i :: 0 <= i < |cs| ==> cs[i].id < accepted)
  }

  /** Pruning keeps the registry in accept order. */
  lemma SurvivingKeepsAcceptOrder(cs: seq<Handle>, ok: seq<bool>, accepted: nat)
    requires |cs| == |ok| && InAcceptOrder(cs, accepted)
    ensures InAcceptOrder(Surviving(cs, ok), accepted)
  {
    var idx := SurvivingIsOkSubsequence(cs, ok);
  }

  class Server {
    /** `clients`: the write side of every connection still considered live. */
    var clients: seq<Handle>
    /** How many connections have been accepted so far. */
    var accepted: nat
    /** The messages the receive loops have sent on the channel and the relay has not taken yet. */
    var inbox: seq<Bytes>

    /**
     * The registry is in accept order, and every queued message is one a
     * receive loop can have decoded: at most 256 bytes, no NUL, valid UTF-8.
     */
    ghost predicate Valid()
      reads this
    {
      && InAcceptOrder(clients, accepted)
      && forall k :: 0 <= k < |inbox| ==> Decodable(inbox[k])
    }

    /** `vec![]` and `mpsc::channel()`: no connection, nothing queued. */
    constructor ()
      ensures Valid()
      ensures clients == [] && accepted == 0 && inbox == []
    {
      clients, accepted, inbox := [], 0, [];
    }

    /**
     * A successful `accept`: the new connection's write side is appended to
     * the registry, the entries already there are untouched, and a receive
     * loop starts for it, open.
     */
    method Accept() returns (h: Handle, rx: ReceiveLoop)
      requires Valid()
      modifies this`clients, this`accepted
      ensures Valid()
      ensures h == Handle(old(accepted)) && h !in old(clients)
      ensures clients == old(clients) + [h] && accepted == old(accepted) + 1
      ensures fresh(rx) && rx.peer == h && rx.state == Open
    {
      h := Handle(accepted);
      clients := clients + [h];
      accepted := accepted + 1;
      rx := new ReceiveLoop(h);
    }

    /**
     * The relay step of the main loop. When the channel is empty nothing
     * happens. Otherwise the oldest message is taken, its frame is written
     * to every registered connection in registry order (outcomes[i] says
     * whether the write to the i-th succeeded), and the registry becomes
     * the connections whose write succeeded, in their old order.
     */
    method Relay(outcomes: seq<bool>) returns (relayed: Option<Bytes>, writes: seq<Write>)
      requires Valid() && |outcomes| == |clients|
      modifies this`clients, this`inbox
      ensures Valid()
      ensures old(inbox) == [] ==> relayed == None && writes == [] && clients == old(clients) && inbox == []
      ensures old(inbox) != [] ==>
        && relayed == Some(old(inbox)[0]) && inbox == old(inbox)[1..]
        && clients == Surviving(old(clients), outcomes)
        && |writes| == |old(clients)|
        && forall k :: 0 <= k < |writes| ==> writes[k] == Write(old(clients)[k], Encode(old(inbox)[0]), outcomes[k])
    {
      writes := [];
      if inbox == [] {
        relayed := None;
        return;
      }
      var msg := inbox[0];
      relayed := Some(msg);
      var cs := clients;
      var frame := Encode(msg);
      var kept: seq<Handle> := [];
      var i := 0;
      while i < |cs|
        invariant 0 <= i <= |cs|
        invariant inbox == old(inbox) && clients == old(clients)
        invariant kept == Surviving(cs[..i], outcomes[..i])
        invariant |writes| == i
        invariant forall k :: 0 <= k < i ==> writes[k] == Write(cs[k], frame, outcomes[k])
      {
        writes := writes + [Write(cs[i], frame, outcomes[i])];
        if outcomes[i] {
          kept := kept + [cs[i]];
        }
        SurvivingStep(cs, outcomes, i);
        i := i + 1;
      }
      assert cs[..i] == cs && outcomes[..i] == outcomes;
      SurvivingKeepsAcceptOrder(cs, outcomes, accepted);
      clients, inbox := kept, inbox[1..];
    }
  }

  /** The thread spawned for one accepted connection. */
  class ReceiveLoop {
    const peer: Handle
    var state: LoopState

    constructor (h: Handle)
      ensures peer == h && state == Open
    {
      peer, state := h, Open;
    }

    /**
     * One iteration on read result r: a full frame is decoded with
     * `take_while` and `from_utf8` and the text sent on the server's
     * channel, `WouldBlock` does nothing, any other error closes the loop,
     * and an undecodable frame panics the thread. Only the channel changes
     * on the server: a closed or panicked loop leaves its connection in the
     * registry until a write to it fails.
     */
    method Step(r: ReadResult, server: Server)
      requires state == Open && server.Valid()
      modifies this`state, server`inbox
      ensures server.Valid()
      ensures state == OnRead(r, ServerDecode).next
      ensures server.inbox == old(server.inbox) + OnRead(r, ServerDecode).delivered
    {
      match r {
        case WouldBlock =>
        case Failed =>
          state := Closed;
        case Filled(f) =>
          var d := ServerDecode(f);
          if d.Decoded? {
            server.inbox := server.inbox + [d.text];
          } else {
            state := Panicked;
          }
      }
    }
  }
}
