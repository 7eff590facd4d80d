/**
 * One client connection on the server (tictactoe_online/server/client_handler.py):
 * the byte buffer that received data is cut into newline-delimited messages,
 * the hand-over of each decoded message to the server, and the `running` flag
 * that lets the connection stop, and report its disconnection, only once.
 *
 * The socket is replaced by the chunks `recv` returns, the message callback by
 * the log `delivered` of what it was handed, and JSON decoding by the
 * connection's `decode` function.
 */
module Handlers {
  import opened Wrappers
  import opened Protocol

  class ClientHandler {
    const playerId: string
    const decode: Decoder
    /** The room the server last told this client it joined. */
    var currentGameId: Option<string>
    var running: bool
    /** Bytes received after the last delimiter. */
    var buffer: seq<byte>
    /** The messages handed to the server's callback, in order. */
    var delivered: seq<Request>
    /** Every frame cut from the stream so far, decoded or not. */
    ghost var frames: seq<seq<byte>>

    /** Between two receptions the buffer holds no complete message. */
    ghost predicate Valid()
      reads this
    {
      Delimiter !in buffer
    }

    constructor(playerId: string, decode: Decoder)
      ensures Valid()
      ensures this.playerId == playerId && this.decode == decode
      ensures currentGameId == None && !running
      ensures buffer == [] && delivered == [] && frames == []
    {
      this.playerId := playerId;
      this.decode := decode;
      currentGameId := None;
      running := false;
      buffer := [];
      delivered := [];
      frames := [];
    }

    /** `start`, without its thread: the connection starts running. */
    method Start()
      modifies this`running
      ensures running
    {
      running := true;
    }

    /**
     * `stop`: a running connection stops and hands the server one DISCONNECT;
     * a stopped one does nothing. Closing the socket is left out.
     */
    method Stop() returns (notified: bool)
      modifies this`running, this`delivered
      ensures notified == old(running)
      ensures !running
      ensures delivered == old(delivered) + (if notified then [Disconnect] else [])
    {
      notified := running;
      if running {
        running := false;
        delivered := delivered + [Disconnect];
      }
    }

    /** `_process_message`: a frame the decoder accepts goes to the server; one it rejects is dropped. */
    method ProcessMessage(frame: seq<byte>)
      modifies this`delivered
      ensures delivered == old(delivered) + Accepted(decode, frame)
      ensures decode(frame).None? ==> delivered == old(delivered)
    {
      var message := decode(frame);
      if message.Some? {
        delivered := delivered + [message.value];
      }
    }

    /**
     * One pass of `_receive_loop`: an empty chunk means the peer closed, so the
     * connection stops; otherwise the chunk is appended to the buffer and every
     * complete message is cut off at its first delimiter and processed in order.
     */
    method ReceiveChunk(data: seq<byte>)
      requires Valid()
      modifies this`buffer, this`delivered, this`running, this`frames
      ensures Valid()
      ensures data == [] ==> buffer == old(buffer) && frames == old(frames) && !running
      ensures data == [] ==> delivered == old(delivered) + (if old(running) then [Disconnect] else [])
      ensures data != [] ==> running == old(running)
      ensures data != [] ==> frames == old(frames) + Frames(old(buffer) + data)
      ensures data != [] ==> buffer == Remainder(old(buffer) + data)
      ensures data != [] ==> delivered == old(delivered) + Decoded(decode, Frames(old(buffer) + data))
      ensures data != [] ==> Join(frames[|old(frames)|..]) + buffer == old(buffer) + data
    {
      if data == [] {
        var _ := Stop();
        return;
      }
      buffer := buffer + data;
      ghost var f0 := frames;
      SplitMessages();
      FramesRoundTrip(old(buffer) + data);
      assert frames[|f0|..] == Frames(old(buffer) + data);
    }

    /** The inner loop of `_receive_loop`: while the buffer holds a delimiter, cut off and process its first message. */
    method SplitMessages()
      modifies this`buffer, this`delivered, this`frames
      ensures Valid()
      ensures frames == old(frames) + Frames(old(buffer))
      ensures buffer == Remainder(old(buffer))
      ensures delivered == old(delivered) + Decoded(decode, Frames(old(buffer)))
    {
      ghost var cut: seq<seq<byte>> := [];
      while Delimiter in buffer
        invariant Frames(old(buffer)) == cut + Frames(buffer)
        invariant Remainder(old(buffer)) == Remainder(buffer)
        invariant frames == old(frames) + cut
        invariant delivered == old(delivered) + Decoded(decode, cut)
        decreases |buffer|
      {
        var i := FirstDelimiter(buffer).value;
        var message := buffer[..i];
        CutFirst(old(buffer), cut, buffer, i);
        DecodedAppend(decode, cut, [message]);
        buffer := buffer[i + 1..];
        cut := cut + [message];
        frames := frames + [message];
        ProcessMessage(message);
      }
      NoDelimiterNoFrames(buffer);
      assert Frames(old(buffer)) == cut + [] == cut;
    }

    /**
     * `_receive_loop` as a whole, reading `chunks` in turn while running: it
     * ends at the first empty chunk or when no more data comes, and then stops
     * the connection. A running connection therefore hands the server the
     * decoded messages of everything received, in order, and a final DISCONNECT.
     */
    method Serve(chunks: seq<seq<byte>>)
      requires Valid()
      modifies this`buffer, this`delivered, this`running, this`frames
      ensures Valid() && !running
      ensures old(running) ==> buffer == Remainder(old(buffer) + Received(chunks))
      ensures old(running) ==>
        delivered == old(delivered) + Decoded(decode, Frames(old(buffer) + Received(chunks))) + [Disconnect]
      ensures !old(running) ==> buffer == old(buffer) && delivered == old(delivered)
    {
      ghost var whole := buffer + Received(chunks);
      ghost var d0 := delivered;
      ghost var left := Received(chunks);
      var k := 0;
      while running && k < |chunks|
        invariant Valid() && 0 <= k <= |chunks|
        invariant !old(running) ==> !running && buffer == old(buffer) && delivered == d0
        invariant running ==> old(running) && left == Received(chunks[k..])
        invariant running ==> Streamed(decode, whole, d0, delivered, buffer + left)
        invariant old(running) && !running ==>
          delivered == d0 + Decoded(decode, Frames(whole)) + [Disconnect] && buffer == Remainder(whole)
      {
        var data := chunks[k];
        ghost var b0, dl0 := buffer, delivered;
        assert chunks[k..][0] == data && chunks[k..][1..] == chunks[k + 1..];
        if data == [] {
          NoDelimiterNoFrames(buffer);
          assert buffer + left == buffer;
        } else {
          left := Received(chunks[k + 1..]);
          assert b0 + Received(chunks[k..]) == (b0 + data) + left;
          StreamStep(decode, whole, d0, dl0, b0 + data, left);
        }
        ReceiveChunk(data);
        k := k + 1;
      }
      if running {
        assert left == [] && buffer + [] == buffer;
        NoDelimiterNoFrames(buffer);
      }
      var _ := Stop();
    }
  }

  /** The bytes `recv` returned before the first empty chunk. */
  function Received(chunks: seq<seq<byte>>): seq<byte>
  {
    if chunks == [] || chunks[0] == [] then [] else chunks[0] + Received(chunks[1..])
  }

  /** Cutting the first message off the buffer moves it to the end of the messages cut so far. */
  lemma CutFirst(start: seq<byte>, cut: seq<seq<byte>>, buffer: seq<byte>, i: nat)
    requires Frames(start) == cut + Frames(buffer) && Remainder(start) == Remainder(buffer)
    requires FirstDelimiter(buffer) == Some(i)
    ensures Frames(start) == (cut + [buffer[..i]]) + Frames(buffer[i + 1..])
    ensures Remainder(start) == Remainder(buffer[i + 1..])
  {
    FramesStep(buffer, i);
    assert cut + ([buffer[..i]] + Frames(buffer[i + 1..])) == (cut + [buffer[..i]]) + Frames(buffer[i + 1..]);
  }

  /**
   * Of the whole stream `whole`, the messages before `delivered` was reached
   * (`d0`) and those still to come from `pending` are all of its messages, and
   * `pending` leaves the same remainder.
   */
  ghost predicate Streamed(decode: Decoder, whole: seq<byte>, d0: seq<Request>, delivered: seq<Request>, pending: seq<byte>)
  {
    d0 + Decoded(decode, Frames(whole)) == delivered + Decoded(decode, Frames(pending))
    && Remainder(whole) == Remainder(pending)
  }

  /** Cutting the messages of a chunk moves them from still to come to delivered. */
  lemma StreamStep(decode: Decoder, whole: seq<byte>, d0: seq<Request>, delivered: seq<Request>, a: seq<byte>, rest: seq<byte>)
    requires Streamed(decode, whole, d0, delivered, a + rest)
    ensures Streamed(decode, whole, d0, delivered + Decoded(decode, Frames(a)), Remainder(a) + rest)
  {
    FramesAppend(a, rest);
    DecodedAppend(decode, Frames(a), Frames(Remainder(a) + rest));
  }
}
