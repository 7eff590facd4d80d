/**
 * The wire protocol (tictactoe_online/common/protocol.py): message types, the
 * requests a decoded client message carries, and the newline framing of the
 * byte stream. JSON encoding and decoding are not modelled; a decoder is a
 * function value handed to each connection.
 */
module Protocol {
  import opened Wrappers

  newtype byte = x: int | 0 <= x < 256

  /** `Protocol.DELIMITER`: the newline byte that ends every message. */
  const Delimiter: byte := 10

  /** `MessageType`: the value of a message's `type` field. */
  datatype MessageType =
    | CREATE_GAME | JOIN_GAME | LIST_GAMES | MAKE_MOVE | QUIT_GAME | DISCONNECT
    | GAME_CREATED | GAME_JOINED | GAME_LIST | GAME_STATE | MOVE_RESULT | GAME_OVER
    | ERROR | PLAYER_JOINED | PLAYER_LEFT

  /**
   * A decoded client message: its type with the `data` fields the server reads,
   * each absent (`None`) when the key is missing. `Unhandled` is any other type,
   * which the server ignores.
   */
  datatype Request =
    | CreateGame(numPlayers: Option<int>)
    | JoinGame(gameId: Option<string>, playerName: Option<string>)
    | ListGames
    | MakeMove(row: Option<int>, col: Option<int>)
    | QuitGame
    | Disconnect
    | Unhandled

  /** The message type a request was sent as. */
  function RequestType(r: Request): Option<MessageType>
  {
    match r
    case CreateGame(_) => Some(CREATE_GAME)
    case JoinGame(_, _) => Some(JOIN_GAME)
    case ListGames => Some(LIST_GAMES)
    case MakeMove(_, _) => Some(MAKE_MOVE)
    case QuitGame => Some(QUIT_GAME)
    case Disconnect => Some(DISCONNECT)
    case Unhandled => None
  }

  /** A decoder: `Protocol.decode_message` followed by the server's reading of the fields. */
  type Decoder = seq<byte> -> Option<Request>

  /** The position of the first delimiter of `s`, if any. */
  function FirstDelimiter(s: seq<byte>): (r: Option<nat>)
    ensures r.None? <==> Delimiter !in s
    ensures r.Some? ==> r.value < |s| && s[r.value] == Delimiter && Delimiter !in s[..r.value]
  {
    if |s| == 0 then None
    else if s[0] == Delimiter then Some(0)
    else match FirstDelimiter(s[1..])
      case None => None
      case Some(i) =>
        assert s[1..][..i] == s[1..i + 1];
        Some(i + 1)
  }

  /** The complete messages of a buffer, each cut at the first delimiter left, in order. */
  function Frames(s: seq<byte>): seq<seq<byte>>
    decreases |s|
  {
    match FirstDelimiter(s)
    case None => []
    case Some(i) => [s[..i]] + Frames(s[i + 1..])
  }

  /** What is left of a buffer once its complete messages are cut off. */
  function Remainder(s: seq<byte>): seq<byte>
    decreases |s|
  {
    match FirstDelimiter(s)
    case None => s
    case Some(i) => Remainder(s[i + 1..])
  }

  /** The bytes of a run of frames, each followed by the delimiter. */
  function Join(frames: seq<seq<byte>>): seq<byte>
  {
    if frames == [] then [] else frames[0] + [Delimiter] + Join(frames[1..])
  }

  /** Re-joining the frames and appending the remainder gives back the buffer. */
  lemma {:induction false} FramesRoundTrip(s: seq<byte>)
    ensures Join(Frames(s)) + Remainder(s) == s
    decreases |s|
  {
    var first := FirstDelimiter(s);
    if first.None? {
      NoDelimiterNoFrames(s);
    } else {
      var i := first.value;
      var rest := s[i + 1..];
      FramesRoundTrip(rest);
      FramesStep(s, i);
      SplitAround(s, i);
      JoinCons(s[..i], Frames(rest), Remainder(rest), rest, s);
    }
  }

  /** Concatenation is associative. */
  lemma ConcatAssoc<T>(p: seq<T>, q: seq<T>, r: seq<T>)
    ensures p + (q + r) == (p + q) + r
  {
  }

  /** A buffer is what lies before a position, the byte there, and what follows. */
  lemma SplitAround(s: seq<byte>, i: nat)
    requires i < |s|
    ensures s == s[..i] + [s[i]] + s[i + 1..]
  {
  }

  /** A frame, the delimiter and a reassembled rest make the whole buffer again. */
  lemma JoinCons(f: seq<byte>, fs: seq<seq<byte>>, r: seq<byte>, rest: seq<byte>, s: seq<byte>)
    requires Join(fs) + r == rest && s == f + [Delimiter] + rest
    ensures Join([f] + fs) + r == s
  {
    assert ([f] + fs)[0] == f && ([f] + fs)[1..] == fs;
  }

  /** No frame contains the delimiter, and neither does the remainder. */
  lemma {:induction false} FramesAreDelimiterFree(s: seq<byte>)
    ensures Delimiter !in Remainder(s)
    ensures forall k | 0 <= k < |Frames(s)| :: Delimiter !in Frames(s)[k]
    decreases |s|
  {
    match FirstDelimiter(s)
    case None =>
    case Some(i) =>
      FramesAreDelimiterFree(s[i + 1..]);
      var fs := Frames(s);
      forall k | 0 <= k < |fs| ensures Delimiter !in fs[k] {
        if k > 0 {
          assert fs[k] == Frames(s[i + 1..])[k - 1];
        }
      }
  }

  /** The first delimiter is the one with no delimiter before it. */
  lemma FirstDelimiterAt(s: seq<byte>, i: nat)
    requires i < |s| && s[i] == Delimiter && Delimiter !in s[..i]
    ensures FirstDelimiter(s) == Some(i)
  {
    assert s[i] in s;
    var j := FirstDelimiter(s).value;
    assert forall k | 0 <= k < i :: s[..i][k] == s[k];
    assert forall k | 0 <= k < j :: s[..j][k] == s[k];
  }

  /**
   * Cutting frames as bytes arrive is cutting them from the whole stream: the
   * frames of `a + x` are those of `a` followed by those of what `a` leaves
   * with `x` appended, and both leave the same remainder.
   */
  lemma {:induction false} FramesAppend(a: seq<byte>, x: seq<byte>)
    ensures Frames(a + x) == Frames(a) + Frames(Remainder(a) + x)
    ensures Remainder(a + x) == Remainder(Remainder(a) + x)
    decreases |a|
  {
    var first := FirstDelimiter(a);
    if first.None? {
      NoDelimiterNoFrames(a);
    } else {
      var i := first.value;
      var tail := a[i + 1..];
      assert (a + x)[..i] == a[..i];
      FirstDelimiterAt(a + x, i);
      assert (a + x)[i + 1..] == tail + x;
      FramesAppend(tail, x);
      FramesStep(a + x, i);
      FramesStep(a, i);
      ConcatAssoc([a[..i]], Frames(tail), Frames(Remainder(tail) + x));
    }
  }

  /** Bytes that hold no delimiter are kept whole as the remainder and yield no frame. */
  lemma NoDelimiterNoFrames(s: seq<byte>)
    requires Delimiter !in s
    ensures Frames(s) == [] && Remainder(s) == s
  {
  }

  /** Frames are split off the front: the first frame and the rest of the buffer's frames. */
  lemma FramesStep(s: seq<byte>, i: nat)
    requires FirstDelimiter(s) == Some(i)
    ensures Frames(s) == [s[..i]] + Frames(s[i + 1..])
    ensures Remainder(s) == Remainder(s[i + 1..])
  {
  }

  /** The requests a decoder makes of a run of frames, dropping those it rejects, in order. */
  function Decoded(decode: Decoder, frames: seq<seq<byte>>): seq<Request>
  {
    if frames == [] then [] else Accepted(decode, frames[0]) + Decoded(decode, frames[1..])
  }

  /** The request a frame carries, or nothing when the decoder rejects it. */
  function Accepted(decode: Decoder, frame: seq<byte>): seq<Request>
  {
    match decode(frame)
    case Some(m) => [m]
    case None => []
  }

  /** Decoding frames one after another is decoding them all. */
  lemma {:induction false} DecodedAppend(decode: Decoder, a: seq<seq<byte>>, b: seq<seq<byte>>)
    ensures Decoded(decode, a + b) == Decoded(decode, a) + Decoded(decode, b)
    decreases |a|
  {
    if a != [] {
      assert (a + b)[0] == a[0] && (a + b)[1..] == a[1..] + b;
      DecodedAppend(decode, a[1..], b);
      assert Decoded(decode, a + b) == Accepted(decode, a[0]) + (Decoded(decode, a[1..]) + Decoded(decode, b));
    } else {
      assert a + b == b;
    }
  }
}
