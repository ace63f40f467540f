/** The war wire protocol: single unsigned bytes, fixed-size frames, and the
    server's `readexactly`, which accumulates what a peer's socket delivers. */
module Wire {

  type byte = b: int | 0 <= b < 256

  /** The first byte of every message. */
  datatype Command = WantGame | GameStart | PlayCard | PlayResult {
    function Value(): byte {
      match this
      case WantGame => 0
      case GameStart => 1
      case PlayCard => 2
      case PlayResult => 3
    }
  }

  /** The payload byte of a PLAYRESULT message. */
  datatype Result = Win | Draw | Lose {
    function Value(): byte {
      match this
      case Win => 0
      case Draw => 1
      case Lose => 2
    }

    /** The result the opponent gets in the same round. */
    function Opposite(): Result {
      match this
      case Win => Lose
      case Draw => Draw
      case Lose => Win
    }
  }

  /** One message as the server reads it: a command byte and a payload byte. */
  datatype Msg = Msg(cmd: byte, payload: byte)

  /** The successive 2-byte messages of what a peer sent; a trailing odd byte
      is never a whole message. */
  function Messages(bytes: seq<byte>): (msgs: seq<Msg>)
    ensures |msgs| == |bytes| / 2
    ensures forall k :: 0 <= k < |msgs| ==> msgs[k] == Msg(bytes[2 * k], bytes[2 * k + 1])
    decreases |bytes|
  {
    if |bytes| < 2 then [] else [Msg(bytes[0], bytes[1])] + Messages(bytes[2..])
  }

  type Frame = seq<byte>

  /** GAMESTART: command byte 1 followed by the receiver's hand. */
  function GameStartFrame(hand: seq<byte>): Frame {
    [GameStart.Value()] + hand
  }

  /** PLAYRESULT: command byte 3 followed by the receiver's result. */
  function PlayResultFrame(result: Result): Frame {
    [PlayResult.Value(), result.Value()]
  }

  /** The bytes `sendall` puts on the wire for a sequence of frames. */
  function Flatten(frames: seq<Frame>): seq<byte> {
    if frames == [] then [] else frames[0] + Flatten(frames[1..])
  }

  /** A sequence of frames of `size` bytes each puts `size` bytes per frame on the wire. */
  lemma {:induction false} FlattenLength(frames: seq<Frame>, size: nat)
    requires forall k :: 0 <= k < |frames| ==> |frames[k]| == size
    ensures |Flatten(frames)| == size * |frames|
  {
    if frames != [] {
      FlattenLength(frames[1..], size);
    }
  }

  /** What one `recv` call can return: the bytes that arrived together. */
  type Chunk = seq<byte>

  /** The bytes a peer's socket delivers before the peer closes it. A peer's
      input is a sequence of chunks; an empty chunk, or the end of the
      sequence, is the peer closing its end. */
  function Received(stream: seq<Chunk>): seq<byte> {
    if stream == [] || stream[0] == [] then [] else stream[0] + Received(stream[1..])
  }

  /** `sock.recv(bufsize)`: at most `bufsize` bytes of the chunk at the head
      of the stream, the rest of which stays for the next call; the empty
      string once the peer has closed. */
  function Recv(stream: seq<Chunk>, bufsize: nat): (r: (Chunk, seq<Chunk>))
    requires bufsize > 0
    ensures |r.0| <= bufsize
    ensures r.0 == [] <==> Received(stream) == []
    ensures r.0 + Received(r.1) == Received(stream)
  {
    if stream == [] || stream[0] == [] then ([], stream)
    else if |stream[0]| <= bufsize then (stream[0], stream[1..])
    else
      var rest := [stream[0][bufsize..]] + stream[1..];
      assert rest[1..] == stream[1..];
      assert stream[0] == stream[0][..bufsize] + stream[0][bufsize..];
      (stream[0][..bufsize], rest)
  }

  /** What `readexactly` returns, or the EOFError it raises. */
  datatype ReadOutcome = Bytes(data: seq<byte>) | EndOfStream

  /** `readexactly(sock, numbytes)`: the first `numbytes` bytes the peer
      delivers, with the stream left just after them, or EndOfStream when
      the peer closes before that many have arrived. */
  method ReadExactly(stream: seq<Chunk>, numbytes: nat) returns (r: ReadOutcome, rest: seq<Chunk>)
    ensures |Received(stream)| >= numbytes ==>
      r == Bytes(Received(stream)[..numbytes]) && Received(rest) == Received(stream)[numbytes..]
    ensures |Received(stream)| < numbytes ==> r == EndOfStream
  {
    var data: seq<byte> := [];
    rest := stream;
    while |data| < numbytes
      invariant |data| <= numbytes
      invariant data + Received(rest) == Received(stream)
      decreases numbytes - |data|
    {
      var got := Recv(rest, numbytes - |data|);
      var chunk := got.0;
      rest := got.1;
      if chunk == [] {
        assert Received(stream) == data;
        return EndOfStream, rest;
      }
      assert (data + chunk) + Received(rest) == data + (chunk + Received(rest));
      data := data + chunk;
    }
    assert Received(stream)[..numbytes] == data && Received(stream)[numbytes..] == Received(rest);
    r := Bytes(data);
  }
}
