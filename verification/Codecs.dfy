/**
 * The encodings a message passes through. The serialisation, the compression and the choice to
 * compress are parameters; what is needed of them is that the first two can be undone.
 */
module Codecs {
  import opened Packet
  import opened Fragments
  import Peers

  type ApplicationId = string
  type ConnectionId = x: int | 0 <= x < 0x1_0000_0000

  datatype Message =
    | RequestPeerSuggestion
    | PeerSuggestion(peers: set<Peers.Peer>)
    | RequestConnection(application: ApplicationId)
    | ConnectionAccepted(application: ApplicationId, connectionId: ConnectionId)
    | ConnectionDenied(application: ApplicationId)
    | ConnectionHeartbeat(connectionId: ConnectionId)
    | ConnectionClose(connectionId: ConnectionId)
    | ConnectionData(connectionId: ConnectionId, data: seq<byte>)

  datatype Codec = Codec(
    encode: Message -> seq<byte>,
    decode: seq<byte> -> Option<Message>,
    compress: seq<byte> -> seq<byte>,
    decompress: seq<byte> -> Option<seq<byte>>,
    worthCompressing: seq<byte> -> bool)

  ghost predicate Lossless(c: Codec) {
    && (forall m: Message :: |c.encode(m)| > 0 && c.decode(c.encode(m)) == Some(m))
    && (forall bytes: seq<byte> :: |c.compress(bytes)| > 0 && c.decompress(c.compress(bytes)) == Some(bytes))
  }

  /** The bytes that a message is sent as. */
  function Encode(c: Codec, message: Message): Encoded {
    var bytes := c.encode(message);
    if c.worthCompressing(bytes) then Encoded(c.compress(bytes), true) else Encoded(bytes, false)
  }

  /** Undoing the compression of a reassembled buffer. */
  function Inflate(c: Codec, bodies: seq<byte>, compression: bool): Option<seq<byte>> {
    if compression then c.decompress(bodies) else Some(bodies)
  }

  /** A message is sent compressed exactly when that is worth it, and as nothing but its serialisation then. */
  lemma EncodedAsChosen(c: Codec, message: Message)
    ensures var m := Encode(c, message);
            var bytes := c.encode(message);
            && (m.compression <==> c.worthCompressing(bytes))
            && (m.compression ==> m.payload == c.compress(bytes))
            && (!m.compression ==> m.payload == bytes)
  {
  }

  lemma EncodeThenInflate(c: Codec, message: Message)
    requires Lossless(c)
    ensures var m := Encode(c, message);
            && |m.payload| > 0
            && Inflate(c, m.payload, m.compression) == Some(c.encode(message))
            && c.decode(c.encode(message)) == Some(message)
  {
  }
}
