/**
 * The request mcstatusc.c sends (line 49): a Handshake packet and a Status
 * Request packet of the Server List Ping, written out as nine constant bytes.
 */
module Request {
  import opened Wrappers
  import opened VarInt

  /** The nine bytes handed to `send`. */
  const RequestBytes: seq<Byte> := [0x06, 0x00, 0x00, 0x00, 0x00, 0x00, 0x01, 0x01, 0x00]

  /** One packet on the wire: its length as a VarInt, then exactly that many bytes. */
  function Frame(payload: seq<Byte>): (r: seq<Byte>)
    ensures |r| > |payload|
  {
    Encode(|payload|) + payload
  }

  /** Packets sent back to back. */
  function Frames(payloads: seq<seq<Byte>>): seq<Byte> {
    if payloads == [] then [] else Frame(payloads[0]) + Frames(payloads[1..])
  }

  /**
   * Cuts a byte stream into packet payloads: reads a length VarInt, takes that
   * many bytes, repeats. None when a length prefix is unterminated or a packet
   * runs past the end.
   */
  function SplitFrames(s: seq<Byte>): Option<seq<seq<Byte>>>
    decreases |s|
  {
    if s == [] then Some([])
    else match Size(s)
      case None => None
      case Some(n) =>
        var len := Value(s[..n]);
        if n + len > |s| then None
        else match SplitFrames(s[n + len..])
          case None => None
          case Some(rest) => Some([s[n..n + len]] + rest)
  }

  /** Splitting packets that were framed gives back their payloads. */
  lemma {:induction false} SplitFrames_Frames(payloads: seq<seq<Byte>>)
    ensures SplitFrames(Frames(payloads)) == Some(payloads)
  {
    if payloads != [] {
      var p, rest := payloads[0], Frames(payloads[1..]);
      var e := Encode(|p|);
      var s := Frames(payloads);
      assert s == e + (p + rest);
      DecodeEncode(|p|, p + rest);
      assert s[..|e|] == e;
      assert s[|e|..|e| + |p|] == p;
      assert s[|e| + |p|..] == rest;
      SplitFrames_Frames(payloads[1..]);
      assert payloads == [p] + payloads[1..];
    }
  }

  /** Packet ID 0x00 shared by the Handshake and the Status Request. */
  const PacketId: Byte := 0x00

  /** Next-state value 1: the client asks for the status. */
  const StatusState: Byte := 0x01

  /**
   * The Handshake payload: packet ID, protocol version as a VarInt, the server
   * address as a VarInt-length-prefixed byte string, the port as two bytes
   * big-endian, and the next state.
   */
  function HandshakePayload(protocol: nat, address: seq<Byte>, port: nat): seq<Byte>
    requires port < 0x1_0000
  {
    [PacketId] + Encode(protocol) + Encode(|address|) + address
      + [port / 256, port % 256] + [StatusState]
  }

  /** The Status Request payload: the packet ID alone. */
  const StatusRequestPayload: seq<Byte> := [PacketId]

  /**
   * Line 49: the nine bytes are a Handshake for protocol 0, an empty address
   * and port 0, followed by a Status Request; read back as packets, each
   * declared length (6 and 1) is the length of its payload.
   */
  lemma RequestIsHandshakeThenStatusRequest()
    ensures RequestBytes == Frames([HandshakePayload(0, [], 0), StatusRequestPayload])
    ensures SplitFrames(RequestBytes) == Some([HandshakePayload(0, [], 0), StatusRequestPayload])
    ensures HandshakePayload(0, [], 0) == [0x00, 0x00, 0x00, 0x00, 0x00, 0x01]
  {
    var hs := HandshakePayload(0, [], 0);
    assert Encode(0) == [0x00];
    assert Encode(6) == [0x06];
    assert Encode(1) == [0x01];
    assert hs == [0x00, 0x00, 0x00, 0x00, 0x00, 0x01];
    var ps: seq<seq<Byte>> := [hs, StatusRequestPayload];
    var none: seq<seq<Byte>> := [];
    assert ps[1..] == [StatusRequestPayload] && ps[1..][1..] == none;
    assert Frames([StatusRequestPayload]) == Frame(StatusRequestPayload) + Frames(none);
    assert Frames(ps) == Frame(hs) + Frames([StatusRequestPayload]);
    SplitFrames_Frames(ps);
  }
}
