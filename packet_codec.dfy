/** A whole video packet on the wire: the header image followed by the raw payload (shared/src/core/packet_codec.rs). */
module PacketCodec {
  import opened Wrappers
  import opened Bytes
  import opened Packet

  datatype PacketCodecError = BufferTooSmall

  /**
    The wire image of a packet: the header image followed by the payload, so
    20 bytes longer than the payload.
   */
  function PacketBytes(p: VideoPacket): (s: seq<u8>)
    ensures |s| == VIDEO_PACKET_HEADER_LENGTH + |p.payload|
    ensures s[..VIDEO_PACKET_HEADER_LENGTH] == HeaderBytes(p.header)
    ensures s[VIDEO_PACKET_HEADER_LENGTH..] == p.payload
  {
    HeaderBytes(p.header) + p.payload
  }

  /**
    Allocates a zeroed buffer of header plus payload length, encodes the header
    into its first 20 bytes and copies the payload after it.
   */
  method EncodePacket(p: VideoPacket) returns (bytes: seq<u8>)
    ensures bytes == PacketBytes(p)
  {
    var buffer := new u8[VIDEO_PACKET_HEADER_LENGTH + |p.payload|](_ => 0);
    var written := Packet.Encode(p.header, buffer);
    assert written.Ok?;
    CopyFromSlice(buffer, VIDEO_PACKET_HEADER_LENGTH, p.payload);
    bytes := buffer[..];
  }

  /**
    Splits a received datagram into header and payload: it fails exactly on
    datagrams shorter than a header; otherwise the header is the one the first
    20 bytes are the image of and the payload is everything after them.
   */
  function DecodePacket(buffer: seq<u8>): (r: Result<VideoPacket, PacketCodecError>)
    ensures r.Err? <==> |buffer| < VIDEO_PACKET_HEADER_LENGTH
    ensures r.Ok? ==>
      && r.value.payload == buffer[VIDEO_PACKET_HEADER_LENGTH..]
      && HeaderBytes(r.value.header) == buffer[..VIDEO_PACKET_HEADER_LENGTH]
      && Ok(r.value.header) == Packet.Decode(buffer)
  {
    if |buffer| < VIDEO_PACKET_HEADER_LENGTH then Err(PacketCodecError.BufferTooSmall)
    else
      IgnoresTrailingBytes(buffer, []);
      assert buffer + [] == buffer;
      match Packet.Decode(buffer[..VIDEO_PACKET_HEADER_LENGTH])
      case Err(_) => Err(PacketCodecError.BufferTooSmall)
      case Ok(header) => Ok(VideoPacket(header, buffer[VIDEO_PACKET_HEADER_LENGTH..]))
  }

  /** A 20-byte datagram decodes to a packet with an empty payload. */
  lemma HeaderOnlyDatagram(buffer: seq<u8>)
    requires |buffer| == VIDEO_PACKET_HEADER_LENGTH
    ensures DecodePacket(buffer).Ok? && DecodePacket(buffer).value.payload == []
  {
  }

  /** Decoding an encoded packet gives the packet back. */
  lemma {:induction false} DecodePacketEncodePacket(p: VideoPacket)
    ensures DecodePacket(PacketBytes(p)) == Ok(p)
  {
    var b := PacketBytes(p);
    DecodeEncode(p.header, []);
    assert HeaderBytes(p.header) + [] == b[..VIDEO_PACKET_HEADER_LENGTH];
  }

  /** Encoding a decoded packet gives the datagram back: no two datagrams decode to the same packet. */
  lemma {:induction false} EncodePacketDecodePacket(buffer: seq<u8>)
    requires DecodePacket(buffer).Ok?
    ensures PacketBytes(DecodePacket(buffer).value) == buffer
  {
    var head := buffer[..VIDEO_PACKET_HEADER_LENGTH];
    assert head[..VIDEO_PACKET_HEADER_LENGTH] == head;
    assert buffer == head + buffer[VIDEO_PACKET_HEADER_LENGTH..];
  }
}
