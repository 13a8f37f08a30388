/** The 20-byte big-endian video packet header (shared/src/core/packet.rs). */
module Packet {
  import opened Wrappers
  import opened Bytes
  import opened Sequence

  /** Header length: sequence (4) + timestamp (8) + frame id (4) + chunk index (2) + chunks total (2). */
  const VIDEO_PACKET_HEADER_LENGTH: nat := 4 + 8 + 4 + 2 + 2

  datatype VideoPacketHeader = VideoPacketHeader(
    sequenceNumber: SequenceNumber,
    timestampNanos: u64,
    frameIdentifier: u32,
    chunkIndex: u16,
    chunksTotal: u16)

  datatype VideoPacket = VideoPacket(header: VideoPacketHeader, payload: seq<u8>)

  datatype PacketDecodeError = BufferTooSmall

  /** The wire image of a header: each field big-endian, in declaration order. */
  function HeaderBytes(h: VideoPacketHeader): (s: seq<u8>)
    ensures |s| == VIDEO_PACKET_HEADER_LENGTH
  {
    BeU32(h.sequenceNumber.Value()) + BeU64(h.timestampNanos) + BeU32(h.frameIdentifier)
      + BeU16(h.chunkIndex) + BeU16(h.chunksTotal)
  }

  /** Where each field sits in the wire image. */
  lemma HeaderLayout(h: VideoPacketHeader)
    ensures VIDEO_PACKET_HEADER_LENGTH == 20
    ensures HeaderBytes(h)[0..4] == BeU32(h.sequenceNumber.Value())
    ensures HeaderBytes(h)[4..12] == BeU64(h.timestampNanos)
    ensures HeaderBytes(h)[12..16] == BeU32(h.frameIdentifier)
    ensures HeaderBytes(h)[16..18] == BeU16(h.chunkIndex)
    ensures HeaderBytes(h)[18..20] == BeU16(h.chunksTotal)
  {
  }

  /**
    Writes the header into the first 20 bytes of a caller's buffer; a buffer
    shorter than that is refused and left untouched.
   */
  method Encode(h: VideoPacketHeader, buffer: array<u8>) returns (r: Result<(), PacketDecodeError>)
    modifies buffer
    ensures buffer.Length < VIDEO_PACKET_HEADER_LENGTH ==>
      r == Err(BufferTooSmall) && buffer[..] == old(buffer[..])
    ensures buffer.Length >= VIDEO_PACKET_HEADER_LENGTH ==>
      r == Ok(()) && buffer[..] == HeaderBytes(h) + old(buffer[VIDEO_PACKET_HEADER_LENGTH..])
  {
    if buffer.Length < VIDEO_PACKET_HEADER_LENGTH {
      return Err(BufferTooSmall);
    }
    ghost var rest := buffer[VIDEO_PACKET_HEADER_LENGTH..];
    CopyFromSlice(buffer, 0, BeU32(h.sequenceNumber.Value()));
    assert buffer[..4] == BeU32(h.sequenceNumber.Value()) && buffer[VIDEO_PACKET_HEADER_LENGTH..] == rest;
    CopyFromSlice(buffer, 4, BeU64(h.timestampNanos));
    assert buffer[..12] == HeaderBytes(h)[..12] && buffer[VIDEO_PACKET_HEADER_LENGTH..] == rest;
    CopyFromSlice(buffer, 12, BeU32(h.frameIdentifier));
    assert buffer[..16] == HeaderBytes(h)[..16] && buffer[VIDEO_PACKET_HEADER_LENGTH..] == rest;
    CopyFromSlice(buffer, 16, BeU16(h.chunkIndex));
    assert buffer[..18] == HeaderBytes(h)[..18] && buffer[VIDEO_PACKET_HEADER_LENGTH..] == rest;
    CopyFromSlice(buffer, 18, BeU16(h.chunksTotal));
    assert buffer[..VIDEO_PACKET_HEADER_LENGTH] == HeaderBytes(h);
    assert buffer[VIDEO_PACKET_HEADER_LENGTH..] == rest;
    assert buffer[..] == buffer[..VIDEO_PACKET_HEADER_LENGTH] + buffer[VIDEO_PACKET_HEADER_LENGTH..];
    return Ok(());
  }

  /**
    Reads a header from the first 20 bytes of a buffer: it fails exactly on
    buffers shorter than a header, and otherwise gives the header those 20
    bytes are the image of.
   */
  function Decode(buffer: seq<u8>): (r: Result<VideoPacketHeader, PacketDecodeError>)
    ensures r == Err(BufferTooSmall) <==> |buffer| < VIDEO_PACKET_HEADER_LENGTH
    ensures r.Ok? ==> HeaderBytes(r.value) == buffer[..VIDEO_PACKET_HEADER_LENGTH]
  {
    if |buffer| < VIDEO_PACKET_HEADER_LENGTH then Err(BufferTooSmall)
    else
      assert buffer[..VIDEO_PACKET_HEADER_LENGTH]
        == buffer[0..4] + buffer[4..12] + buffer[12..16] + buffer[16..18] + buffer[18..20];
      Ok(VideoPacketHeader(
        New(ReadU32(buffer[0..4])),
        ReadU64(buffer[4..12]),
        ReadU32(buffer[12..16]),
        ReadU16(buffer[16..18]),
        ReadU16(buffer[18..20])))
  }

  /** Decoding what Encode writes gives back the header, whatever follows it in the buffer. */
  lemma {:induction false} DecodeEncode(h: VideoPacketHeader, rest: seq<u8>)
    ensures Decode(HeaderBytes(h) + rest) == Ok(h)
  {
    var b := HeaderBytes(h) + rest;
    HeaderLayout(h);
    assert b[0..4] == BeU32(h.sequenceNumber.Value());
    assert b[4..12] == BeU64(h.timestampNanos);
    assert b[12..16] == BeU32(h.frameIdentifier);
    assert b[16..18] == BeU16(h.chunkIndex);
    assert b[18..20] == BeU16(h.chunksTotal);
    ReadBeRoundTrip(h.chunkIndex, h.sequenceNumber.Value(), h.timestampNanos);
    ReadBeRoundTrip(h.chunksTotal, h.frameIdentifier, h.timestampNanos);
  }

  /** Decoding reads only the first 20 bytes. */
  lemma IgnoresTrailingBytes(buffer: seq<u8>, extra: seq<u8>)
    requires |buffer| >= VIDEO_PACKET_HEADER_LENGTH
    ensures Decode(buffer + extra) == Decode(buffer)
    ensures Decode(buffer) == Decode(buffer[..VIDEO_PACKET_HEADER_LENGTH])
  {
    var b := buffer + extra;
    assert b[0..4] == buffer[0..4] && b[4..12] == buffer[4..12] && b[12..16] == buffer[12..16];
    assert b[16..18] == buffer[16..18] && b[18..20] == buffer[18..20];
    var c := buffer[..VIDEO_PACKET_HEADER_LENGTH];
    assert c[0..4] == buffer[0..4] && c[4..12] == buffer[4..12] && c[12..16] == buffer[12..16];
    assert c[16..18] == buffer[16..18] && c[18..20] == buffer[18..20];
  }
}
