/** The 16-byte healthcheck ping/pong datagram (shared/src/core/healthcheck.rs). */
module Healthcheck {
  import opened Wrappers
  import opened Bytes

  datatype HealthcheckKind = Ping | Pong

  datatype HealthcheckPacket = HealthcheckPacket(kind: HealthcheckKind, timestampNanos: u64)

  datatype HealthcheckError = BufferTooSmall | InvalidMagic | InvalidKind

  /** The ASCII bytes of "TBDH". */
  const HEALTHCHECK_MAGIC: seq<u8> := ['T' as u8, 'B' as u8, 'D' as u8, 'H' as u8]

  const HEALTHCHECK_LENGTH: nat := 16

  /** The kind byte: 1 for a ping, 2 for a pong. */
  function KindByte(kind: HealthcheckKind): (b: u8)
    ensures b == 1 || b == 2
  {
    match kind
    case Ping => 1
    case Pong => 2
  }

  /**
    The wire image: magic, kind byte, three zero bytes, then the timestamp
    big-endian in bytes 8..16.
   */
  function PacketBytes(p: HealthcheckPacket): (s: seq<u8>)
    ensures |s| == HEALTHCHECK_LENGTH
  {
    HEALTHCHECK_MAGIC + [KindByte(p.kind)] + [0, 0, 0] + BeU64(p.timestampNanos)
  }

  /** Fills a zeroed 16-byte buffer with the magic, the kind byte and the timestamp. */
  method Encode(p: HealthcheckPacket) returns (bytes: seq<u8>)
    ensures bytes == PacketBytes(p)
  {
    var buffer := new u8[HEALTHCHECK_LENGTH](_ => 0);
    CopyFromSlice(buffer, 0, HEALTHCHECK_MAGIC);
    buffer[4] := KindByte(p.kind);
    CopyFromSlice(buffer, 8, BeU64(p.timestampNanos));
    assert buffer[..8] == PacketBytes(p)[..8];
    assert buffer[8..] == PacketBytes(p)[8..];
    assert buffer[..] == buffer[..8] + buffer[8..];
    bytes := buffer[..];
  }

  /** Checks length, then magic, then the kind byte, in that order; bytes 5..8 and past 16 are not read. */
  function Decode(buffer: seq<u8>): (r: Result<HealthcheckPacket, HealthcheckError>)
    ensures r == Err(BufferTooSmall) <==> |buffer| < HEALTHCHECK_LENGTH
    ensures r == Err(InvalidMagic) <==> |buffer| >= HEALTHCHECK_LENGTH && buffer[0..4] != HEALTHCHECK_MAGIC
    ensures r == Err(InvalidKind)
      <==> |buffer| >= HEALTHCHECK_LENGTH && buffer[0..4] == HEALTHCHECK_MAGIC && buffer[4] != 1 && buffer[4] != 2
    ensures r.Ok? <==> |buffer| >= HEALTHCHECK_LENGTH && buffer[0..4] == HEALTHCHECK_MAGIC && (buffer[4] == 1 || buffer[4] == 2)
    ensures r.Ok? ==> KindByte(r.value.kind) == buffer[4] && BeU64(r.value.timestampNanos) == buffer[8..16]
  {
    if |buffer| < HEALTHCHECK_LENGTH then Err(BufferTooSmall)
    else if buffer[0..4] != HEALTHCHECK_MAGIC then Err(InvalidMagic)
    else if buffer[4] == 1 then Ok(HealthcheckPacket(Ping, ReadU64(buffer[8..16])))
    else if buffer[4] == 2 then Ok(HealthcheckPacket(Pong, ReadU64(buffer[8..16])))
    else Err(InvalidKind)
  }

  /** The cheap test that tells healthcheck datagrams from video packets on a shared socket. */
  predicate IsHealthcheckPacket(buffer: seq<u8>)
    ensures IsHealthcheckPacket(buffer) <==> Decode(buffer) != Err(BufferTooSmall) && Decode(buffer) != Err(InvalidMagic)
    ensures Decode(buffer).Ok? ==> IsHealthcheckPacket(buffer)
  {
    |buffer| >= HEALTHCHECK_LENGTH && buffer[0..4] == HEALTHCHECK_MAGIC
  }

  // ---------------------------------------------------------------- lemmas

  /** Decoding an encoded packet gives it back, whatever follows the 16 bytes. */
  lemma {:induction false} DecodeEncode(p: HealthcheckPacket, rest: seq<u8>)
    ensures Decode(PacketBytes(p) + rest) == Ok(p)
  {
    var b := PacketBytes(p) + rest;
    assert b[0..4] == HEALTHCHECK_MAGIC;
    assert b[4] == KindByte(p.kind);
    assert b[8..16] == BeU64(p.timestampNanos);
    ReadBeRoundTrip(0, 0, p.timestampNanos);
  }

  /**
    Decoding then encoding gives the first 16 bytes back, except that the three
    reserved bytes come back zero.
   */
  lemma {:induction false} EncodeDecode(buffer: seq<u8>)
    requires Decode(buffer).Ok?
    ensures PacketBytes(Decode(buffer).value)
      == buffer[0..4] + [buffer[4]] + [0, 0, 0] + buffer[8..HEALTHCHECK_LENGTH]
  {
    var p := Decode(buffer).value;
    assert KindByte(p.kind) == buffer[4];
    assert BeU64(p.timestampNanos) == buffer[8..16];
  }

  /** The reserved bytes 5..8 and anything past byte 16 never change the decoded packet. */
  lemma {:induction false} DecodeIgnoresReserved(buffer: seq<u8>, reserved: seq<u8>, extra: seq<u8>)
    requires |buffer| >= HEALTHCHECK_LENGTH && |reserved| == 3
    ensures Decode(buffer[..5] + reserved + buffer[8..HEALTHCHECK_LENGTH] + extra) == Decode(buffer)
  {
    var b := buffer[..5] + reserved + buffer[8..HEALTHCHECK_LENGTH] + extra;
    assert b[0..4] == buffer[0..4];
    assert b[4] == buffer[4];
    assert b[8..16] == buffer[8..16];
  }
}
