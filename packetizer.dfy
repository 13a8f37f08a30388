/** Cutting an encoded frame into numbered video packets (shared/src/core/packetizer.rs). */
module Packetizer {
  import opened Wrappers
  import opened Bytes
  import opened Sequence
  import opened Packet

  datatype PacketizerConfig = PacketizerConfig(maxPayloadBytes: nat)

  datatype PacketizerError = EmptyPayload | PayloadTooLarge

  /**
    Rust's `slice::chunks(size)`: consecutive pieces of `size` bytes, the last
    one possibly shorter; no pieces for an empty slice.
   */
  function Chunks(s: seq<u8>, size: nat): (r: seq<seq<u8>>)
    requires size > 0
    ensures Concat(r) == s
    ensures forall k :: 0 <= k < |r| ==> 0 < |r[k]| <= size
    ensures forall k :: 0 <= k < |r| - 1 ==> |r[k]| == size
    decreases |s|
  {
    if |s| == 0 then []
    else if |s| <= size then
      assert Concat([s]) == s + Concat([]);
      [s]
    else
      var rest := Chunks(s[size..], size);
      assert ([s[..size]] + rest)[1..] == rest;
      assert s == s[..size] + s[size..];
      [s[..size]] + rest
  }

  /** Division determines the quotient: q * m + r with 0 <= r < m divides to q. */
  lemma DivUnique(x: int, m: int, q: int, r: int)
    requires m > 0 && 0 <= r < m && x == q * m + r
    ensures x / m == q
  {
    var q0, r0 := x / m, x % m;
    assert x == q0 * m + r0;
    var d := q - q0;
    assert d * m == r0 - r;
    if d >= 1 {
      assert false;
    } else if d <= -1 {
      assert false;
    }
  }

  lemma DivStep(a: nat, m: nat)
    requires m > 0
    ensures (a + m) / m == a / m + 1
  {
    var q, r := a / m, a % m;
    assert a + m == (q + 1) * m + r;
    DivUnique(a + m, m, q + 1, r);
  }

  /** The number of chunks is the length divided by the chunk size, rounded up. */
  lemma {:induction false} ChunkCount(s: seq<u8>, size: nat)
    requires size > 0
    ensures |Chunks(s, size)| == (|s| + size - 1) / size
    decreases |s|
  {
    if |s| == 0 {
      DivUnique(size - 1, size, 0, size - 1);
    } else if |s| <= size {
      DivUnique(|s| - 1, size, 0, |s| - 1);
      DivStep(|s| - 1, size);
    } else {
      var rest := s[size..];
      assert |Chunks(s, size)| == 1 + |Chunks(rest, size)|;
      ChunkCount(rest, size);
      assert |rest| + size - 1 == |s| - 1;
      DivStep(|s| - 1, size);
    }
  }

  /** The packet carrying chunk k: its sequence number is k steps after the first one. */
  function PacketAt(
    first: SequenceNumber, frameIdentifier: u32, timestampNanos: u64,
    chunks: seq<seq<u8>>, chunksTotal: u16, k: nat): VideoPacket
    requires k < |chunks| && k < 0x1_0000
  {
    VideoPacket(
      VideoPacketHeader(Advanced(first, k), timestampNanos, frameIdentifier, k as u16, chunksTotal),
      chunks[k])
  }

  /** The packets for all chunks, in chunk order. */
  function Packets(
    first: SequenceNumber, frameIdentifier: u32, timestampNanos: u64,
    chunks: seq<seq<u8>>, chunksTotal: u16): (ps: seq<VideoPacket>)
    requires |chunks| <= 0x1_0000
    ensures |ps| == |chunks|
  {
    seq(|chunks|, k requires 0 <= k < |chunks| =>
      PacketAt(first, frameIdentifier, timestampNanos, chunks, chunksTotal, k))
  }

  /**
    What one call of `packetize` returns and where it leaves the counter:
    empty payloads and a zero chunk size are refused before anything changes;
    a frame needing more than 65535 chunks is refused after the counter has
    already moved past the 65535 chunks numbered before the refusal.
   */
  function Packetized(
    next: SequenceNumber, maxPayloadBytes: nat,
    frameIdentifier: u32, timestampNanos: u64, payload: seq<u8>)
    : (out: (Result<seq<VideoPacket>, PacketizerError>, SequenceNumber))
    ensures out.0.Ok? ==> |out.0.value| <= U16_MAX as int && out.1 == Advanced(next, |out.0.value|)
    ensures out.0.Err? ==> out.1 == next || (out.1 == Advanced(next, U16_MAX as nat) && out.0 == Err(PayloadTooLarge))
  {
    if |payload| == 0 then (Err(EmptyPayload), next)
    else if maxPayloadBytes == 0 then (Err(PayloadTooLarge), next)
    else
      var chunks := Chunks(payload, maxPayloadBytes);
      if |chunks| <= U16_MAX as int then
        (Ok(Packets(next, frameIdentifier, timestampNanos, chunks, |chunks| as u16)),
         Advanced(next, |chunks|))
      else
        (Err(PayloadTooLarge), Advanced(next, U16_MAX as nat))
  }

  /**
    The `chunks_total` header field: the ceiling of the payload length over the
    chunk size, cast to 16 bits, which is the number of chunks modulo 2^16.
   */
  method ChunksTotal(payload: seq<u8>, maxPayloadBytes: nat) returns (total: u16)
    requires maxPayloadBytes > 0
    ensures total as int == |Chunks(payload, maxPayloadBytes)| % 0x1_0000
  {
    ChunkCount(payload, maxPayloadBytes);
    var count := (|payload| + maxPayloadBytes - 1) / maxPayloadBytes;
    // the `as u16` cast keeps the low 16 bits
    total := (count % 0x1_0000) as u16;
  }

  class Packetizer {
    const config: PacketizerConfig
    var nextSequenceNumber: SequenceNumber

    constructor (config: PacketizerConfig, initialSequenceNumber: SequenceNumber)
      ensures this.config == config && nextSequenceNumber == initialSequenceNumber
    {
      this.config := config;
      nextSequenceNumber := initialSequenceNumber;
    }

    /** Splits one encoded frame into packets, numbering them from the counter. */
    method Packetize(frameIdentifier: u32, timestampNanos: u64, payload: seq<u8>)
      returns (r: Result<seq<VideoPacket>, PacketizerError>)
      modifies this
      ensures (r, nextSequenceNumber)
        == Packetized(old(nextSequenceNumber), config.maxPayloadBytes, frameIdentifier, timestampNanos, payload)
    {
      if |payload| == 0 {
        return Err(EmptyPayload);
      }
      if config.maxPayloadBytes == 0 {
        return Err(PayloadTooLarge);
      }
      var chunksTotal := ChunksTotal(payload, config.maxPayloadBytes);
      var chunks := Chunks(payload, config.maxPayloadBytes);
      r := NumberChunks(frameIdentifier, timestampNanos, chunks, chunksTotal);
    }

    /**
      The loop of `packetize`: one packet per chunk, each taking the next
      sequence number; the 65536th chunk stops the loop with an error.
     */
    method NumberChunks(frameIdentifier: u32, timestampNanos: u64, chunks: seq<seq<u8>>, chunksTotal: u16)
      returns (r: Result<seq<VideoPacket>, PacketizerError>)
      modifies this
      ensures |chunks| <= U16_MAX as int ==>
        && r == Ok(Packets(old(nextSequenceNumber), frameIdentifier, timestampNanos, chunks, chunksTotal))
        && nextSequenceNumber == Advanced(old(nextSequenceNumber), |chunks|)
      ensures |chunks| > U16_MAX as int ==>
        r == Err(PayloadTooLarge) && nextSequenceNumber == Advanced(old(nextSequenceNumber), U16_MAX as nat)
    {
      ghost var first := nextSequenceNumber;
      var packets: seq<VideoPacket> := [];
      for chunkIndex := 0 to |chunks|
        invariant chunkIndex <= U16_MAX as int
        invariant nextSequenceNumber == Advanced(first, chunkIndex)
        invariant |packets| == chunkIndex
        invariant forall k :: 0 <= k < chunkIndex ==>
          packets[k] == PacketAt(first, frameIdentifier, timestampNanos, chunks, chunksTotal, k)
      {
        if chunkIndex >= U16_MAX as int {
          return Err(PayloadTooLarge);
        }
        var header := VideoPacketHeader(
          nextSequenceNumber, timestampNanos, frameIdentifier, chunkIndex as u16, chunksTotal);
        nextSequenceNumber := nextSequenceNumber.Next();
        packets := packets + [VideoPacket(header, chunks[chunkIndex])];
      }
      assert packets == Packets(first, frameIdentifier, timestampNanos, chunks, chunksTotal);
      return Ok(packets);
    }
  }

  /** Refusals: an empty payload and a zero chunk size leave the counter where it was. */
  lemma PacketizeRefusals(
    next: SequenceNumber, maxPayloadBytes: nat, frameIdentifier: u32, timestampNanos: u64, payload: seq<u8>)
    ensures Packetized(next, maxPayloadBytes, frameIdentifier, timestampNanos, payload).0 == Err(EmptyPayload)
      <==> payload == []
    ensures payload == [] || maxPayloadBytes == 0 ==>
      Packetized(next, maxPayloadBytes, frameIdentifier, timestampNanos, payload).1 == next
    ensures payload != [] && maxPayloadBytes == 0 ==>
      Packetized(next, maxPayloadBytes, frameIdentifier, timestampNanos, payload).0 == Err(PayloadTooLarge)
  {
  }

  /**
    A frame of more than 65535 chunks is refused, yet the counter has advanced
    by 65535: the numbers handed to the discarded packets are not given back.
   */
  lemma {:induction false} OversizedFrame(
    next: SequenceNumber, maxPayloadBytes: nat, frameIdentifier: u32, timestampNanos: u64, payload: seq<u8>)
    requires maxPayloadBytes > 0
    requires |payload| > U16_MAX as int * maxPayloadBytes
    ensures Packetized(next, maxPayloadBytes, frameIdentifier, timestampNanos, payload)
      == (Err(PayloadTooLarge), Advanced(next, U16_MAX as nat))
    ensures Packetized(next, maxPayloadBytes, frameIdentifier, timestampNanos, payload).1.Value() as int
      == (next.Value() as int + 0xFFFF) % 0x1_0000_0000
  {
    var chunks := Chunks(payload, maxPayloadBytes);
    if |chunks| <= U16_MAX as int {
      ConcatBound(chunks, maxPayloadBytes);
      MulMonotone(|chunks|, U16_MAX as int, maxPayloadBytes);
      assert false;
    }
    AdvancedValue(next, U16_MAX as nat);
  }

  /**
    Exactly the non-empty payloads that fit in 65535 chunks of the configured
    size are packetized; every other payload is refused.
   */
  lemma {:induction false} PacketizeOutcome(
    next: SequenceNumber, maxPayloadBytes: nat, frameIdentifier: u32, timestampNanos: u64, payload: seq<u8>)
    ensures Packetized(next, maxPayloadBytes, frameIdentifier, timestampNanos, payload).0.Ok?
      <==> payload != [] && maxPayloadBytes > 0 && |payload| <= U16_MAX as int * maxPayloadBytes
  {
    if payload != [] && maxPayloadBytes > 0 {
      if |payload| <= U16_MAX as int * maxPayloadBytes {
        var chunks := Chunks(payload, maxPayloadBytes);
        if |chunks| > U16_MAX as int {
          FullChunksBound(chunks, maxPayloadBytes);
          MulMonotone(U16_MAX as int, |chunks| - 1, maxPayloadBytes);
          assert false;
        }
      } else {
        OversizedFrame(next, maxPayloadBytes, frameIdentifier, timestampNanos, payload);
      }
    }
  }

  /** Chunks that are all full but the last, which is non-empty, hold more than (count - 1) * size bytes. */
  lemma {:induction false} FullChunksBound(chunks: seq<seq<u8>>, size: nat)
    requires chunks != []
    requires forall k :: 0 <= k < |chunks| - 1 ==> |chunks[k]| == size
    requires |chunks[|chunks| - 1]| > 0
    ensures |Concat(chunks)| > (|chunks| - 1) * size
  {
    if |chunks| > 1 {
      FullChunksBound(chunks[1..], size);
      assert (|chunks| - 1) * size == size + (|chunks| - 2) * size;
    }
  }

  lemma MulMonotone(a: nat, b: nat, m: nat)
    requires a <= b
    ensures a * m <= b * m
  {
    assert b * m == a * m + (b - a) * m;
  }

  /** Chunks of at most `size` bytes hold at most count * size bytes. */
  lemma {:induction false} ConcatBound(chunks: seq<seq<u8>>, size: nat)
    requires forall k :: 0 <= k < |chunks| ==> |chunks[k]| <= size
    ensures |Concat(chunks)| <= |chunks| * size
  {
    if chunks != [] {
      ConcatBound(chunks[1..], size);
    }
  }

  /**
    A successful call: ceil(len / max) packets, each carrying the call's frame
    id and timestamp, chunk index k at position k, the packet count as chunks
    total, payloads of exactly max bytes except a shorter last one, the input
    recovered by concatenating them, and sequence numbers counting up (mod 2^32)
    from the counter, which ends that many steps further on.
   */
  lemma {:induction false} PacketizeSuccess(
    next: SequenceNumber, maxPayloadBytes: nat, frameIdentifier: u32, timestampNanos: u64, payload: seq<u8>)
    requires Packetized(next, maxPayloadBytes, frameIdentifier, timestampNanos, payload).0.Ok?
    ensures var (r, after) := Packetized(next, maxPayloadBytes, frameIdentifier, timestampNanos, payload);
      var ps := r.value;
      && payload != [] && maxPayloadBytes > 0
      && |ps| == (|payload| + maxPayloadBytes - 1) / maxPayloadBytes
      && 1 <= |ps| <= U16_MAX as int
      && Concat(seq(|ps|, k requires 0 <= k < |ps| => ps[k].payload)) == payload
      && (forall k :: 0 <= k < |ps| ==>
            && ps[k].header.chunkIndex as int == k
            && ps[k].header.chunksTotal as int == |ps|
            && ps[k].header.frameIdentifier == frameIdentifier
            && ps[k].header.timestampNanos == timestampNanos
            && ps[k].header.sequenceNumber.Value() as int == (next.Value() as int + k) % 0x1_0000_0000
            && 0 < |ps[k].payload| <= maxPayloadBytes
            && (k < |ps| - 1 ==> |ps[k].payload| == maxPayloadBytes))
      && after.Value() as int == (next.Value() as int + |ps|) % 0x1_0000_0000
  {
    var chunks := Chunks(payload, maxPayloadBytes);
    ChunkCount(payload, maxPayloadBytes);
    var ps := Packets(next, frameIdentifier, timestampNanos, chunks, |chunks| as u16);
    assert seq(|ps|, k requires 0 <= k < |ps| => ps[k].payload) == chunks;
    forall k | 0 <= k < |ps|
      ensures ps[k].header.sequenceNumber.Value() as int == (next.Value() as int + k) % 0x1_0000_0000
    {
      AdvancedValue(next, k);
    }
    AdvancedValue(next, |chunks|);
  }
}
