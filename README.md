# Thunderbolt display: the UDP framing layer, in Dafny

This project models the layer of the thunderbolt-display streamer that carries
encoded video frames over UDP, and proves what that layer promises.

- **Sequence numbers** (`Sequence`): a 32-bit counter whose `next` wraps from
  the largest `u32` to 0.
- **Video packet header** (`Packet`): the fixed 20-byte big-endian header. The
  fields are sequence number, timestamp, frame id, chunk index and chunk count.
  `Encode` writes into a caller's array; `Decode` reads a byte sequence.
- **Whole packets** (`PacketCodec`): the header followed by the raw payload.
- **Packetizer** (`Packetizer`): a class holding the next sequence number. It
  cuts one encoded frame into chunks of at most `maxPayloadBytes` bytes and
  numbers them consecutively.
- **Frame reassembler** (`Reassembler`): a class holding the in-flight frames
  as a map from frame id to slot lists. It files packets that may arrive out of
  order or twice, and hands back a frame once every slot is filled. It keeps at
  most `maxInFlightFrames` incomplete frames by dropping the smallest frame ids.
- **Healthcheck datagram** (`Healthcheck`): the 16-byte `TBDH` ping/pong packet.
  Its decoder checks length, then magic, then kind.
- **Interface choice** (`Network`): `choose_preferred_interface`. It prefers
  an active `bridge0`, then an active `en*` interface whose address starts with
  169, then any interface that is up and running (active means up and running).
- **Passthrough codec** (`Codec`): the identity encoder and decoder, and the
  frame types they exchange.
- **End to end** (`EndToEnd`): the two halves together. A frame packetized and
  then delivered to a fresh reassembler in any order comes back unchanged.

`Bytes` holds the fixed-width integer types, big-endian conversion and the
`copy_from_slice` used by the encoders. `Wrappers` holds `Option` and `Result`.

Each imperative operation in the source is a `method` over a class field or an
`array`. Each such method is proved equal to a pure function:

| method | specifying function |
|---|---|
| `Packetizer.Packetizer.Packetize` | `Packetized` |
| `Reassembler.FrameReassembler.PushPacket` | `Push` |
| `Reassembler.FrameReassembler.EvictIfNeeded` | `Evicted` |
| `Reassembler.AssemblePayload` | `Flatten` |
| `Packet.Encode` | `HeaderBytes` |
| `PacketCodec.EncodePacket` | `PacketBytes` |
| `Healthcheck.Encode` | `Healthcheck.PacketBytes` |

The lemmas about those functions carry the properties.

## Model

| member | source | states |
|---|---|---|
| Sequence.New | shared/src/core/sequence.rs:5-11 | `value(new(v)) == v` for every `u32` v |
| Sequence.SequenceNumber.Value | shared/src/core/sequence.rs:9-11 | the value is the wrapped integer, so wrapping it again gives the same sequence number |
| Sequence.SequenceNumber.Next | shared/src/core/sequence.rs:13-15 | `next` is the value plus one modulo 2^32 (`wrapping_add`) |
| Sequence.SequenceNumber.Less | shared/src/core/sequence.rs:1-2 | the derived `<` holds exactly when the wrapped value is smaller, and never between equal numbers |
| Sequence.NextWrapsOnOverflow | shared/src/core/sequence.rs:22-27 | the next of `u32::MAX` is 0 |
| Sequence.OrderingAgrees | shared/src/core/sequence.rs:1-2 | the derived `<` and `==` agree with those of the wrapped integers |
| Sequence.NextOrder | shared/src/core/sequence.rs:13-15 | `next` moves up the ordering except at the wrap, where it drops to 0, below its predecessor |
| Sequence.AdvancedValue | shared/src/core/sequence.rs:13-15 | k calls of `next` add k modulo 2^32 |
| Bytes.FromToBigEndian | shared/src/core/packet.rs:31-35 | reading back the n big-endian bytes of a number below 256^n gives the number |
| Bytes.ToFromBigEndian | shared/src/core/packet.rs:45-49 | writing back the number read from some bytes gives those bytes |
| Bytes.ReadBeRoundTrip | shared/src/core/packet.rs:31-49 | `from_be_bytes(to_be_bytes(x)) == x` for `u16`, `u32` and `u64` |
| Bytes.ReadU16 | shared/src/core/packet.rs:48-49 | the `u16` read from two bytes is the one whose big-endian image they are |
| Bytes.ReadU32 | shared/src/core/packet.rs:45-47 | the `u32` read from four bytes is the one whose big-endian image they are |
| Bytes.ReadU64 | shared/src/core/packet.rs:46 | the `u64` read from eight bytes is the one whose big-endian image they are |
| Bytes.CopyFromSlice | shared/src/core/packet.rs:31-35 | `copy_from_slice` overwrites exactly the target range with the source bytes and leaves the rest of the buffer as it was |
| Packet.HeaderBytes | shared/src/core/packet.rs:3-12 | the header image is exactly `VIDEO_PACKET_HEADER_LENGTH` bytes, the five fields' widths together |
| Packet.HeaderLayout | shared/src/core/packet.rs:31-35 | the header is 20 = 4+8+4+2+2 bytes, with each field big-endian at offsets 0..4, 4..12, 12..16, 16..18 and 18..20 |
| Packet.Encode | shared/src/core/packet.rs:26-38 | a buffer shorter than 20 bytes gives `BufferTooSmall` and is left untouched; otherwise bytes 0..20 become the header image and the bytes past 20 keep their values |
| Packet.Decode | shared/src/core/packet.rs:40-58 | decoding fails with `BufferTooSmall` exactly on inputs shorter than 20 bytes; a decoded header's image is the first 20 input bytes |
| Packet.DecodeEncode | shared/src/core/packet.rs:66-81 | decoding what `encode` wrote gives the header back, whatever follows it |
| Packet.IgnoresTrailingBytes | shared/src/core/packet.rs:45-49 | only the first 20 bytes are read; trailing bytes never change the result |
| PacketCodec.PacketBytes | shared/src/core/packet_codec.rs:8-15 | an encoded packet is 20 + payload-length bytes: the header image, then the payload |
| PacketCodec.EncodePacket | shared/src/core/packet_codec.rs:8-15 | the zeroed buffer ends up as the header image followed by the payload |
| PacketCodec.DecodePacket | shared/src/core/packet_codec.rs:18-28 | decoding fails with `BufferTooSmall` exactly on inputs shorter than 20 bytes; otherwise the header is the one `Packet.Decode` reads and the payload is everything after byte 20 |
| PacketCodec.HeaderOnlyDatagram | shared/src/core/packet_codec.rs:21-25 | a 20-byte datagram decodes to a packet with an empty payload |
| PacketCodec.DecodePacketEncodePacket | shared/src/core/packet_codec.rs:37-54 | `decode_packet(encode_packet(p)) == Ok(p)` |
| PacketCodec.EncodePacketDecodePacket | shared/src/core/packet_codec.rs:8-28 | re-encoding a decoded datagram gives the datagram back, so no two datagrams decode to the same packet |
| Packetizer.Chunks | shared/src/core/packetizer.rs:60-62 | `chunks(max)` pieces concatenate to the input; each piece is non-empty and at most `max` bytes; all but the last are exactly `max` |
| Packetizer.ChunkCount | shared/src/core/packetizer.rs:55-62 | there are ceil(len / max) pieces, the count the source computes for `chunks_total` |
| Packetizer.Packetized | shared/src/core/packetizer.rs:41-84 | a success has at most 65535 packets and moves the counter by their number; a refusal leaves the counter alone, except a `PayloadTooLarge` that has moved it by 65535 |
| Packetizer.ChunksTotal | shared/src/core/packetizer.rs:55-56 | `chunks_total` is the piece count truncated to 16 bits by the `as u16` cast |
| Packetizer.Packetizer.constructor | shared/src/core/packetizer.rs:34-39 | the packetizer starts with the given configuration and counter |
| Packetizer.Packetizer.Packetize | shared/src/core/packetizer.rs:41-84 | the result and the new counter are those of `Packetized` on the old counter |
| Packetizer.Packetizer.NumberChunks | shared/src/core/packetizer.rs:58-83 | the loop gives packet k the counter's k-th successor, chunk index k and the shared fields; it stops with `PayloadTooLarge` at chunk index 65535, with the counter moved on by 65535 |
| Packetizer.PacketizeRefusals | shared/src/core/packetizer.rs:47-53 | `EmptyPayload` exactly for an empty payload; a non-empty payload with `max == 0` gives `PayloadTooLarge`; neither refusal moves the counter |
| Packetizer.PacketizeOutcome | shared/src/core/packetizer.rs:47-66 | `packetize` succeeds exactly on a non-empty payload with a non-zero chunk size that fits in 65535 chunks |
| Packetizer.PacketizeSuccess | shared/src/core/packetizer.rs:55-83 | on success there are ceil(len/max) packets, between 1 and 65535. Packet k has chunk index k, `chunks_total` equal to the count, the given frame id and timestamp, and sequence number counter + k mod 2^32. The payloads concatenate to the input, all at most `max` bytes and all but the last exactly `max`. The counter ends the packet count further on |
| Packetizer.OversizedFrame | shared/src/core/packetizer.rs:60-75 | a payload needing more than 65535 chunks gives `PayloadTooLarge` with the counter already moved on by 65535, not rolled back |
| Reassembler.FilledCount | shared/src/core/reassembler.rs:21-22 | the count of filled slots is at most the number of slots |
| Reassembler.NewAssembly | shared/src/core/reassembler.rs:49-57 | a new entry takes the packet's timestamp and chunk count, has every slot empty and a received count of 0 |
| Reassembler.StoreChunk | shared/src/core/reassembler.rs:63-67 | an empty slot gets the chunk and the count goes up by one; a filled slot leaves the entry unchanged; the count stays equal to the filled slots |
| Reassembler.Evicted | shared/src/core/reassembler.rs:90-98 | eviction keeps min(size, bound) entries, each unchanged from the map it started with |
| Reassembler.Push | shared/src/core/reassembler.rs:39-88 | every entry stays consistent after a push; after an `Ok(None)` at most `max_in_flight_frames` entries remain |
| Reassembler.Settle | shared/src/core/reassembler.rs:69-87 | the tail of `push_packet` keeps every entry consistent; when it answers `Ok(None)` the map is within the bound |
| Reassembler.FrameReassembler.constructor | shared/src/core/reassembler.rs:32-37 | a new reassembler has the given bound and no frames, and satisfies the invariant |
| Reassembler.FrameReassembler.PushPacket | shared/src/core/reassembler.rs:39-88 | keeps the invariant; the new map and the result are those of `Push` on the old map |
| Reassembler.FrameReassembler.StoreAndSettle | shared/src/core/reassembler.rs:63-87 | filling the slot (unless already filled), then emitting the frame or evicting, leaves the map and result of `Settle` |
| Reassembler.FrameReassembler.EvictIfNeeded | shared/src/core/reassembler.rs:90-98 | the loop leaves the map `Evicted` describes |
| Reassembler.AssemblePayload | shared/src/core/reassembler.rs:70-75 | the `extend_from_slice` loop yields the filled slots' bytes in slot order |
| Reassembler.PushPreservesValid | shared/src/core/reassembler.rs:64-86 | for each entry, `received_count` equals the number of filled slots and is below `chunks_total`; the map never holds more than `max_in_flight_frames` entries |
| Reassembler.EvictedProperties | shared/src/core/reassembler.rs:90-98 | eviction keeps min(size, bound) entries, unchanged, and every dropped frame id is below every kept one |
| Reassembler.MinExists | shared/src/core/reassembler.rs:92 | a non-empty map has a smallest frame id, the first key of the `BTreeMap` |
| Reassembler.PushRefusals | shared/src/core/reassembler.rs:43-61 | `InvalidChunkIndex` exactly when `chunk_index >= chunks_total`. `InconsistentChunkCount` exactly when an existing entry has another count. Either error leaves the map unchanged |
| Reassembler.DuplicateIgnored | shared/src/core/reassembler.rs:63-67 | a chunk whose slot is already filled changes nothing and yields `Ok(None)` |
| Reassembler.PushCompletes | shared/src/core/reassembler.rs:63-69 | a push completes a frame exactly when the index is in range, the counts agree, the slot was empty and it was the last missing chunk |
| Reassembler.CompletedFrame | shared/src/core/reassembler.rs:49-83 | a completed frame has every slot filled, its payload is the chunks concatenated in index order, its timestamp is that of the packet that opened the entry, and its entry leaves the map |
| Reassembler.FillSlot | shared/src/core/reassembler.rs:64-67 | filling an empty slot adds exactly one to the filled count |
| Reassembler.AllFilled | shared/src/core/reassembler.rs:69 | `received_count == chunks_total` means every slot is filled |
| Reassembler.FlattenAllFilled | shared/src/core/reassembler.rs:70-75 | with every slot filled, the assembled payload is the chunks in slot order |
| Reassembler.ReassemblesInAnyOrder | shared/src/core/reassembler.rs:39-88 | the packets of one frame, fed to an empty reassembler in any order, answer `Ok(None)` to all but the last. The last yields the chunks concatenated in index order, with the first arrival's timestamp, and the map ends empty |
| Healthcheck.KindByte | shared/src/core/healthcheck.rs:27-30 | the kind byte is 1 or 2 |
| Healthcheck.PacketBytes | shared/src/core/healthcheck.rs:24-33 | the encoded packet is 16 bytes long |
| Healthcheck.Encode | shared/src/core/healthcheck.rs:24-33 | the zeroed 16-byte buffer ends up as `TBDH`, the kind byte (1 for Ping, 2 for Pong), three zero bytes, and the big-endian timestamp |
| Healthcheck.DecodeEncode | shared/src/core/healthcheck.rs:67-77 | `decode(encode(p)) == Ok(p)` for both kinds, whatever follows the 16 bytes |
| Healthcheck.Decode | shared/src/core/healthcheck.rs:35-56 | each error arises exactly when its check is the first to fail: length < 16, then bad magic, then a kind byte other than 1 or 2. Success is exactly a long-enough buffer with the magic and kind byte 1 or 2, and then the kind and timestamp are those bytes 4 and 8..16 encode |
| Healthcheck.IsHealthcheckPacket | shared/src/core/healthcheck.rs:58-60 | the test holds exactly when decoding gets past the length and magic checks, so every decodable buffer passes it |
| Healthcheck.EncodeDecode | shared/src/core/healthcheck.rs:24-56 | re-encoding a decoded buffer gives its first 16 bytes back, with the reserved bytes 5..8 as zero |
| Healthcheck.DecodeIgnoresReserved | shared/src/core/healthcheck.rs:44-50 | bytes 5..8 and anything past byte 16 never change the decoded packet |
| Network.Ipv4Addr.Octets | shared/src/platform/macos/network.rs:70 | the four octets, the first being the address's leading byte |
| Network.FirstIndex | shared/src/platform/macos/network.rs:75-77 | `iter().find` answers with the first position whose element satisfies the test, or none when none does |
| Network.Find | shared/src/platform/macos/network.rs:75-78 | `find(..).cloned()` answers with a listed element that passes the test, and answers nothing exactly when no element passes |
| Network.FindFirst | shared/src/platform/macos/network.rs:58-78 | `find` answers exactly when some element passes, and then with the first that does |
| Network.ChoosePreferredInterface | shared/src/platform/macos/network.rs:57-79 | any chosen interface is in the list and up and running; the result is `None` exactly when no interface is both |
| Network.PrefersBridge | shared/src/platform/macos/network.rs:58-64 | if an active `bridge0` exists, the first one is chosen |
| Network.PrefersEnWith169 | shared/src/platform/macos/network.rs:66-73 | without an active `bridge0`, the first active `en*` interface with first octet 169 is chosen if one exists |
| Network.FallsBackToFirstActive | shared/src/platform/macos/network.rs:75-78 | without either preference, the first interface that is up and running is chosen |
| Network.TestedChoices | shared/src/platform/macos/network.rs:104-135 | the three example lists choose `bridge0`, `en0` and `en5` |
| Codec.PassthroughEncode | shared/src/codec/dummy.rs:8-18 | empty data gives `InvalidInput`, and only empty data does; every non-empty frame succeeds, as a keyframe with the same data and timestamp |
| Codec.PassthroughDecode | shared/src/codec/dummy.rs:22-34 | empty data gives `InvalidInput`, and only empty data does; every non-empty frame (keyframe or not) succeeds, as a 1x1 `Rgba8` frame with the same data and timestamp |
| Codec.RoundTrip | shared/src/codec/dummy.rs:44-60 | decoding the encoding of a non-empty frame gives its data and timestamp back; an empty frame is refused |
| EndToEnd.FrameSurvivesAnyOrder | shared/src/core/packetizer.rs:41-84 | a frame that packetizes, delivered in any order to an empty reassembler with bound at least 1, comes back whole on the last packet: same frame id, timestamp and payload, map empty, earlier answers `Ok(None)` |

## Left out

- The H.264 codec (`shared/src/codec/macos/h264.rs`) and its VideoToolbox bridge are not part of this model. They are foreign calls into an implementation that is not available.
- `list_active_ipv4_interfaces`, `detect_preferred_interface` and `detect_preferred_ipv4` are not modelled. They walk `getifaddrs` through raw pointers, which is operating-system I/O. `ChoosePreferredInterface` takes the interface list as a parameter instead.
- The UDP transport (`shared/src/transport`) and the display platform bindings are not modelled. They are sockets and foreign calls.
- The host, client, healthcheck and helper binaries are not modelled. They are argument parsing, infinite send/receive loops, wall-clock time and sleeping.
- The `VideoEncoder`/`VideoDecoder` traits and `PassthroughCodec`'s unit struct are left out. The two passthrough operations are plain functions because the codec has no state.
- The `Display` text of `PacketizerError` is not modelled.
- `Codec.Duration` is a plain pair of seconds and nanoseconds. The passthrough codec only copies it, so its arithmetic is not modelled.
- Packetizer.Packetized: `max_payload_bytes` is an unbounded `nat`. The `usize` addition `len + max - 1` cannot overflow here. In the source it could overflow for a `max` near `usize::MAX`, which no real datagram size reaches.
- Packetizer.Packetizer.Packetize: the `for` loop of the source sits in `NumberChunks` and the `chunks_total` computation in `ChunksTotal`. Both are methods called from `Packetize`, with the same order of effects.
- Reassembler.FrameReassembler.PushPacket: the tail of `push_packet`, after the two checks, sits in the `StoreAndSettle` method. The entry is a value copied in and out of the map, not a reference into the map.
- Reassembler.FrameReassembler.EvictIfNeeded: the `else { break; }` branch of the source cannot run, because a map larger than the bound is never empty. It has no counterpart.
- PacketCodec.EncodePacket: the `expect` on the header encoding cannot fail, because the buffer is at least 20 bytes long. The model asserts that instead of modelling a panic.
- Reassembler.ReassemblesInAnyOrder: the any-order delivery result assumes a bound of at least 1. With a bound of 0, every incomplete frame is evicted at once, and `PushPreservesValid` still describes that case.
