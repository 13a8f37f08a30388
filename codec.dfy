/**
  The frame types of the codec interface (shared/src/codec/types.rs,
  shared/src/codec/mod.rs) and the passthrough codec that copies bytes
  through unchanged (shared/src/codec/dummy.rs).
 */
module Codec {
  import opened Wrappers
  import opened Bytes

  datatype PixelFormat = Rgba8

  /** A `std::time::Duration`: whole seconds and the nanoseconds below one second. */
  datatype Duration = Duration(secs: u64, nanos: u32)

  datatype RawFrame = RawFrame(width: u32, height: u32, pixelFormat: PixelFormat, timestamp: Duration, data: seq<u8>)

  datatype EncodedFrame = EncodedFrame(timestamp: Duration, data: seq<u8>, isKeyframe: bool)

  datatype DecodedFrame = DecodedFrame(width: u32, height: u32, pixelFormat: PixelFormat, timestamp: Duration, data: seq<u8>)

  datatype CodecError = InvalidInput | Unsupported | InternalError

  /** Refuses an empty frame; otherwise every frame is a keyframe carrying the raw bytes and timestamp. */
  function PassthroughEncode(frame: RawFrame): (r: Result<EncodedFrame, CodecError>)
    ensures r == Err(InvalidInput) <==> frame.data == []
    ensures r.Ok? <==> frame.data != []
    ensures r.Ok? ==> r.value.data == frame.data && r.value.timestamp == frame.timestamp && r.value.isKeyframe
  {
    if frame.data == [] then Err(InvalidInput)
    else Ok(EncodedFrame(frame.timestamp, frame.data, true))
  }

  /** Refuses an empty frame; otherwise a 1x1 RGBA frame carrying the same bytes and timestamp. */
  function PassthroughDecode(frame: EncodedFrame): (r: Result<DecodedFrame, CodecError>)
    ensures r == Err(InvalidInput) <==> frame.data == []
    ensures r.Ok? <==> frame.data != []
    ensures r.Ok? ==> && r.value.data == frame.data && r.value.timestamp == frame.timestamp
                      && r.value.width == 1 && r.value.height == 1 && r.value.pixelFormat == Rgba8
  {
    if frame.data == [] then Err(InvalidInput)
    else Ok(DecodedFrame(1, 1, Rgba8, frame.timestamp, frame.data))
  }

  /** Encoding then decoding a non-empty frame gives back its bytes and timestamp; an empty one is refused. */
  lemma RoundTrip(frame: RawFrame)
    ensures frame.data != [] ==>
      && PassthroughEncode(frame).Ok?
      && PassthroughDecode(PassthroughEncode(frame).value).Ok?
      && PassthroughDecode(PassthroughEncode(frame).value).value.data == frame.data
      && PassthroughDecode(PassthroughEncode(frame).value).value.timestamp == frame.timestamp
    ensures frame.data == [] ==> PassthroughEncode(frame) == Err(InvalidInput)
  {
  }
}
