/**
  The sender and receiver halves together: the packets packetize produces
  for one frame, delivered to a fresh reassembler in any order, give back
  exactly that frame.
 */
module EndToEnd {
  import opened Wrappers
  import opened Bytes
  import opened Sequence
  import opened Packetizer
  import opened Reassembler

  lemma {:induction false} FrameSurvivesAnyOrder(
    next: SequenceNumber, maxPayloadBytes: nat, frameIdentifier: u32, timestampNanos: u64,
    payload: seq<u8>, order: seq<nat>, maxInFlightFrames: nat)
    requires Packetized(next, maxPayloadBytes, frameIdentifier, timestampNanos, payload).0.Ok?
    requires maxInFlightFrames >= 1
    requires IsPermutation(order, |Packetized(next, maxPayloadBytes, frameIdentifier, timestampNanos, payload).0.value|)
    ensures var packets := Packetized(next, maxPayloadBytes, frameIdentifier, timestampNanos, payload).0.value;
      var n := |packets|;
      var replayed := Replay(map[], maxInFlightFrames, Delivered(packets, order));
      var results := replayed.1;
      && replayed.0 == map[]
      && (forall i :: 0 <= i < n - 1 ==> results[i] == Ok(None))
      && results[n - 1] == Ok(Some(ReassembledFrame(frameIdentifier, timestampNanos, payload)))
  {
    var packets := Packetized(next, maxPayloadBytes, frameIdentifier, timestampNanos, payload).0.value;
    PacketizeSuccess(next, maxPayloadBytes, frameIdentifier, timestampNanos, payload);
    assert IsFramePackets(packets, packets[0].header.frameIdentifier);
    ReassemblesInAnyOrder(packets, order, maxInFlightFrames);
    assert packets[order[0]].header.timestampNanos == timestampNanos;
  }
}
