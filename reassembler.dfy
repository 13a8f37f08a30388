/**
  Rebuilding frames from video packets that may arrive out of order, twice or
  not at all (shared/src/core/reassembler.rs).
 */
module Reassembler {
  import opened Wrappers
  import opened Bytes
  import opened Packet

  datatype ReassembledFrame = ReassembledFrame(frameIdentifier: u32, timestampNanos: u64, payload: seq<u8>)

  datatype ReassemblyError = InvalidChunkIndex | InconsistentChunkCount

  /** A frame being collected: one slot per chunk, filled as chunks arrive. */
  datatype FrameAssembly = FrameAssembly(
    timestampNanos: u64,
    chunksTotal: u16,
    receivedCount: u16,
    chunks: seq<Option<seq<u8>>>)

  /** The in-flight frames, keyed by frame id; a BTreeMap in the source, iterated smallest key first. */
  type Frames = map<u32, FrameAssembly>

  type PushResult = Result<Option<ReassembledFrame>, ReassemblyError>

  /** The number of filled slots. */
  function FilledCount(chunks: seq<Option<seq<u8>>>): (n: nat)
    ensures n <= |chunks|
  {
    if chunks == [] then 0
    else (if chunks[0].Some? then 1 else 0) + FilledCount(chunks[1..])
  }

  /** The bytes of the filled slots in slot order; empty slots contribute nothing. */
  function Flatten(chunks: seq<Option<seq<u8>>>): seq<u8> {
    if chunks == [] then []
    else
      Flatten(chunks[..|chunks| - 1])
        + match chunks[|chunks| - 1] case Some(bytes) => bytes case None => []
  }

  /** As many slots as chunks, and the count matches the filled slots. */
  predicate SlotsConsistent(a: FrameAssembly) {
    && |a.chunks| == a.chunksTotal as int
    && a.receivedCount as int == FilledCount(a.chunks)
  }

  /** An entry in the map: consistent slots, and not yet complete. */
  predicate AssemblyValid(a: FrameAssembly) {
    SlotsConsistent(a) && a.receivedCount < a.chunksTotal
  }

  predicate EntriesValid(frames: Frames) {
    forall id :: id in frames ==> AssemblyValid(frames[id])
  }

  /** The reassembler's invariant: valid entries, and no more of them than the in-flight bound. */
  predicate FramesValid(frames: Frames, maxInFlightFrames: nat) {
    |frames| <= maxInFlightFrames && EntriesValid(frames)
  }

  /** The entry created for the first packet seen of a frame: its timestamp and total, every slot empty. */
  function NewAssembly(h: VideoPacketHeader): (a: FrameAssembly)
    ensures SlotsConsistent(a) && a.receivedCount == 0
    ensures a.timestampNanos == h.timestampNanos && a.chunksTotal == h.chunksTotal
    ensures forall i :: 0 <= i < |a.chunks| ==> a.chunks[i].None?
  {
    NoneFilled(h.chunksTotal as int);
    FrameAssembly(h.timestampNanos, h.chunksTotal, 0, seq(h.chunksTotal as int, _ => None))
  }

  /** The smallest key of a non-empty key set: the first key of the BTreeMap. */
  function MinKey(keys: set<u32>): (k: u32)
    requires keys != {}
    ensures k in keys && forall j :: j in keys ==> k <= j
  {
    MinExists(keys);
    var k :| IsLeast(k, keys);
    k
  }

  /** Removes smallest frame ids until no more than the bound remain. */
  function Evicted(frames: Frames, maxInFlightFrames: nat): (kept: Frames)
    ensures |kept| == if |frames| <= maxInFlightFrames then |frames| else maxInFlightFrames
    ensures forall id :: id in kept ==> id in frames && kept[id] == frames[id]
    decreases |frames|
  {
    if |frames| <= maxInFlightFrames then frames
    else
      var oldest := MinKey(frames.Keys);
      assert (frames - {oldest}).Keys == frames.Keys - {oldest};
      Evicted(frames - {oldest}, maxInFlightFrames)
  }

  /** Stores a chunk in its slot unless the slot is already filled: a duplicate changes nothing. */
  function StoreChunk(entry: FrameAssembly, index: nat, bytes: seq<u8>): (stored: FrameAssembly)
    requires AssemblyValid(entry) && index < |entry.chunks|
    ensures stored.chunksTotal == entry.chunksTotal && stored.timestampNanos == entry.timestampNanos
    ensures |stored.chunks| == |entry.chunks| && stored.chunks[index].Some?
    ensures stored.receivedCount as int == FilledCount(stored.chunks) <= stored.chunksTotal as int
    ensures entry.chunks[index].Some? ==> stored == entry
    ensures entry.chunks[index].None? ==>
      stored.chunks == entry.chunks[index := Some(bytes)] && stored.receivedCount == entry.receivedCount + 1
  {
    if entry.chunks[index].None? then
      FillSlot(entry.chunks, index, bytes);
      entry.(chunks := entry.chunks[index := Some(bytes)], receivedCount := entry.receivedCount + 1)
    else entry
  }

  /**
    One `push_packet`: the new map and the result. The entry is created (or
    found) before the chunk totals are compared, as in the source; a completed
    frame is taken out of the map, otherwise the map is trimmed to the bound.
   */
  function Push(frames: Frames, maxInFlightFrames: nat, packet: VideoPacket): (out: (Frames, PushResult))
    requires EntriesValid(frames)
    ensures EntriesValid(out.0)
    ensures out.1 == Ok(None) ==> |out.0| <= maxInFlightFrames
  {
    var h := packet.header;
    if h.chunkIndex >= h.chunksTotal then (frames, Err(InvalidChunkIndex))
    else
      var id := h.frameIdentifier;
      NoneFilled(h.chunksTotal as int);
      var withEntry := if id in frames then frames else frames[id := NewAssembly(h)];
      assert EntriesValid(withEntry);
      var entry := withEntry[id];
      if entry.chunksTotal != h.chunksTotal then (withEntry, Err(InconsistentChunkCount))
      else
        var stored := StoreChunk(entry, h.chunkIndex as int, packet.payload);
        Settle(withEntry[id := stored], maxInFlightFrames, id)
  }

  /** Entry `id` holds consistent slots and every other entry is valid. */
  predicate SettleReady(updated: Frames, id: u32) {
    && id in updated && SlotsConsistent(updated[id])
    && forall other :: other in updated && other != id ==> AssemblyValid(updated[other])
  }

  /**
    The end of push_packet, once the chunk is stored in entry `id`: a complete
    frame is taken out of the map and returned, otherwise the map is trimmed
    to the bound.
   */
  function Settle(updated: Frames, maxInFlightFrames: nat, id: u32): (out: (Frames, PushResult))
    requires SettleReady(updated, id)
    ensures EntriesValid(out.0)
    ensures out.1 == Ok(None) ==> |out.0| <= maxInFlightFrames
  {
    var stored := updated[id];
    if stored.receivedCount == stored.chunksTotal then
      (updated - {id}, Ok(Some(ReassembledFrame(id, stored.timestampNanos, Flatten(stored.chunks)))))
    else
      assert EntriesValid(updated);
      EvictedProperties(updated, maxInFlightFrames);
      (Evicted(updated, maxInFlightFrames), Ok(None))
  }

  class FrameReassembler {
    const maxInFlightFrames: nat
    var frames: Frames

    ghost predicate Valid()
      reads this
    {
      FramesValid(frames, maxInFlightFrames)
    }

    constructor (maxInFlightFrames: nat)
      ensures Valid()
      ensures this.maxInFlightFrames == maxInFlightFrames && frames == map[]
    {
      this.maxInFlightFrames := maxInFlightFrames;
      frames := map[];
    }

    /** Files one packet; returns the frame it completes, if any. */
    method PushPacket(packet: VideoPacket) returns (r: PushResult)
      requires Valid()
      modifies this
      ensures Valid()
      ensures (frames, r) == Push(old(frames), maxInFlightFrames, packet)
    {
      ghost var before := frames;
      PushPreservesValid(frames, maxInFlightFrames, packet);
      if packet.header.chunkIndex >= packet.header.chunksTotal {
        return Err(InvalidChunkIndex);
      }
      var id := packet.header.frameIdentifier;
      if id !in frames {
        frames := frames[id := NewAssembly(packet.header)];
      }
      var entry := frames[id];
      if entry.chunksTotal != packet.header.chunksTotal {
        return Err(InconsistentChunkCount);
      }
      PushOnEntry(before, maxInFlightFrames, packet, entry);
      ghost var stored := StoreChunk(entry, packet.header.chunkIndex as int, packet.payload);
      if id !in before {
        OverwriteTwice(before, id, NewAssembly(packet.header), stored);
      }
      r := StoreAndSettle(id, entry, packet.header.chunkIndex as int, packet.payload);
    }

    /** The tail of push_packet: fill the slot, then hand out the frame or evict. */
    method StoreAndSettle(id: u32, entry: FrameAssembly, index: int, payload: seq<u8>) returns (r: PushResult)
      requires id in frames && frames[id] == entry && AssemblyValid(entry) && 0 <= index < |entry.chunks|
      modifies this
      requires EntriesValid(frames)
      ensures (frames, r) == Settle(old(frames)[id := StoreChunk(entry, index, payload)], maxInFlightFrames, id)
    {
      var entry := entry;
      if entry.chunks[index].None? {
        entry := entry.(chunks := entry.chunks[index := Some(payload)], receivedCount := entry.receivedCount + 1);
        frames := frames[id := entry];
      } else {
        assert frames[id := entry] == frames;
      }
      if entry.receivedCount == entry.chunksTotal {
        var assembled := AssemblePayload(entry.chunks);
        frames := frames - {id};
        return Ok(Some(ReassembledFrame(id, entry.timestampNanos, assembled)));
      }
      EvictIfNeeded();
      return Ok(None);
    }

    /** Drops the entries with the smallest frame ids until the bound holds. */
    method EvictIfNeeded()
      modifies this
      ensures frames == Evicted(old(frames), maxInFlightFrames)
    {
      while |frames| > maxInFlightFrames
        invariant Evicted(frames, maxInFlightFrames) == Evicted(old(frames), maxInFlightFrames)
        decreases |frames|
      {
        var oldest := MinKey(frames.Keys);
        assert (frames - {oldest}).Keys == frames.Keys - {oldest};
        frames := frames - {oldest};
      }
    }
  }

  /** The `extend_from_slice` loop: the bytes of the filled slots in slot order. */
  method AssemblePayload(chunks: seq<Option<seq<u8>>>) returns (payload: seq<u8>)
    ensures payload == Flatten(chunks)
  {
    payload := [];
    for i := 0 to |chunks|
      invariant payload == Flatten(chunks[..i])
    {
      assert chunks[..i + 1][..i] == chunks[..i];
      if chunks[i].Some? {
        payload := payload + chunks[i].value;
      }
    }
    assert chunks[..|chunks|] == chunks;
  }

  // ---------------------------------------------------------------- lemmas

  /** push_packet keeps the reassembler's invariant, in particular the in-flight bound. */
  lemma PushPreservesValid(frames: Frames, maxInFlightFrames: nat, packet: VideoPacket)
    requires FramesValid(frames, maxInFlightFrames)
    ensures FramesValid(Push(frames, maxInFlightFrames, packet).0, maxInFlightFrames)
  {
    var (after, r) := Push(frames, maxInFlightFrames, packet);
    var id := packet.header.frameIdentifier;
    if r.Ok? && r.value.Some? {
      assert after.Keys <= frames.Keys;
      SubsetCard(after.Keys, frames.Keys);
    }
  }

  lemma SubsetCard(a: set<u32>, b: set<u32>)
    requires a <= b
    ensures |a| <= |b|
  {
    assert b == a + (b - a);
  }

  /** k is the smallest of the keys. */
  predicate IsLeast(k: u32, keys: set<u32>) {
    k in keys && forall j :: j in keys ==> k <= j
  }

  /** Every non-empty set of frame ids has a smallest element. */
  lemma {:induction false} MinExists(keys: set<u32>)
    requires keys != {}
    ensures exists k :: IsLeast(k, keys)
    decreases |keys|
  {
    var x :| x in keys;
    var rest := keys - {x};
    if rest == {} {
      forall j | j in keys
        ensures x <= j
      {
        assert j !in rest;
      }
      assert IsLeast(x, keys);
    } else {
      MinExists(rest);
      var m :| IsLeast(m, rest);
      var least := if x < m then x else m;
      forall j | j in keys
        ensures least <= j
      {
        if j != x {
          assert j in rest;
        }
      }
      assert IsLeast(least, keys);
    }
  }

  /** A fresh entry has no slot filled. */
  lemma {:induction false} NoneFilled(n: nat)
    ensures FilledCount(seq(n, _ => None)) == 0
  {
    if n > 0 {
      var s: seq<Option<seq<u8>>> := seq(n, _ => None);
      assert s[1..] == seq(n - 1, _ => None);
      NoneFilled(n - 1);
    }
  }

  /** Filling an empty slot adds exactly one to the filled count. */
  lemma {:induction false} FillSlot(chunks: seq<Option<seq<u8>>>, i: nat, bytes: seq<u8>)
    requires i < |chunks| && chunks[i].None?
    ensures FilledCount(chunks[i := Some(bytes)]) == FilledCount(chunks) + 1
  {
    if i > 0 {
      assert chunks[i := Some(bytes)][1..] == chunks[1..][i - 1 := Some(bytes)];
      FillSlot(chunks[1..], i - 1, bytes);
    } else {
      assert chunks[i := Some(bytes)][1..] == chunks[1..];
    }
  }

  /**
    Eviction keeps min(|frames|, bound) entries, unchanged, and every entry
    it drops has a smaller frame id than every entry it keeps.
   */
  lemma {:induction false} EvictedProperties(frames: Frames, maxInFlightFrames: nat)
    ensures var kept := Evicted(frames, maxInFlightFrames);
      && |kept| == (if |frames| <= maxInFlightFrames then |frames| else maxInFlightFrames)
      && (forall id :: id in kept ==> id in frames && kept[id] == frames[id])
      && (forall gone, stay :: gone in frames && gone !in kept && stay in kept ==> gone < stay)
    decreases |frames|
  {
    if |frames| > maxInFlightFrames {
      var oldest := MinKey(frames.Keys);
      var rest := frames - {oldest};
      assert rest.Keys == frames.Keys - {oldest};
      EvictedProperties(rest, maxInFlightFrames);
    }
  }

  /** A slot count equal to the number of slots means every slot is filled. */
  lemma {:induction false} AllFilled(chunks: seq<Option<seq<u8>>>)
    requires FilledCount(chunks) == |chunks|
    ensures forall i :: 0 <= i < |chunks| ==> chunks[i].Some?
  {
    if chunks != [] {
      AllFilled(chunks[1..]);
      forall i | 0 < i < |chunks|
        ensures chunks[i].Some?
      {
        assert chunks[i] == chunks[1..][i - 1];
      }
    }
  }

  /** With every slot filled, the assembled payload is the chunks in slot order. */
  lemma {:induction false} FlattenAllFilled(chunks: seq<Option<seq<u8>>>)
    requires forall i :: 0 <= i < |chunks| ==> chunks[i].Some?
    ensures Flatten(chunks) == Concat(seq(|chunks|, i requires 0 <= i < |chunks| => chunks[i].value))
  {
    if chunks != [] {
      var n := |chunks|;
      var init := chunks[..n - 1];
      FlattenAllFilled(init);
      ConcatSnoc(seq(n - 1, i requires 0 <= i < n - 1 => init[i].value), chunks[n - 1].value);
      assert seq(n - 1, i requires 0 <= i < n - 1 => init[i].value) + [chunks[n - 1].value]
        == seq(n, i requires 0 <= i < n => chunks[i].value);
    }
  }

  lemma {:induction false} ConcatSnoc(chunks: seq<seq<u8>>, last: seq<u8>)
    ensures Concat(chunks + [last]) == Concat(chunks) + last
  {
    if chunks != [] {
      assert (chunks + [last])[1..] == chunks[1..] + [last];
      ConcatSnoc(chunks[1..], last);
    }
  }

  /** The outcome of push_packet: which packets are refused, and that a refusal changes nothing. */
  lemma PushRefusals(frames: Frames, maxInFlightFrames: nat, packet: VideoPacket)
    requires EntriesValid(frames)
    ensures var (after, r) := Push(frames, maxInFlightFrames, packet);
      var h := packet.header;
      && (r == Err(InvalidChunkIndex) <==> h.chunkIndex >= h.chunksTotal)
      && (r == Err(InconsistentChunkCount) <==>
            h.chunkIndex < h.chunksTotal && h.frameIdentifier in frames
            && frames[h.frameIdentifier].chunksTotal != h.chunksTotal)
      && (r.Err? ==> after == frames)
  {
  }

  /** A chunk already held is ignored: nothing changes and nothing is emitted. */
  lemma DuplicateIgnored(frames: Frames, maxInFlightFrames: nat, packet: VideoPacket)
    requires FramesValid(frames, maxInFlightFrames)
    requires var h := packet.header;
      && h.chunkIndex < h.chunksTotal
      && h.frameIdentifier in frames
      && frames[h.frameIdentifier].chunksTotal == h.chunksTotal
      && frames[h.frameIdentifier].chunks[h.chunkIndex as int].Some?
    ensures Push(frames, maxInFlightFrames, packet) == (frames, Ok(None))
  {
    var id := packet.header.frameIdentifier;
    assert frames[id := frames[id]] == frames;
  }

  /**
    A push completes a frame exactly when its chunk index is in range, its
    chunk count agrees with the entry's, its slot was empty and it is the
    last missing chunk.
   */
  lemma PushCompletes(frames: Frames, maxInFlightFrames: nat, packet: VideoPacket)
    requires EntriesValid(frames)
    ensures var r := Push(frames, maxInFlightFrames, packet).1;
      var h := packet.header;
      var id := h.frameIdentifier;
      var entry := if id in frames then frames[id] else NewAssembly(h);
      r.Ok? && r.value.Some? <==>
        && h.chunkIndex < h.chunksTotal
        && entry.chunksTotal == h.chunksTotal
        && entry.chunks[h.chunkIndex as int].None?
        && entry.receivedCount as int + 1 == h.chunksTotal as int
  {
    var h := packet.header;
    var id := h.frameIdentifier;
    var entry := if id in frames then frames[id] else NewAssembly(h);
    NoneFilled(h.chunksTotal as int);
    if h.chunkIndex < h.chunksTotal && entry.chunksTotal == h.chunksTotal {
      PushOnEntry(frames, maxInFlightFrames, packet, entry);
    }
  }

  /**
    The frame a push completes: every slot filled, the payload is the chunks
    concatenated in chunk order, stamped with the timestamp of the packet that
    opened the entry, and the entry leaves the map.
   */
  lemma CompletedFrame(frames: Frames, maxInFlightFrames: nat, packet: VideoPacket)
    requires EntriesValid(frames)
    requires Push(frames, maxInFlightFrames, packet).1.Ok? && Push(frames, maxInFlightFrames, packet).1.value.Some?
    ensures var out := Push(frames, maxInFlightFrames, packet);
      var h := packet.header;
      var id := h.frameIdentifier;
      var entry := if id in frames then frames[id] else NewAssembly(h);
      && h.chunkIndex < h.chunksTotal == entry.chunksTotal
      && var slots := entry.chunks[h.chunkIndex as int := Some(packet.payload)];
      && out.0 == frames - {id}
      && (forall i :: 0 <= i < |slots| ==> slots[i].Some?)
      && out.1.value.value == ReassembledFrame(id, entry.timestampNanos,
           Concat(seq(|slots|, i requires 0 <= i < |slots| => slots[i].value)))
  {
    var h := packet.header;
    var id := h.frameIdentifier;
    var entry := if id in frames then frames[id] else NewAssembly(h);
    PushCompletes(frames, maxInFlightFrames, packet);
    var index := h.chunkIndex as int;
    PushOnEntry(frames, maxInFlightFrames, packet, entry);
    var stored := StoreChunk(entry, index, packet.payload);
    LastChunk(entry, index, packet.payload);
    assert frames[id := stored] - {id} == frames - {id};
  }

  /** Filling the last empty slot leaves every slot filled, and the frame is their concatenation. */
  lemma LastChunk(entry: FrameAssembly, index: nat, bytes: seq<u8>)
    requires AssemblyValid(entry) && index < |entry.chunks| && entry.chunks[index].None?
    requires entry.receivedCount as int + 1 == entry.chunksTotal as int
    ensures var slots := entry.chunks[index := Some(bytes)];
      && (forall i :: 0 <= i < |slots| ==> slots[i].Some?)
      && Flatten(slots) == Concat(seq(|slots|, i requires 0 <= i < |slots| => slots[i].value))
  {
    var slots := entry.chunks[index := Some(bytes)];
    FillSlot(entry.chunks, index, bytes);
    AllFilled(slots);
    FlattenAllFilled(slots);
  }

  // ------------------------------------------- reassembly in any arrival order

  /** Feeds packets one after another to push_packet, collecting the results. */
  function Replay(frames: Frames, maxInFlightFrames: nat, packets: seq<VideoPacket>): (out: (Frames, seq<PushResult>))
    requires EntriesValid(frames)
    ensures |out.1| == |packets|
    decreases |packets|
  {
    if packets == [] then (frames, [])
    else
      var (next, r) := Push(frames, maxInFlightFrames, packets[0]);
      var (final, rs) := Replay(next, maxInFlightFrames, packets[1..]);
      (final, [r] + rs)
  }

  /** The packets of one frame, packet k carrying chunk k of the frame's |packets| chunks. */
  predicate IsFramePackets(packets: seq<VideoPacket>, id: u32) {
    forall k :: 0 <= k < |packets| ==>
      && packets[k].header.frameIdentifier == id
      && packets[k].header.chunksTotal as int == |packets|
      && packets[k].header.chunkIndex as int == k
  }

  /** order lists every index below n exactly once. */
  predicate IsPermutation(order: seq<nat>, n: nat) {
    && |order| == n
    && (forall i :: 0 <= i < n ==> order[i] < n)
    && (forall i, j :: 0 <= i < j < n ==> order[i] != order[j])
    && (forall j :: 0 <= j < n ==> j in order)
  }

  /** The slots after the first k deliveries of the order. */
  function Slots(packets: seq<VideoPacket>, order: seq<nat>, k: nat): seq<Option<seq<u8>>>
    requires k <= |order|
  {
    seq(|packets|, j requires 0 <= j < |packets| =>
      if j in order[..k] then Some(packets[j].payload) else None)
  }

  /** The map after the first k deliveries: empty before the first, then one entry for the frame. */
  function Partial(packets: seq<VideoPacket>, order: seq<nat>, k: nat): Frames
    requires 1 <= |packets| <= U16_MAX as int && IsPermutation(order, |packets|) && k < |packets|
  {
    if k == 0 then map[]
    else
      map[packets[0].header.frameIdentifier :=
        FrameAssembly(packets[order[0]].header.timestampNanos, |packets| as u16, k as u16, Slots(packets, order, k))]
  }

  /** The frame all chunks reassemble to: the payloads in chunk order. */
  function WholeFrame(packets: seq<VideoPacket>, order: seq<nat>): ReassembledFrame
    requires 1 <= |packets| && IsPermutation(order, |packets|)
  {
    ReassembledFrame(
      packets[0].header.frameIdentifier,
      packets[order[0]].header.timestampNanos,
      Concat(seq(|packets|, j requires 0 <= j < |packets| => packets[j].payload)))
  }

  lemma {:induction false} SlotsStep(packets: seq<VideoPacket>, order: seq<nat>, k: nat)
    requires IsPermutation(order, |packets|) && k < |packets|
    ensures Slots(packets, order, k)[order[k]] == None
    ensures Slots(packets, order, k + 1)
      == Slots(packets, order, k)[order[k] := Some(packets[order[k]].payload)]
  {
    assert order[..k + 1] == order[..k] + [order[k]];
  }

  lemma {:induction false} SlotsCount(packets: seq<VideoPacket>, order: seq<nat>, k: nat)
    requires IsPermutation(order, |packets|) && k <= |packets|
    ensures FilledCount(Slots(packets, order, k)) == k
  {
    if k == 0 {
      assert Slots(packets, order, 0) == seq(|packets|, _ => None);
      NoneFilled(|packets|);
    } else {
      SlotsCount(packets, order, k - 1);
      SlotsStep(packets, order, k - 1);
      FillSlot(Slots(packets, order, k - 1), order[k - 1], packets[order[k - 1]].payload);
    }
  }

  /** push_packet on a frame whose entry (existing or about to be created) is `entry` and becomes `stored`. */
  lemma PushOnEntry(frames: Frames, maxInFlightFrames: nat, packet: VideoPacket, entry: FrameAssembly)
    requires EntriesValid(frames)
    requires var h := packet.header;
      && h.chunkIndex < h.chunksTotal
      && entry == (if h.frameIdentifier in frames then frames[h.frameIdentifier] else NewAssembly(h))
      && entry.chunksTotal == h.chunksTotal
    ensures AssemblyValid(entry)
    ensures var id := packet.header.frameIdentifier;
      var stored := StoreChunk(entry, packet.header.chunkIndex as int, packet.payload);
      && SettleReady(frames[id := stored], id)
      && Push(frames, maxInFlightFrames, packet) == Settle(frames[id := stored], maxInFlightFrames, id)
  {
    var h := packet.header;
    var id := h.frameIdentifier;
    NoneFilled(h.chunksTotal as int);
    var withEntry := if id in frames then frames else frames[id := NewAssembly(h)];
    var stored := StoreChunk(entry, h.chunkIndex as int, packet.payload);
    assert withEntry[id := stored] == frames[id := stored];
  }

  /** A second update of the same key hides the first. */
  lemma OverwriteTwice(frames: Frames, id: u32, first: FrameAssembly, second: FrameAssembly)
    ensures frames[id := first][id := second] == frames[id := second]
  {
  }

  /** The entry push_packet finds (or creates) for the k-th delivery. */
  function EntryAfter(packets: seq<VideoPacket>, order: seq<nat>, k: nat): FrameAssembly
    requires 1 <= |packets| <= U16_MAX as int && IsPermutation(order, |packets|) && k <= |packets|
  {
    FrameAssembly(packets[order[0]].header.timestampNanos, |packets| as u16, k as u16, Slots(packets, order, k))
  }

  lemma {:induction false} DeliveryEntry(packets: seq<VideoPacket>, order: seq<nat>, k: nat)
    requires 1 <= |packets|
    requires IsFramePackets(packets, packets[0].header.frameIdentifier)
    requires IsPermutation(order, |packets|) && k < |packets|
    ensures |packets| <= U16_MAX as int
    ensures EntriesValid(Partial(packets, order, k))
    ensures var h := packets[order[k]].header;
      && h.chunkIndex < h.chunksTotal && h.chunksTotal as int == |packets|
      && h.frameIdentifier == packets[0].header.frameIdentifier
      && EntryAfter(packets, order, k)
        == (if h.frameIdentifier in Partial(packets, order, k) then Partial(packets, order, k)[h.frameIdentifier]
            else NewAssembly(h))
  {
    var n := |packets|;
    assert n <= U16_MAX as int by { assert packets[0].header.chunksTotal as int == n; }
    SlotsCount(packets, order, k);
    var h := packets[order[k]].header;
    if k == 0 {
      assert Slots(packets, order, 0) == seq(n, _ => None);
    }
  }

  /** Once every index has been delivered, the slots hold the payloads in chunk order. */
  lemma {:induction false} AllDelivered(packets: seq<VideoPacket>, order: seq<nat>)
    requires 1 <= |packets| && IsPermutation(order, |packets|)
    ensures var slots := Slots(packets, order, |packets|);
      Flatten(slots) == Concat(seq(|packets|, j requires 0 <= j < |packets| => packets[j].payload))
  {
    var n := |packets|;
    var slots := Slots(packets, order, n);
    forall j | 0 <= j < n
      ensures slots[j] == Some(packets[j].payload)
    {
      assert j in order;
      var i :| 0 <= i < n && order[i] == j;
      assert order[..n][i] == j;
    }
    FlattenAllFilled(slots);
    assert seq(n, i requires 0 <= i < n => slots[i].value)
      == seq(n, j requires 0 <= j < n => packets[j].payload);
  }

  lemma {:induction false} StoreStep(packets: seq<VideoPacket>, order: seq<nat>, k: nat)
    requires 1 <= |packets| <= U16_MAX as int && IsPermutation(order, |packets|) && k < |packets|
    ensures AssemblyValid(EntryAfter(packets, order, k))
    ensures StoreChunk(EntryAfter(packets, order, k), order[k], packets[order[k]].payload)
      == EntryAfter(packets, order, k + 1)
  {
    SlotsCount(packets, order, k);
    SlotsStep(packets, order, k);
    SlotsCount(packets, order, k + 1);
  }

  /** One delivery: the entry gains a slot, or the last slot completes the frame. */
  lemma {:induction false} DeliveryStep(packets: seq<VideoPacket>, order: seq<nat>, maxInFlightFrames: nat, k: nat)
    requires 1 <= |packets| && maxInFlightFrames >= 1
    requires IsFramePackets(packets, packets[0].header.frameIdentifier)
    requires IsPermutation(order, |packets|) && k < |packets|
    ensures |packets| <= U16_MAX as int
    ensures EntriesValid(Partial(packets, order, k))
    ensures Push(Partial(packets, order, k), maxInFlightFrames, packets[order[k]])
      == if k + 1 < |packets| then (Partial(packets, order, k + 1), Ok(None))
         else (map[], Ok(Some(WholeFrame(packets, order))))
  {
    var n := |packets|;
    var id := packets[0].header.frameIdentifier;
    var p := packets[order[k]];
    DeliveryEntry(packets, order, k);
    var frames := Partial(packets, order, k);
    var entry := EntryAfter(packets, order, k);
    var next := EntryAfter(packets, order, k + 1);
    PushOnEntry(frames, maxInFlightFrames, p, entry);
    StoreStep(packets, order, k);
    SettleDelivery(packets, order, maxInFlightFrames, k);
  }

  /** Settling the entry after delivery k: still in flight, or the whole frame once every chunk is in. */
  lemma {:induction false} SettleDelivery(packets: seq<VideoPacket>, order: seq<nat>, maxInFlightFrames: nat, k: nat)
    requires 1 <= |packets| <= U16_MAX as int && maxInFlightFrames >= 1
    requires IsPermutation(order, |packets|) && k < |packets|
    ensures var id := packets[0].header.frameIdentifier;
      var updated := Partial(packets, order, k)[id := EntryAfter(packets, order, k + 1)];
      && SettleReady(updated, id)
      && Settle(updated, maxInFlightFrames, id)
        == if k + 1 < |packets| then (Partial(packets, order, k + 1), Ok(None))
           else (map[], Ok(Some(WholeFrame(packets, order))))
  {
    if k + 1 < |packets| {
      SettleInFlight(packets, order, maxInFlightFrames, k);
    } else {
      SettleLast(packets, order, maxInFlightFrames);
    }
  }

  lemma {:induction false} SettleInFlight(packets: seq<VideoPacket>, order: seq<nat>, maxInFlightFrames: nat, k: nat)
    requires 1 <= |packets| <= U16_MAX as int && maxInFlightFrames >= 1
    requires IsPermutation(order, |packets|) && k + 1 < |packets|
    ensures var id := packets[0].header.frameIdentifier;
      var updated := Partial(packets, order, k)[id := EntryAfter(packets, order, k + 1)];
      && SettleReady(updated, id)
      && Settle(updated, maxInFlightFrames, id) == (Partial(packets, order, k + 1), Ok(None))
  {
    var id := packets[0].header.frameIdentifier;
    var updated := Partial(packets, order, k)[id := EntryAfter(packets, order, k + 1)];
    SlotsCount(packets, order, k + 1);
    assert updated == Partial(packets, order, k + 1);
    assert updated.Keys == {id};
    assert Evicted(updated, maxInFlightFrames) == updated;
  }

  lemma {:induction false} SettleLast(packets: seq<VideoPacket>, order: seq<nat>, maxInFlightFrames: nat)
    requires 1 <= |packets| <= U16_MAX as int
    requires IsPermutation(order, |packets|)
    ensures var id := packets[0].header.frameIdentifier;
      var n := |packets|;
      var updated := Partial(packets, order, n - 1)[id := EntryAfter(packets, order, n)];
      && SettleReady(updated, id)
      && Settle(updated, maxInFlightFrames, id) == (map[], Ok(Some(WholeFrame(packets, order))))
  {
    var n := |packets|;
    var id := packets[0].header.frameIdentifier;
    var updated := Partial(packets, order, n - 1)[id := EntryAfter(packets, order, n)];
    SlotsCount(packets, order, n);
    AllDelivered(packets, order);
    assert updated.Keys == {id};
    assert updated - {id} == map[];
  }

  /** The packets in delivery order. */
  function Delivered(packets: seq<VideoPacket>, order: seq<nat>): (d: seq<VideoPacket>)
    requires IsPermutation(order, |packets|)
    ensures |d| == |packets|
  {
    seq(|packets|, i requires 0 <= i < |packets| => packets[order[i]])
  }

  /** The map before each delivery, and the empty map after the last. */
  function States(packets: seq<VideoPacket>, order: seq<nat>): (states: seq<Frames>)
    requires 1 <= |packets| <= U16_MAX as int && IsPermutation(order, |packets|)
    ensures |states| == |packets| + 1 && states[0] == map[] && states[|packets|] == map[]
  {
    seq(|packets| + 1, i requires 0 <= i <= |packets| =>
      if i < |packets| then Partial(packets, order, i) else map[])
  }

  /** "Incomplete" for every delivery but the last, which yields the whole frame. */
  function Outcomes(packets: seq<VideoPacket>, order: seq<nat>): (results: seq<PushResult>)
    requires 1 <= |packets| && IsPermutation(order, |packets|)
    ensures |results| == |packets|
    ensures forall i :: 0 <= i < |packets| - 1 ==> results[i] == Ok(None)
    ensures results[|packets| - 1] == Ok(Some(WholeFrame(packets, order)))
  {
    seq(|packets|, i requires 0 <= i < |packets| =>
      if i < |packets| - 1 then Ok(None) else Ok(Some(WholeFrame(packets, order))))
  }

  /** Each delivery leads from one state of the chain to the next, with the expected outcome. */
  lemma {:induction false} DeliveriesChain(packets: seq<VideoPacket>, order: seq<nat>, maxInFlightFrames: nat)
    requires 1 <= |packets| && maxInFlightFrames >= 1
    requires IsFramePackets(packets, packets[0].header.frameIdentifier)
    requires IsPermutation(order, |packets|)
    ensures |packets| <= U16_MAX as int
    ensures forall i :: 0 <= i <= |packets| ==> EntriesValid(States(packets, order)[i])
    ensures forall i :: 0 <= i < |packets| ==>
      Push(States(packets, order)[i], maxInFlightFrames, Delivered(packets, order)[i])
        == (States(packets, order)[i + 1], Outcomes(packets, order)[i])
  {
    var n := |packets|;
    DeliveryStep(packets, order, maxInFlightFrames, 0);
    var states := States(packets, order);
    var delivered := Delivered(packets, order);
    var results := Outcomes(packets, order);
    forall i | 0 <= i < n
      ensures EntriesValid(states[i])
      ensures Push(states[i], maxInFlightFrames, delivered[i]) == (states[i + 1], results[i])
    {
      DeliveryStep(packets, order, maxInFlightFrames, i);
    }
    assert EntriesValid(states[n]);
  }

  /** Replay once the first push is known. */
  lemma ReplayAfterPush(frames: Frames, maxInFlightFrames: nat, packets: seq<VideoPacket>, next: Frames, r: PushResult)
    requires EntriesValid(frames) && packets != [] && EntriesValid(next)
    requires Push(frames, maxInFlightFrames, packets[0]) == (next, r)
    ensures Replay(frames, maxInFlightFrames, packets)
      == (Replay(next, maxInFlightFrames, packets[1..]).0, [r] + Replay(next, maxInFlightFrames, packets[1..]).1)
  {
  }

  /** Replay follows any chain of maps in which each push leads from one map to the next. */
  lemma {:induction false} ReplayChain(states: seq<Frames>, maxInFlightFrames: nat, packets: seq<VideoPacket>, results: seq<PushResult>)
    requires |states| == |packets| + 1 && |results| == |packets|
    requires forall i :: 0 <= i < |states| ==> EntriesValid(states[i])
    requires forall i :: 0 <= i < |packets| ==>
      Push(states[i], maxInFlightFrames, packets[i]) == (states[i + 1], results[i])
    ensures Replay(states[0], maxInFlightFrames, packets) == (states[|packets|], results)
    decreases |packets|
  {
    if packets != [] {
      assert EntriesValid(states[1]);
      ReplayAfterPush(states[0], maxInFlightFrames, packets, states[1], results[0]);
      forall i | 0 <= i < |packets| - 1
        ensures Push(states[1..][i], maxInFlightFrames, packets[1..][i]) == (states[1..][i + 1], results[1..][i])
      {
        assert Push(states[i + 1], maxInFlightFrames, packets[i + 1]) == (states[i + 2], results[i + 1]);
      }
      ReplayChain(states[1..], maxInFlightFrames, packets[1..], results[1..]);
      assert [results[0]] + results[1..] == results;
    }
  }

  /**
    Whatever order a frame's packets arrive in, an empty reassembler with room
    for at least one frame answers "incomplete" to every packet but the last,
    then emits the payloads concatenated in chunk order with the first
    arrival's timestamp, and is left empty.
   */
  lemma {:induction false} ReassemblesInAnyOrder(packets: seq<VideoPacket>, order: seq<nat>, maxInFlightFrames: nat)
    requires 1 <= |packets| && maxInFlightFrames >= 1
    requires IsFramePackets(packets, packets[0].header.frameIdentifier)
    requires IsPermutation(order, |packets|)
    ensures var n := |packets|;
      var replayed := Replay(map[], maxInFlightFrames, Delivered(packets, order));
      var results := replayed.1;
      && replayed.0 == map[]
      && (forall i :: 0 <= i < n - 1 ==> results[i] == Ok(None))
      && results[n - 1] == Ok(Some(ReassembledFrame(
           packets[0].header.frameIdentifier,
           packets[order[0]].header.timestampNanos,
           Concat(seq(n, j requires 0 <= j < n => packets[j].payload)))))
  {
    var n := |packets|;
    DeliveryStep(packets, order, maxInFlightFrames, 0);
    DeliveriesChain(packets, order, maxInFlightFrames);
    ReplayChain(States(packets, order), maxInFlightFrames, Delivered(packets, order), Outcomes(packets, order));
  }
}
