/** Packet sequence numbers: a 32-bit counter that wraps around (shared/src/core/sequence.rs). */
module Sequence {
  import opened Bytes

  /** A sequence number; its derived ordering is that of the wrapped integer. */
  datatype SequenceNumber = SequenceNumber(raw: u32) {

    function Value(): (v: u32)
      ensures SequenceNumber(v) == this
    {
      raw
    }

    /** The following sequence number, wrapping from the largest u32 to 0. */
    function Next(): (n: SequenceNumber)
      ensures n.Value() as int == (Value() as int + 1) % 0x1_0000_0000
    {
      SequenceNumber(if raw == U32_MAX then 0 else raw + 1)
    }

    /** The derived `<` of the Rust newtype: a strict order. */
    predicate Less(other: SequenceNumber)
      ensures Less(other) <==> Value() < other.Value()
      ensures Less(other) ==> this != other
    {
      raw < other.raw
    }
  }

  function New(value: u32): (s: SequenceNumber)
    ensures s.Value() == value
  {
    SequenceNumber(value)
  }

  /** The ordering of sequence numbers is that of the integers they wrap. */
  lemma OrderingAgrees(a: u32, b: u32)
    ensures New(a).Less(New(b)) <==> a < b
    ensures New(a) == New(b) <==> a == b
  {
  }

  /** The next of the largest sequence number is 0. */
  lemma NextWrapsOnOverflow()
    ensures New(U32_MAX).Next().Value() == 0
  {
  }

  /** Next moves up the ordering except at the wrap-around, where it falls back to the smallest number. */
  lemma NextOrder(s: SequenceNumber)
    ensures s.Value() < U32_MAX ==> s.Less(s.Next())
    ensures s.Value() == U32_MAX ==> s.Next().Less(s) && s.Next().Value() == 0
  {
  }

  /** The sequence number k steps of Next after s. */
  function Advanced(s: SequenceNumber, k: nat): SequenceNumber {
    if k == 0 then s else Advanced(s, k - 1).Next()
  }

  /** k steps of Next add k modulo 2^32. */
  lemma {:induction false} AdvancedValue(s: SequenceNumber, k: nat)
    ensures Advanced(s, k).Value() as int == (s.Value() as int + k) % 0x1_0000_0000
  {
    if k > 0 {
      AdvancedValue(s, k - 1);
    }
  }
}
