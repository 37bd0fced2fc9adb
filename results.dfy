/**
 * The unit that worker threads publish and the combiner reassembles: a result
 * carrying a 64-bit ordering key, a type tag and a payload.
 */
module Results {
  import opened Uints

  /** The result type tags; only the two tick kinds are treated specially by the sorted combiner. */
  datatype ResultType = ResultPacket | ResultTickInterval | ResultTickCount | ResultUser

  /** Who owns the memory a packet payload lives in. */
  datatype Owner = BufferPool | TraceOwned

  /** The payload union: a packet (by identity and owner) or a scalar such as a tick count. */
  datatype Value = PacketValue(packetId: nat, owner: Owner) | ScalarValue(n: uint64)

  datatype Result = Result(key: uint64, rtype: ResultType, value: Value)

  predicate IsTick(r: Result) {
    r.rtype == ResultTickInterval || r.rtype == ResultTickCount
  }

  /** A result is safe to hold across a pause when it references no pool-owned packet buffer. */
  predicate IsSafe(r: Result) {
    !(r.value.PacketValue? && r.value.owner == BufferPool)
  }

  /**
   * Stand-in for the library's make-safe transform: a packet still living in a
   * buffer pool is copied into trace-owned storage. Key and type never change.
   */
  function MakeSafe(r: Result): (s: Result)
    ensures s.key == r.key && s.rtype == r.rtype
    ensures IsSafe(s)
    ensures IsSafe(r) ==> s == r
  {
    match r.value
    case PacketValue(id, BufferPool) => r.(value := PacketValue(id, TraceOwned))
    case _ => r
  }
}
