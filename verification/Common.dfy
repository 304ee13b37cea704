/** Values shared by the sequential, byte-level and concurrent models of the ring. */
module Common {

  /** One byte of the mapped region. */
  type byte = x: int | 0 <= x < 256 witness 0

  const U32_MODULUS: nat := 0x1_0000_0000
  const U64_MODULUS: nat := 0x1_0000_0000_0000_0000

  datatype Option<+T> = None | Some(value: T)

  /** Status word of a slot. */
  datatype SlotStatus = Empty | Writing | Ready | Reading | Complete

  /** Kind of operation a slot carries. */
  datatype OperationKind =
    | NoOperation
    | DiskWrite
    | DiskRead
    | NetworkSend
    | NetworkReceive
    | NetworkClose
    | Custom

  /** What a caller hands to `write` and what `read` hands back. */
  datatype Message = Message(kind: OperationKind, data: seq<byte>)

  /** Number of extra attempts `wait_for_slot` makes before it gives up. */
  const MAX_ATTEMPTS: nat := 10

  /** The free-slot estimate that `wait_for_slot` computes from the two wrapped indices. */
  function AvailableSlots(p: nat, c: nat, n: nat): nat
    requires p < n && c < n
  {
    if p >= c then n - (p - c) else c - p
  }

  /** The estimate is the number of places from the producer index on to the consumer index, a whole lap if
      they are equal. So it is never zero and never holds a writer back: the slot status is the only
      back-pressure. */
  lemma AvailableSlotsIsPositive(p: nat, c: nat, n: nat)
    requires p < n && c < n
    ensures 1 <= AvailableSlots(p, c, n) <= n
    ensures p + AvailableSlots(p, c, n) == c || p + AvailableSlots(p, c, n) == c + n
  {
  }
}
