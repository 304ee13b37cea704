/** The ring when each `write` and `read` call runs whole: what one call does to the header
    counters and the slot records, branch by branch. */
module SequentialRing {
  import opened Common

  /** A slot as its getters report it. `data` is the whole payload area. */
  datatype SlotRecord = SlotRecord(
    status: SlotStatus,
    kind: OperationKind,
    size: nat,
    id: seq<byte>,
    timestamp: nat,
    data: seq<byte>)

  datatype Ring = Ring(
    cap: nat,
    producerIdx: nat,
    consumerIdx: nat,
    completed: nat,
    slots: seq<SlotRecord>)

  datatype WriteResult = Wrote(slot: nat) | TooLarge | Full

  const NIL_ID: seq<byte> := [0, 0, 0, 0, 0, 0, 0, 0, 0, 0, 0, 0, 0, 0, 0, 0]

  predicate Usable(r: Ring) {
    && r.producerIdx < |r.slots|
    && r.consumerIdx < |r.slots|
    && (forall x :: 0 <= x < |r.slots| ==> |r.slots[x].data| == r.cap)
  }

  function ResetSlot(s: SlotRecord): SlotRecord {
    SlotRecord(Empty, NoOperation, 0, NIL_ID, 0, s.data)
  }

  /** A slot after `set_operation`, `set_id` and a successful `write_data`. */
  function StoredSlot(s: SlotRecord, m: Message, id: seq<byte>, now: nat): SlotRecord
    requires |m.data| <= |s.data|
  {
    SlotRecord(Ready, m.kind, |m.data|, id, now, m.data + s.data[|m.data|..])
  }

  predicate Available(s: SlotRecord) {
    s.status.Empty? || s.status.Complete?
  }

  /** One attempt of `wait_for_slot`. The producer index moves on before the slot is looked at. */
  function Attempt(r: Ring): (o: (Ring, Option<nat>))
    requires Usable(r)
    ensures Usable(o.0) && |o.0.slots| == |r.slots| && o.0.cap == r.cap
    ensures o.1.Some? ==> o.1.value < |r.slots|
  {
    if AvailableSlots(r.producerIdx, r.consumerIdx, |r.slots|) > 0 then
      var x := r.producerIdx;
      var moved := r.(producerIdx := (r.producerIdx + 1) % |r.slots|);
      if Available(r.slots[x])
      then (moved.(slots := r.slots[x := ResetSlot(r.slots[x])]), Some(x))
      else (moved, None)
    else (r, None)
  }

  /** `wait_for_slot`, having failed `attempt` times so far. */
  function WaitForSlot(r: Ring, attempt: nat): (o: (Ring, Option<nat>))
    requires Usable(r) && attempt <= MAX_ATTEMPTS
    ensures Usable(o.0) && |o.0.slots| == |r.slots| && o.0.cap == r.cap
    ensures o.1.Some? ==> o.1.value < |r.slots|
    decreases |r.slots|, MAX_ATTEMPTS - attempt
  {
    var (tried, claimed) := Attempt(r);
    if claimed.Some? || attempt + 1 > MAX_ATTEMPTS then (tried, claimed)
    else WaitForSlot(tried, attempt + 1)
  }

  function Write(r: Ring, m: Message, id: seq<byte>, now: nat): (o: (Ring, WriteResult))
    requires Usable(r)
    ensures Usable(o.0) && |o.0.slots| == |r.slots| && o.0.cap == r.cap
  {
    if |m.data| > r.cap then (r, TooLarge)
    else
      var (r1, claimed) := WaitForSlot(r, 0);
      match claimed
      case None => (r1, Full)
      case Some(x) => (r1.(slots := r1.slots[x := StoredSlot(r1.slots[x], m, id, now)]), Wrote(x))
  }

  function Read(r: Ring): (o: (Ring, Option<Message>))
    requires Usable(r)
    ensures Usable(o.0) && |o.0.slots| == |r.slots| && o.0.cap == r.cap
  {
    if r.producerIdx == r.consumerIdx then (r, None)
    else
      var x := r.consumerIdx;
      var slot := r.slots[x];
      var moved := r.(consumerIdx := (r.consumerIdx + 1) % |r.slots|);
      if slot.status.Ready? && slot.size <= r.cap then
        (moved.(slots := r.slots[x := slot.(status := Complete)],
                completed := (r.completed + 1) % U64_MODULUS),
         Some(Message(slot.kind, slot.data[..slot.size])))
      else
        (moved.(slots := r.slots[x := ResetSlot(slot)]), None)
  }

  // ---------- runs ----------

  datatype Call = WriteCall(msg: Message, id: seq<byte>, now: nat) | ReadCall

  datatype Outcome = Written(result: WriteResult) | ReadBack(message: Option<Message>)

  function Step(r: Ring, call: Call): (o: (Ring, Outcome))
    requires Usable(r)
    ensures Usable(o.0) && |o.0.slots| == |r.slots| && o.0.cap == r.cap
  {
    match call
    case WriteCall(m, id, now) => var (r', w) := Write(r, m, id, now); (r', Written(w))
    case ReadCall => var (r', m) := Read(r); (r', ReadBack(m))
  }

  /** The ring and the results after making the calls one after the other. */
  function Run(r: Ring, calls: seq<Call>): (o: (Ring, seq<Outcome>))
    requires Usable(r)
    ensures Usable(o.0) && |o.0.slots| == |r.slots| && o.0.cap == r.cap && |o.1| == |calls|
  {
    if |calls| == 0 then (r, [])
    else
      var (r1, outcomes) := Run(r, calls[..|calls| - 1]);
      var (r2, last) := Step(r1, calls[|calls| - 1]);
      (r2, outcomes + [last])
  }

  /** The ring that `create` leaves behind. */
  function Created(n: nat, cap: nat, payload: seq<seq<byte>>): (r: Ring)
    requires n > 0 && |payload| == n
    requires forall x :: 0 <= x < n ==> |payload[x]| == cap
    ensures Usable(r)
  {
    Ring(cap, 0, 0, 0,
         seq(n, x requires 0 <= x < n => SlotRecord(Empty, NoOperation, 0, NIL_ID, 0, payload[x])))
  }

  /** The messages of the writes that were accepted, in call order. */
  function Accepted(calls: seq<Call>, outcomes: seq<Outcome>): seq<Message>
    requires |calls| == |outcomes|
  {
    if |calls| == 0 then []
    else
      var n := |calls| - 1;
      Accepted(calls[..n], outcomes[..n]) +
      (if calls[n].WriteCall? && outcomes[n].Written? && outcomes[n].result.Wrote? then [calls[n].msg] else [])
  }

  /** The messages that reads returned, in call order. */
  function Delivered(outcomes: seq<Outcome>): seq<Message> {
    if |outcomes| == 0 then []
    else
      var n := |outcomes| - 1;
      Delivered(outcomes[..n]) +
      (if outcomes[n].ReadBack? && outcomes[n].message.Some? then [outcomes[n].message.value] else [])
  }
}
