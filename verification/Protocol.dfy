/** The ring as a concurrent system: any number of producers calling `write`, one consumer
    calling `read`. Every atomic load, store and compare-exchange of the two calls, and every
    copied payload byte, is one step; steps of different agents interleave arbitrarily over
    sequentially consistent memory. The record also carries history: the list of successful
    producer claims, the number of consumer claims, and what the calls returned. */
module Protocol {
  import opened Common

  /** The part of a slot that `write` and `read` communicate through. */
  datatype Slot = Slot(status: SlotStatus, kind: OperationKind, size: nat, data: seq<byte>)

  /** What a producer does next on the slot index it has claimed. `Copy(k)` copies payload byte k
      or, when all bytes are copied, stores Ready. */
  datatype WriteStage =
    | CheckEmpty
    | CheckComplete
    | ResetStatus
    | ResetKind
    | ResetSize
    | SetKind
    | SetWriting
    | SetSize
    | Copy(k: nat)

  datatype ProducerPc =
    | Idle
    | LoadProducer(msg: Message, attempt: nat)
    | LoadConsumer(msg: Message, attempt: nat, p: nat)
    | LoadCurrent(msg: Message, attempt: nat)
    | TryClaim(msg: Message, attempt: nat, current: nat)
    | Hold(msg: Message, attempt: nat, slot: nat, ticket: nat, stage: WriteStage)

  /** What the consumer does next on the slot index it has claimed. `CopyOut` copies one byte
      or, when `size` bytes are copied, stores Complete; the Drop stages are `reset`. */
  datatype ReadStage =
    | CheckReady
    | LoadKind
    | RecheckReady(kind: OperationKind)
    | SetReading(kind: OperationKind)
    | LoadSize(kind: OperationKind)
    | CopyOut(kind: OperationKind, size: nat, buffer: seq<byte>)
    | Bump(kind: OperationKind, buffer: seq<byte>)
    | Oversize
    | DropStatus
    | DropKind
    | DropSize

  /** `seen` is history: how many claims there were when `p` was loaded. */
  datatype ConsumerPc =
    | Waiting
    | LoadProducerIdx
    | LoadConsumerIdx(p: nat, seen: nat)
    | LoadCurrentIdx
    | TryConsume(current: nat)
    | Take(slot: nat, ticket: nat, stage: ReadStage)

  /** History of one successful producer claim. */
  datatype Ticket = Ticket(pid: nat, msg: Message, slot: nat, published: bool)

  datatype System = System(
    cap: nat,
    producerIdx: nat,
    consumerIdx: nat,
    completed: nat,
    slots: seq<Slot>,
    producers: seq<ProducerPc>,
    consumer: ConsumerPc,
    // history
    tickets: seq<Ticket>,
    consumed: nat,
    calls: seq<seq<Message>>,
    refusals: nat,
    returned: seq<Option<Message>>,
    readyStores: seq<nat>,
    deliveries: seq<nat>)

  /** One scheduling decision. `spurious` lets a weak compare-exchange fail although it could succeed. */
  datatype Label =
    | BeginWrite(pid: nat, msg: Message)
    | WriteStep(pid: nat, spurious: bool)
    | BeginRead
    | ReadStep(spurious: bool)

  // ---------- well-typed states ----------

  predicate ProducerTyped(s: System, pc: ProducerPc) {
    match pc
    case Idle => true
    case LoadConsumer(m, _, p) => |m.data| <= s.cap && p < |s.slots|
    case Hold(m, _, slot, ticket, stage) =>
      && |m.data| <= s.cap && slot < |s.slots| && ticket < |s.tickets|
      && (stage.Copy? ==> stage.k <= |m.data|)
    case _ => |pc.msg.data| <= s.cap
  }

  predicate ConsumerTyped(s: System, pc: ConsumerPc) {
    match pc
    case Take(slot, _, stage) =>
      && slot < |s.slots|
      && (stage.CopyOut? ==> |stage.buffer| <= stage.size <= s.cap)
    case _ => true
  }

  predicate Typed(s: System) {
    && s.producerIdx < |s.slots|
    && s.consumerIdx < |s.slots|
    && |s.calls| == |s.producers|
    && |s.readyStores| == |s.slots|
    && |s.deliveries| == |s.slots|
    && (forall x :: 0 <= x < |s.slots| ==> |s.slots[x].data| == s.cap)
    && (forall i :: 0 <= i < |s.producers| ==> ProducerTyped(s, s.producers[i]))
    && ConsumerTyped(s, s.consumer)
  }

  // ---------- steps of a producer ----------

  function MoveProducer(s: System, i: nat, pc: ProducerPc): (s': System)
    requires Typed(s) && i < |s.producers| && ProducerTyped(s, pc)
    ensures Typed(s')
  {
    s.(producers := s.producers[i := pc])
  }

  /** A store to slot x together with the producer's move. */
  function StoreAsProducer(s: System, i: nat, x: nat, slot: Slot, pc: ProducerPc): (s': System)
    requires Typed(s) && i < |s.producers| && ProducerTyped(s, pc)
    requires x < |s.slots| && |slot.data| == s.cap
    ensures Typed(s')
  {
    s.(slots := s.slots[x := slot], producers := s.producers[i := pc])
  }

  /** The claimed slot was not available: try again, or give up after the eleventh attempt. */
  function FailedAttempt(s: System, i: nat, msg: Message, attempt: nat): (s': System)
    requires Typed(s) && i < |s.producers| && |msg.data| <= s.cap
    ensures Typed(s')
  {
    if attempt + 1 > MAX_ATTEMPTS
    then MoveProducer(s, i, Idle).(refusals := s.refusals + 1)
    else MoveProducer(s, i, LoadProducer(msg, attempt + 1))
  }

  /** The compare-exchange of `next_producer_idx` succeeds. */
  function Claim(s: System, i: nat, msg: Message, attempt: nat): (s': System)
    requires Typed(s) && i < |s.producers| && |msg.data| <= s.cap
    ensures Typed(s')
  {
    s.(producerIdx := (s.producerIdx + 1) % |s.slots|,
       tickets := s.tickets + [Ticket(i, msg, s.producerIdx, false)],
       producers := s.producers[i := Hold(msg, attempt, s.producerIdx, |s.tickets|, CheckEmpty)])
  }

  /** The store of Ready that ends a write. */
  function Publish(s: System, i: nat, x: nat, t: nat): (s': System)
    requires Typed(s) && i < |s.producers| && x < |s.slots| && t < |s.tickets|
    ensures Typed(s')
  {
    StoreAsProducer(s, i, x, s.slots[x].(status := Ready), Idle)
    .(tickets := s.tickets[t := s.tickets[t].(published := true)],
      readyStores := s.readyStores[x := s.readyStores[x] + 1])
  }

  function HoldStep(s: System, i: nat): (s': System)
    requires Typed(s) && i < |s.producers| && s.producers[i].Hold?
    ensures Typed(s')
  {
    var pc := s.producers[i];
    var x, m := pc.slot, pc.msg;
    var slot := s.slots[x];
    match pc.stage
    case CheckEmpty =>
      MoveProducer(s, i, pc.(stage := if slot.status.Empty? then ResetStatus else CheckComplete))
    case CheckComplete =>
      if slot.status.Complete? then MoveProducer(s, i, pc.(stage := ResetStatus))
      else FailedAttempt(s, i, m, pc.attempt)
    case ResetStatus => StoreAsProducer(s, i, x, slot.(status := Empty), pc.(stage := ResetKind))
    case ResetKind => StoreAsProducer(s, i, x, slot.(kind := NoOperation), pc.(stage := ResetSize))
    case ResetSize => StoreAsProducer(s, i, x, slot.(size := 0), pc.(stage := SetKind))
    case SetKind => StoreAsProducer(s, i, x, slot.(kind := m.kind), pc.(stage := SetWriting))
    case SetWriting => StoreAsProducer(s, i, x, slot.(status := Writing), pc.(stage := SetSize))
    case SetSize => StoreAsProducer(s, i, x, slot.(size := |m.data|), pc.(stage := Copy(0)))
    case Copy(k) =>
      if k < |m.data|
      then StoreAsProducer(s, i, x, slot.(data := slot.data[k := m.data[k]]), pc.(stage := Copy(k + 1)))
      else Publish(s, i, x, pc.ticket)
  }

  function ProducerStep(s: System, i: nat, spurious: bool): (s': System)
    requires Typed(s) && i < |s.producers|
    ensures Typed(s')
  {
    match s.producers[i]
    case Idle => s
    case LoadProducer(m, a) => MoveProducer(s, i, LoadConsumer(m, a, s.producerIdx))
    case LoadConsumer(m, a, p) =>
      if AvailableSlots(p, s.consumerIdx, |s.slots|) > 0
      then MoveProducer(s, i, LoadCurrent(m, a))
      else FailedAttempt(s, i, m, a)
    case LoadCurrent(m, a) => MoveProducer(s, i, TryClaim(m, a, s.producerIdx))
    case TryClaim(m, a, current) =>
      if current == s.producerIdx && !spurious then Claim(s, i, m, a)
      else MoveProducer(s, i, TryClaim(m, a, s.producerIdx))
    case Hold(_, _, _, _, _) => HoldStep(s, i)
  }

  /** A call of `write`: oversized data is rejected before any access to the ring. */
  function StartWrite(s: System, i: nat, msg: Message): (s': System)
    requires Typed(s) && i < |s.producers|
    ensures Typed(s')
  {
    if !s.producers[i].Idle? || |msg.data| > s.cap then s
    else MoveProducer(s, i, LoadProducer(msg, 0)).(calls := s.calls[i := s.calls[i] + [msg]])
  }

  // ---------- steps of the consumer ----------

  function MoveConsumer(s: System, pc: ConsumerPc): (s': System)
    requires Typed(s) && ConsumerTyped(s, pc)
    ensures Typed(s')
  {
    s.(consumer := pc)
  }

  function StoreAsConsumer(s: System, x: nat, slot: Slot, pc: ConsumerPc): (s': System)
    requires Typed(s) && ConsumerTyped(s, pc) && x < |s.slots| && |slot.data| == s.cap
    ensures Typed(s')
  {
    s.(slots := s.slots[x := slot], consumer := pc)
  }

  function Return(s: System, r: Option<Message>): (s': System)
    requires Typed(s)
    ensures Typed(s')
  {
    MoveConsumer(s, Waiting).(returned := s.returned + [r])
  }

  /** The compare-exchange of `next_consumer_idx` succeeds. */
  function Consume(s: System): (s': System)
    requires Typed(s)
    ensures Typed(s')
  {
    s.(consumerIdx := (s.consumerIdx + 1) % |s.slots|,
       consumed := s.consumed + 1,
       consumer := Take(s.consumerIdx, s.consumed, CheckReady))
  }

  function TakeStep(s: System): (s': System)
    requires Typed(s) && s.consumer.Take?
    ensures Typed(s')
  {
    var pc := s.consumer;
    var x := pc.slot;
    var slot := s.slots[x];
    match pc.stage
    case CheckReady => MoveConsumer(s, pc.(stage := if slot.status.Ready? then LoadKind else DropStatus))
    case LoadKind => MoveConsumer(s, pc.(stage := RecheckReady(slot.kind)))
    case RecheckReady(kind) =>
      MoveConsumer(s, pc.(stage := if slot.status.Ready? then SetReading(kind) else DropStatus))
    case SetReading(kind) => StoreAsConsumer(s, x, slot.(status := Reading), pc.(stage := LoadSize(kind)))
    case LoadSize(kind) =>
      MoveConsumer(s, pc.(stage := if slot.size > s.cap then Oversize else CopyOut(kind, slot.size, [])))
    case CopyOut(kind, size, buffer) =>
      if |buffer| < size
      then MoveConsumer(s, pc.(stage := CopyOut(kind, size, buffer + [slot.data[|buffer|]])))
      else StoreAsConsumer(s, x, slot.(status := Complete), pc.(stage := Bump(kind, buffer)))
    case Bump(kind, buffer) =>
      Return(s, Some(Message(kind, buffer)))
      .(completed := (s.completed + 1) % U64_MODULUS,
        deliveries := s.deliveries[x := s.deliveries[x] + 1])
    case Oversize => StoreAsConsumer(s, x, slot.(status := Complete), pc.(stage := DropStatus))
    case DropStatus => StoreAsConsumer(s, x, slot.(status := Empty), pc.(stage := DropKind))
    case DropKind => StoreAsConsumer(s, x, slot.(kind := NoOperation), pc.(stage := DropSize))
    case DropSize => Return(StoreAsConsumer(s, x, slot.(size := 0), pc), None)
  }

  function ConsumerStep(s: System, spurious: bool): (s': System)
    requires Typed(s)
    ensures Typed(s')
  {
    match s.consumer
    case Waiting => s
    case LoadProducerIdx => MoveConsumer(s, LoadConsumerIdx(s.producerIdx, |s.tickets|))
    case LoadConsumerIdx(p, _) =>
      if p == s.consumerIdx then Return(s, None) else MoveConsumer(s, LoadCurrentIdx)
    case LoadCurrentIdx => MoveConsumer(s, TryConsume(s.consumerIdx))
    case TryConsume(current) =>
      if current == s.consumerIdx && !spurious then Consume(s)
      else MoveConsumer(s, TryConsume(s.consumerIdx))
    case Take(_, _, _) => TakeStep(s)
  }

  // ---------- runs ----------

  function Step(s: System, l: Label): (s': System)
    requires Typed(s)
    ensures Typed(s')
  {
    match l
    case BeginWrite(i, msg) => if i < |s.producers| then StartWrite(s, i, msg) else s
    case WriteStep(i, spurious) => if i < |s.producers| then ProducerStep(s, i, spurious) else s
    case BeginRead => if s.consumer.Waiting? then MoveConsumer(s, LoadProducerIdx) else s
    case ReadStep(spurious) => ConsumerStep(s, spurious)
  }

  /** The state after scheduling the labels from left to right. */
  function Exec(s: System, labels: seq<Label>): (s': System)
    requires Typed(s)
    ensures Typed(s')
  {
    if |labels| == 0 then s
    else Step(Exec(s, labels[..|labels| - 1]), labels[|labels| - 1])
  }

  lemma {:induction false} ExecConcat(s: System, a: seq<Label>, b: seq<Label>)
    requires Typed(s)
    ensures Exec(s, a + b) == Exec(Exec(s, a), b)
  {
    if |b| == 0 {
      assert a + b == a;
    } else {
      assert (a + b)[..|a + b| - 1] == a + b[..|b| - 1];
      ExecConcat(s, a, b[..|b| - 1]);
    }
  }

  /** A freshly created ring with n slots of cap payload bytes and k idle producers. The payload
      area holds whatever bytes the mapping held. */
  function Created(n: nat, cap: nat, k: nat, payload: seq<seq<byte>>): (s: System)
    requires n > 0 && |payload| == n
    requires forall x :: 0 <= x < n ==> |payload[x]| == cap
    ensures Typed(s)
  {
    System(cap, 0, 0, 0,
           seq(n, x requires 0 <= x < n => Slot(Empty, NoOperation, 0, payload[x])),
           seq(k, _ => Idle), Waiting,
           [], 0, seq(k, _ => []), 0, [], seq(n, _ => 0), seq(n, _ => 0))
  }
}
