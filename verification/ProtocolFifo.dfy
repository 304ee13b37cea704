/** The ring as a first-in first-out queue under every interleaving that meets two conditions, both
    about a look at a slot's status. When a producer's check of the slot it has claimed is decided,
    the ticket that had the slot before must be done with; when the consumer looks at the slot it has
    claimed, that ticket's producer must have stored Ready. How far claims run ahead does not matter.
    `ProtocolExact` proves in which sense the two conditions are necessary as well. */
module ProtocolFifo {
  import opened Common
  import opened Residues
  import opened Protocol
  import opened ProtocolTickets

  // ---------- the two conditions ----------

  predicate ProducerClaims(s: System, l: Label) {
    && l.WriteStep? && l.pid < |s.producers| && s.producers[l.pid].TryClaim?
    && s.producers[l.pid].current == s.producerIdx && !l.spurious
  }

  predicate ConsumerClaims(s: System, l: Label) {
    l.ReadStep? && s.consumer.TryConsume? && s.consumer.current == s.consumerIdx && !l.spurious
  }

  /** The oldest ticket whose slot is not done with: the one being read, up to the store of Complete,
      else the next to be read. */
  function Low(s: System): int {
    if s.consumer.Take? && !s.consumer.stage.Bump? then s.consumed - 1 else s.consumed
  }

  /** The tickets whose read has returned. */
  function Answered(s: System): int {
    if s.consumer.Take? then s.consumed - 1 else s.consumed
  }

  /** The status check of a claimed slot is decided by this step: it finds Empty, or it finds or does
      not find Complete. */
  predicate Decides(s: System, l: Label) {
    && l.WriteStep? && l.pid < |s.producers| && s.producers[l.pid].Hold? && s.producers[l.pid].slot < |s.slots|
    && ((s.producers[l.pid].stage.CheckEmpty? && s.slots[s.producers[l.pid].slot].status.Empty?)
        || s.producers[l.pid].stage.CheckComplete?)
  }

  /** The ticket is among the n oldest that are not done with, so its slot is its own. */
  predicate KeepsWindow(s: System, l: Label) {
    Decides(s, l) ==> s.producers[l.pid].ticket < Low(s) + |s.slots|
  }

  predicate Published(s: System, t: nat) {
    t < |s.tickets| && s.tickets[t].published
  }

  /** The first look of `read` at the status of the slot it has claimed. */
  predicate Looks(s: System, l: Label) {
    l.ReadStep? && s.consumer.Take? && s.consumer.stage.CheckReady?
  }

  predicate LooksInTime(s: System, l: Label) {
    Looks(s, l) ==> Published(s, s.consumer.ticket)
  }

  /** The two conditions, asked of one scheduled step. */
  predicate Allowed(s: System, l: Label) {
    KeepsWindow(s, l) && LooksInTime(s, l)
  }

  /** Every decided check of the schedule keeps the window. */
  predicate Windowed(s: System, labels: seq<Label>)
    requires Typed(s)
  {
    |labels| > 0 ==>
      && Windowed(s, labels[..|labels| - 1])
      && KeepsWindow(Exec(s, labels[..|labels| - 1]), labels[|labels| - 1])
  }

  /** Every look of the schedule finds its ticket published. */
  predicate InTime(s: System, labels: seq<Label>)
    requires Typed(s)
  {
    |labels| > 0 ==>
      && InTime(s, labels[..|labels| - 1])
      && LooksInTime(Exec(s, labels[..|labels| - 1]), labels[|labels| - 1])
  }

  predicate Disciplined(s: System, labels: seq<Label>)
    requires Typed(s)
  {
    Windowed(s, labels) && InTime(s, labels)
  }

  // ---------- what a slot holds ----------

  predicate Free(slot: Slot) {
    slot.status.Empty? || slot.status.Complete?
  }

  /** Kind, size and the first `size` payload bytes of the slot are those of m. */
  predicate Carries(slot: Slot, m: Message) {
    && slot.kind == m.kind
    && slot.size == |m.data| <= |slot.data|
    && slot.data[..|m.data|] == m.data
  }

  /** How far the producer of m has got with its slot. */
  predicate InProgress(slot: Slot, m: Message, stage: WriteStage) {
    match stage
    case CheckEmpty => Free(slot)
    case CheckComplete => slot.status.Complete?
    case ResetStatus => Free(slot)
    case ResetKind => slot.status.Empty?
    case ResetSize => slot.status.Empty?
    case SetKind => slot.status.Empty?
    case SetWriting => slot.status.Empty? && slot.kind == m.kind
    case SetSize => slot.status.Writing? && slot.kind == m.kind
    case Copy(k) =>
      && slot.status.Writing? && slot.kind == m.kind && slot.size == |m.data|
      && k <= |m.data| <= |slot.data| && slot.data[..k] == m.data[..k]
  }

  /** How far the consumer has got with the slot that holds m. */
  predicate BeingTaken(slot: Slot, m: Message, stage: ReadStage) {
    match stage
    case CheckReady => slot.status.Ready? && Carries(slot, m)
    case LoadKind => slot.status.Ready? && Carries(slot, m)
    case RecheckReady(kind) => slot.status.Ready? && Carries(slot, m) && kind == m.kind
    case SetReading(kind) => slot.status.Ready? && Carries(slot, m) && kind == m.kind
    case LoadSize(kind) => slot.status.Reading? && Carries(slot, m) && kind == m.kind
    case CopyOut(kind, size, buffer) =>
      && slot.status.Reading? && Carries(slot, m) && kind == m.kind
      && |buffer| <= size == |m.data| && buffer == m.data[..|buffer|]
    case Bump(kind, buffer) => kind == m.kind && buffer == m.data
    case _ => false
  }

  // ---------- the invariant ----------

  /** t is one of the n oldest tickets that are not done with. */
  predicate InWindow(s: System, t: int) {
    0 <= Low(s) <= t < |s.tickets| && t < Low(s) + |s.slots|
  }

  /** A producer that has claimed a slot and not yet passed its check. */
  predicate Checking(stage: WriteStage) {
    stage.CheckEmpty? || stage.CheckComplete?
  }

  /** Slot x belongs to no ticket in the window. */
  ghost predicate Unclaimed(s: System, x: nat) {
    forall t :: InWindow(s, t) ==> s.tickets[t].slot != x
  }

  ghost predicate TicketOk(s: System, t: nat)
    requires Typed(s) && TicketDiscipline(s) && t < |s.tickets|
  {
    var k := s.tickets[t];
    if k.published then
      && t < Low(s) + |s.slots|
      && (s.consumed <= t ==> s.slots[k.slot].status.Ready? && Carries(s.slots[k.slot], k.msg))
    else
      && Low(s) <= t
      && (s.consumer.Take? && t < s.consumed ==> s.consumer.stage.CheckReady?)
      && k.pid < |s.producers|
      && s.producers[k.pid].Hold? && s.producers[k.pid].ticket == t
      && (if t < Low(s) + |s.slots|
          then InProgress(s.slots[k.slot], k.msg, s.producers[k.pid].stage)
          else Checking(s.producers[k.pid].stage))
  }

  predicate ProducerOk(s: System, pc: ProducerPc) {
    match pc
    case Idle => true
    case Hold(_, a, _, ticket, _) =>
      a == 0 && ticket < |s.tickets| && Low(s) <= ticket && !s.tickets[ticket].published
    case _ => pc.attempt == 0
  }

  predicate ConsumerOk(s: System)
    requires Typed(s)
  {
    s.consumer.Take? ==>
      && s.consumer.ticket < |s.tickets|
      && (if s.tickets[s.consumer.ticket].published
          then BeingTaken(s.slots[s.consumer.slot], s.tickets[s.consumer.ticket].msg, s.consumer.stage)
          else s.consumer.stage.CheckReady?)
  }

  /** The messages in the order their producers won the compare-exchange. */
  function ClaimOrder(tickets: seq<Ticket>): (r: seq<Message>)
    ensures |r| == |tickets|
    ensures forall t :: 0 <= t < |tickets| ==> r[t] == tickets[t].msg
  {
    seq(|tickets|, t requires 0 <= t < |tickets| => tickets[t].msg)
  }

  ghost predicate FifoInv(s: System) {
    && Typed(s) && TicketDiscipline(s)
    && (forall t :: 0 <= t < |s.tickets| ==> TicketOk(s, t))
    && (forall i :: 0 <= i < |s.producers| ==> ProducerOk(s, s.producers[i]))
    && ConsumerOk(s)
    && (forall x :: 0 <= x < |s.slots| && Unclaimed(s, x) ==> Free(s.slots[x]))
    && Delivered(s.returned) == ClaimOrder(s.tickets)[..Answered(s)]
    && s.refusals == 0
  }

  /** Tickets in the window occupy pairwise different slots. */
  lemma WindowSlotsDiffer(s: System, t: int, u: int)
    requires FifoInv(s) && InWindow(s, t) && InWindow(s, u) && t != u
    ensures s.tickets[t].slot != s.tickets[u].slot
  {
    if t < u {
      CloseNumbersDiffer(t, u, |s.slots|);
    } else {
      CloseNumbersDiffer(u, t, |s.slots|);
    }
  }

  /** The slot of the consumer belongs to its own ticket and to no other. */
  lemma ConsumerUndisturbed(s: System, t: nat)
    requires FifoInv(s) && InWindow(s, t)
    ensures s.consumer.Take? ==> s.consumer.slot == s.tickets[s.consumer.ticket].slot
    ensures s.consumer.Take? && !s.consumer.stage.Bump? && t != s.consumer.ticket ==>
              s.consumer.slot != s.tickets[t].slot
  {
    if s.consumer.Take? && !s.consumer.stage.Bump? && t != s.consumer.ticket {
      WindowSlotsDiffer(s, s.consumer.ticket, t);
    }
  }

  // ---------- producer steps ----------

  lemma ProducerMoves(s: System, i: nat, spurious: bool)
    requires FifoInv(s) && i < |s.producers| && !s.producers[i].Hold?
    requires !ProducerClaims(s, WriteStep(i, spurious))
    ensures FifoInv(ProducerStep(s, i, spurious))
  {
    var s' := ProducerStep(s, i, spurious);
    ProducerKeepsTickets(s, i, spurious);
    if s.producers[i].LoadConsumer? {
      AvailableSlotsIsPositive(s.producers[i].p, s.consumerIdx, |s.slots|);
    }
    assert ProducerOk(s, s.producers[i]);
    hide Typed, ProducerTyped, ConsumerTyped, InProgress, BeingTaken, Carries, ConsumerTicket;
    forall t | 0 <= t < |s'.tickets|
      ensures TicketOk(s', t)
    {
      assert TicketOk(s, t);
    }
    forall x | 0 <= x < |s'.slots| && Unclaimed(s', x)
      ensures Free(s'.slots[x])
    {
      assert forall t :: InWindow(s, t) ==> InWindow(s', t);
      assert Unclaimed(s, x);
    }
  }

  /** A claim inside the window finds the slot unused; one beyond it has to wait for its check. */
  lemma ProducerWins(s: System, i: nat)
    requires FifoInv(s) && ProducerClaims(s, WriteStep(i, false))
    ensures FifoInv(ProducerStep(s, i, false))
  {
    var s' := ProducerStep(s, i, false);
    var p := |s.tickets|;
    ProducerKeepsTickets(s, i, false);
    assert s' == Claim(s, i, s.producers[i].msg, s.producers[i].attempt);
    hide Typed, ProducerTyped, ConsumerTyped, ProducerStep, BeingTaken, Carries, ConsumerTicket;
    assert ProducerOk(s, s.producers[i]);
    if p < Low(s) + |s.slots| {
      forall t | InWindow(s, t)
        ensures s.tickets[t].slot != s.producerIdx
      {
        CloseNumbersDiffer(t, p, |s.slots|);
      }
      assert Unclaimed(s, s.producerIdx);
    }
    forall t | 0 <= t < |s'.tickets|
      ensures TicketOk(s', t)
    {
      if t < p { assert TicketOk(s, t); }
    }
    forall x | 0 <= x < |s'.slots| && Unclaimed(s', x)
      ensures Free(s'.slots[x])
    {
      forall t | InWindow(s, t)
        ensures s.tickets[t].slot != x
      {
        assert InWindow(s', t);
      }
      assert Unclaimed(s, x);
    }
    assert ClaimOrder(s'.tickets)[..Answered(s)] == ClaimOrder(s.tickets)[..Answered(s)];
  }

  /** A store of producer i to its own slot keeps every ticket's slot as it should be. */
  lemma StoreKeepsTicket(s: System, i: nat, slot: Slot, stage: WriteStage, t: nat)
    requires FifoInv(s) && i < |s.producers| && s.producers[i].Hold? && t < |s.tickets|
    requires InWindow(s, s.producers[i].ticket)
    requires s.producers[i].slot < |s.slots| && |slot.data| == s.cap
    requires ProducerTyped(s, s.producers[i].(stage := stage))
    requires InProgress(slot, s.producers[i].msg, stage)
    requires TicketDiscipline(StoreAsProducer(s, i, s.producers[i].slot, slot, s.producers[i].(stage := stage)))
    ensures TicketOk(StoreAsProducer(s, i, s.producers[i].slot, slot, s.producers[i].(stage := stage)), t)
  {
    var pc := s.producers[i];
    assert ProducerOk(s, pc) && ProducerTicket(s, i);
    assert TicketOk(s, t) && TicketOk(s, pc.ticket);
    if InWindow(s, t) && t != pc.ticket {
      WindowSlotsDiffer(s, t, pc.ticket);
    }
    hide FifoInv, Typed, ProducerTyped, ConsumerTyped, InProgress, Carries, TicketDiscipline;
  }

  /** The ticket a producer holds is not published, and in the window if the check is passed. */
  lemma HeldTicket(s: System, i: nat)
    requires FifoInv(s) && i < |s.producers| && s.producers[i].Hold?
    ensures var pc := s.producers[i];
            && 0 <= Low(s) <= pc.ticket < |s.tickets| && s.tickets[pc.ticket].slot == pc.slot < |s.slots|
            && s.tickets[pc.ticket].pid == i && s.tickets[pc.ticket].msg == pc.msg
            && !s.tickets[pc.ticket].published
            && (if InWindow(s, pc.ticket) then InProgress(s.slots[pc.slot], pc.msg, pc.stage) else Checking(pc.stage))
  {
    assert ConsumerTicket(s);
    assert ProducerOk(s, s.producers[i]) && ProducerTicket(s, i);
    assert TicketOk(s, s.producers[i].ticket);
  }

  /** What a step of a holder in the window does, short of the final store: one stage further on its own slot. */
  lemma HolderStores(s: System, i: nat) returns (slot: Slot, stage: WriteStage)
    requires FifoInv(s) && i < |s.producers| && s.producers[i].Hold? && InWindow(s, s.producers[i].ticket)
    requires s.producers[i].stage.Copy? ==> s.producers[i].stage.k < |s.producers[i].msg.data|
    ensures var pc := s.producers[i];
            && ProducerTyped(s, pc.(stage := stage)) && |slot.data| == s.cap
            && InProgress(slot, pc.msg, stage)
            && HoldStep(s, i) == StoreAsProducer(s, i, pc.slot, slot, pc.(stage := stage))
  {
    var pc := s.producers[i];
    HeldTicket(s, i);
    assert ProducerTyped(s, pc) && |s.slots[pc.slot].data| == s.cap;
    hide FifoInv, Typed, ConsumerTyped;
    var s' := HoldStep(s, i);
    assert s.slots[pc.slot := s.slots[pc.slot]] == s.slots;
    slot, stage := s'.slots[pc.slot], s'.producers[i].stage;
    assert InProgress(slot, pc.msg, stage);
    assert s' == StoreAsProducer(s, i, pc.slot, slot, pc.(stage := stage));
  }

  /** It does not touch the slot being read, and a consumer waiting to look at its ticket still waits. */
  lemma StoreKeepsConsumer(s: System, i: nat, slot: Slot, stage: WriteStage)
    requires FifoInv(s) && i < |s.producers| && s.producers[i].Hold? && InWindow(s, s.producers[i].ticket)
    requires s.producers[i].slot < |s.slots| && |slot.data| == s.cap
    requires ProducerTyped(s, s.producers[i].(stage := stage))
    ensures ConsumerOk(StoreAsProducer(s, i, s.producers[i].slot, slot, s.producers[i].(stage := stage)))
  {
    HeldTicket(s, i);
    ConsumerUndisturbed(s, s.producers[i].ticket);
    assert ConsumerOk(s);
    hide FifoInv, Typed, ProducerTyped, ConsumerTyped, InProgress, BeingTaken, TicketDiscipline;
  }

  /** Beyond the window a check can only find the slot not Empty and go on to the second look. */
  lemma HolderWaits(s: System, i: nat)
    requires FifoInv(s) && i < |s.producers| && s.producers[i].Hold? && !InWindow(s, s.producers[i].ticket)
    requires KeepsWindow(s, WriteStep(i, false))
    ensures FifoInv(ProducerStep(s, i, false))
  {
    var pc := s.producers[i];
    HeldTicket(s, i);
    var s' := ProducerStep(s, i, false);
    ProducerKeepsTickets(s, i, false);
    assert pc.stage.CheckEmpty? && s' == MoveProducer(s, i, pc.(stage := CheckComplete));
    assert ProducerOk(s, pc);
    hide Typed, ProducerTyped, ConsumerTyped, ProducerStep, HoldStep, InProgress, BeingTaken, Carries, ConsumerTicket;
    forall t | 0 <= t < |s'.tickets|
      ensures TicketOk(s', t)
    {
      assert TicketOk(s, t);
    }
    forall x | 0 <= x < |s'.slots| && Unclaimed(s', x)
      ensures Free(s'.slots[x])
    {
      assert forall t :: InWindow(s, t) ==> InWindow(s', t);
      assert Unclaimed(s, x);
    }
  }

  lemma HolderKeepsFifo(s: System, i: nat)
    requires FifoInv(s) && i < |s.producers| && s.producers[i].Hold? && InWindow(s, s.producers[i].ticket)
    requires s.producers[i].stage.Copy? ==> s.producers[i].stage.k < |s.producers[i].msg.data|
    ensures FifoInv(ProducerStep(s, i, false))
  {
    var pc := s.producers[i];
    var x := pc.slot;
    var slot, stage := HolderStores(s, i);
    var s' := StoreAsProducer(s, i, x, slot, pc.(stage := stage));
    ProducerKeepsTickets(s, i, false);
    assert ProducerStep(s, i, false) == s';
    HeldTicket(s, i);
    StoreKeepsConsumer(s, i, slot, stage);
    forall t | 0 <= t < |s'.tickets|
      ensures TicketOk(s', t)
    {
      StoreKeepsTicket(s, i, slot, stage, t);
    }
    hide TicketOk, ConsumerOk, Typed, ProducerTyped, ConsumerTyped, ProducerStep, HoldStep, InProgress, BeingTaken, TicketDiscipline;
    forall y | 0 <= y < |s'.slots| && Unclaimed(s', y)
      ensures Free(s'.slots[y])
    {
      assert InWindow(s', pc.ticket);
      assert forall t :: InWindow(s, t) ==> InWindow(s', t);
      assert Unclaimed(s, y);
    }
  }

  /** Publishing completes one ticket and leaves the others as they were. */
  lemma PublishKeepsTicket(s: System, i: nat, t: nat)
    requires FifoInv(s) && i < |s.producers| && s.producers[i].Hold? && t < |s.tickets|
    requires s.producers[i].stage.Copy? && s.producers[i].stage.k == |s.producers[i].msg.data|
    requires TicketDiscipline(ProducerStep(s, i, false))
    ensures TicketOk(ProducerStep(s, i, false), t)
  {
    var pc := s.producers[i];
    assert ProducerOk(s, pc) && ProducerTicket(s, i);
    assert TicketOk(s, pc.ticket) && TicketOk(s, t);
    assert pc.msg.data[..|pc.msg.data|] == pc.msg.data;
    if InWindow(s, t) && t != pc.ticket {
      WindowSlotsDiffer(s, t, pc.ticket);
    }
    assert ProducerStep(s, i, false) == Publish(s, i, pc.slot, pc.ticket) && pc.slot < |s.slots|;
    hide FifoInv, Typed, ProducerTyped, ConsumerTyped, ProducerStep, HoldStep, TicketDiscipline;
  }

  /** A consumer that was waiting to look at this ticket will find it Ready. */
  lemma PublishKeepsConsumer(s: System, i: nat)
    requires FifoInv(s) && i < |s.producers| && s.producers[i].Hold?
    requires s.producers[i].stage.Copy? && s.producers[i].stage.k == |s.producers[i].msg.data|
    ensures ConsumerOk(ProducerStep(s, i, false))
  {
    var pc := s.producers[i];
    HeldTicket(s, i);
    ConsumerUndisturbed(s, pc.ticket);
    assert ConsumerOk(s);
    assert pc.msg.data[..|pc.msg.data|] == pc.msg.data;
    assert ProducerStep(s, i, false) == Publish(s, i, pc.slot, pc.ticket) && pc.slot < |s.slots|;
    hide FifoInv, Typed, ProducerTyped, ConsumerTyped, ProducerStep, HoldStep, TicketDiscipline;
  }

  lemma HolderPublishes(s: System, i: nat)
    requires FifoInv(s) && i < |s.producers| && s.producers[i].Hold?
    requires s.producers[i].stage.Copy? && s.producers[i].stage.k == |s.producers[i].msg.data|
    ensures FifoInv(ProducerStep(s, i, false))
  {
    var pc := s.producers[i];
    var s' := ProducerStep(s, i, false);
    ProducerKeepsTickets(s, i, false);
    HeldTicket(s, i);
    assert s' == Publish(s, i, pc.slot, pc.ticket);
    PublishKeepsConsumer(s, i);
    forall t | 0 <= t < |s'.tickets|
      ensures TicketOk(s', t)
    {
      PublishKeepsTicket(s, i, t);
    }
    hide TicketOk, ConsumerOk, InProgress, Typed, ProducerTyped, ConsumerTyped, ProducerStep, HoldStep, TicketDiscipline;
    forall j | 0 <= j < |s'.producers|
      ensures ProducerOk(s', s'.producers[j])
    {
      assert ProducerOk(s, s.producers[j]);
      OnlyHolder(s, i, j);
    }
    forall y | 0 <= y < |s'.slots| && Unclaimed(s', y)
      ensures Free(s'.slots[y])
    {
      assert InWindow(s', pc.ticket);
      forall t | InWindow(s, t)
        ensures s.tickets[t].slot != y
      {
        assert InWindow(s', t);
      }
      assert Unclaimed(s, y);
    }
    assert ClaimOrder(s'.tickets) == ClaimOrder(s.tickets);
  }

  /** A ticket is held by one producer only. */
  lemma OnlyHolder(s: System, i: nat, j: nat)
    requires FifoInv(s) && i < |s.producers| && j < |s.producers|
    ensures s.producers[i].Hold? && s.producers[j].Hold? && s.producers[i].ticket == s.producers[j].ticket ==> i == j
    ensures s.producers[i].Hold? ==> s.producers[i].ticket < |s.tickets| && s.tickets[s.producers[i].ticket].slot == s.producers[i].slot
  {
    assert ProducerTicket(s, i) && ProducerTicket(s, j);
  }

  lemma ProducerKeepsFifo(s: System, i: nat, spurious: bool)
    requires FifoInv(s) && i < |s.producers| && Allowed(s, WriteStep(i, spurious))
    ensures FifoInv(ProducerStep(s, i, spurious))
  {
    if s.producers[i].Hold? {
      assert ProducerStep(s, i, spurious) == ProducerStep(s, i, false);
      if s.producers[i].stage.Copy? && s.producers[i].stage.k == |s.producers[i].msg.data| {
        HolderPublishes(s, i);
      } else if InWindow(s, s.producers[i].ticket) {
        HolderKeepsFifo(s, i);
      } else {
        HolderWaits(s, i);
      }
    } else if ProducerClaims(s, WriteStep(i, spurious)) {
      ProducerWins(s, i);
    } else {
      ProducerMoves(s, i, spurious);
    }
  }

  // ---------- consumer steps ----------

  lemma ConsumerMoves(s: System, spurious: bool)
    requires FifoInv(s) && !s.consumer.Take? && !ConsumerClaims(s, ReadStep(spurious))
    ensures FifoInv(ConsumerStep(s, spurious))
  {
    var s' := ConsumerStep(s, spurious);
    ConsumerKeepsTickets(s, spurious);
    DeliveredSnoc(s.returned, None);
    forall t | 0 <= t < |s'.tickets|
      ensures TicketOk(s', t)
    {
      assert TicketOk(s, t);
    }
    forall y | 0 <= y < |s'.slots| && Unclaimed(s', y)
      ensures Free(s'.slots[y])
    {
      assert forall t :: InWindow(s, t) ==> InWindow(s', t);
      assert Unclaimed(s, y);
    }
  }

  lemma ConsumerWins(s: System)
    requires FifoInv(s) && ConsumerClaims(s, ReadStep(false)) && Allowed(s, ReadStep(false))
    ensures FifoInv(ConsumerStep(s, false))
  {
    var s' := ConsumerStep(s, false);
    ConsumerKeepsTickets(s, false);
    assert TicketOk(s, s.consumed);
    forall t | 0 <= t < |s'.tickets|
      ensures TicketOk(s', t)
    {
      assert TicketOk(s, t);
    }
    forall j | 0 <= j < |s'.producers|
      ensures ProducerOk(s', s'.producers[j])
    {
      assert ProducerOk(s, s.producers[j]);
    }
    forall y | 0 <= y < |s'.slots| && Unclaimed(s', y)
      ensures Free(s'.slots[y])
    {
      assert forall t :: InWindow(s, t) ==> InWindow(s', t);
      assert Unclaimed(s, y);
    }
  }

  /** A stage of reading other than the return: one stage further on the slot being read. */
  lemma TakerStores(s: System) returns (slot: Slot, stage: ReadStage)
    requires Typed(s) && s.consumer.Take? && !s.consumer.stage.Bump?
    requires s.consumer.slot < |s.slots| && s.consumer.ticket < |s.tickets|
    requires BeingTaken(s.slots[s.consumer.slot], s.tickets[s.consumer.ticket].msg, s.consumer.stage)
    ensures var pc := s.consumer;
            && ConsumerTyped(s, pc.(stage := stage)) && |slot.data| == s.cap
            && BeingTaken(slot, s.tickets[pc.ticket].msg, stage)
            && TakeStep(s) == StoreAsConsumer(s, pc.slot, slot, pc.(stage := stage))
  {
    var pc := s.consumer;
    var s' := TakeStep(s);
    assert s.slots[pc.slot := s.slots[pc.slot]] == s.slots;
    var m := s.tickets[pc.ticket].msg;
    assert ConsumerTyped(s, pc);
    hide Typed, ProducerTyped;
    assert m.data[..|m.data|] == m.data;
    slot, stage := s'.slots[pc.slot], s'.consumer.stage;
    if pc.stage.CopyOut? && |pc.stage.buffer| < pc.stage.size {
      var k := |pc.stage.buffer|;
      assert s.slots[pc.slot].data[k] == s.slots[pc.slot].data[..|m.data|][k];
      assert m.data[..k] + [m.data[k]] == m.data[..k + 1];
    }
    assert BeingTaken(slot, m, stage);
    assert s' == StoreAsConsumer(s, pc.slot, slot, pc.(stage := stage));
  }

  lemma TakerKeepsFifo(s: System)
    requires FifoInv(s) && s.consumer.Take? && !s.consumer.stage.Bump? && LooksInTime(s, ReadStep(false))
    requires s.consumer.stage.CopyOut? ==> |s.consumer.stage.buffer| < s.consumer.stage.size
    ensures FifoInv(ConsumerStep(s, false))
  {
    var pc := s.consumer;
    assert ConsumerOk(s) && pc.slot < |s.slots|;
    var slot, stage := TakerStores(s);
    var s' := StoreAsConsumer(s, pc.slot, slot, pc.(stage := stage));
    ConsumerKeepsTickets(s, false);
    assert ConsumerStep(s, false) == s';
    assert ConsumerOk(s');
    assert InWindow(s, pc.ticket) && s.tickets[pc.ticket].slot == pc.slot;
    assert s.tickets[pc.ticket].published && !stage.Bump?;
    hide ConsumerStep, TakeStep, InProgress, BeingTaken, Carries, ConsumerOk, Typed, ProducerTyped, ConsumerTyped, TicketDiscipline;
    forall t | 0 <= t < |s'.tickets|
      ensures TicketOk(s', t)
    {
      assert TicketOk(s, t);
      if InWindow(s, t) { ConsumerUndisturbed(s, t); }
    }
    forall y | 0 <= y < |s'.slots| && Unclaimed(s', y)
      ensures Free(s'.slots[y])
    {
      assert InWindow(s', pc.ticket);
      assert forall t :: InWindow(s, t) ==> InWindow(s', t);
      assert Unclaimed(s, y);
    }
  }

  /** The store of Complete ends the use of the slot, so the ticket one lap on enters the window. */
  lemma CompleteKeepsTicket(s: System, t: nat)
    requires FifoInv(s) && s.consumer.Take? && s.consumer.stage.CopyOut? && t < |s.tickets|
    requires |s.consumer.stage.buffer| == s.consumer.stage.size
    requires TicketDiscipline(ConsumerStep(s, false))
    ensures TicketOk(ConsumerStep(s, false), t)
  {
    var pc := s.consumer;
    assert TicketOk(s, t) && ConsumerOk(s) && ConsumerTicket(s) && pc.slot < |s.slots|;
    var slot := s.slots[pc.slot].(status := Complete);
    assert ConsumerStep(s, false) == StoreAsConsumer(s, pc.slot, slot, pc.(stage := Bump(pc.stage.kind, pc.stage.buffer)));
    if InWindow(s, t) {
      ConsumerUndisturbed(s, t);
    } else if t == Low(s) + |s.slots| {
      OneLapOn(Low(s), |s.slots|);
      assert s.tickets[t].slot == pc.slot;
    }
    hide FifoInv, Typed, ProducerTyped, ConsumerTyped, ConsumerStep, TakeStep, TicketDiscipline, Carries, BeingTaken;
  }

  lemma TakerCompletes(s: System)
    requires FifoInv(s) && s.consumer.Take? && s.consumer.stage.CopyOut?
    requires |s.consumer.stage.buffer| == s.consumer.stage.size
    ensures FifoInv(ConsumerStep(s, false))
  {
    var pc := s.consumer;
    assert ConsumerOk(s) && pc.slot < |s.slots|;
    var s' := ConsumerStep(s, false);
    var slot := s.slots[pc.slot].(status := Complete);
    ConsumerKeepsTickets(s, false);
    assert s' == StoreAsConsumer(s, pc.slot, slot, pc.(stage := Bump(pc.stage.kind, pc.stage.buffer)));
    var m := s.tickets[pc.ticket].msg;
    assert m.data[..|m.data|] == m.data;
    assert ConsumerOk(s');
    assert s.tickets[pc.ticket].slot == pc.slot;
    forall t | 0 <= t < |s'.tickets|
      ensures TicketOk(s', t)
    {
      CompleteKeepsTicket(s, t);
    }
    assert forall i :: 0 <= i < |s.producers| ==> ProducerOk(s, s.producers[i]);
    forall i | 0 <= i < |s'.producers|
      ensures ProducerOk(s', s'.producers[i])
    {
      if s.producers[i].Hold? { HeldTicket(s, i); }
    }
    hide ConsumerStep, TakeStep, InProgress, BeingTaken, Carries, ConsumerOk, TicketOk, Typed, ProducerTyped, ConsumerTyped, TicketDiscipline;
    forall y | 0 <= y < |s'.slots| && Unclaimed(s', y)
      ensures Free(s'.slots[y])
    {
      if y != pc.slot {
        forall t | InWindow(s, t)
          ensures s.tickets[t].slot != y
        {
          assert t != pc.ticket ==> InWindow(s', t);
        }
        assert Unclaimed(s, y);
      }
    }
  }

  lemma TakerReturns(s: System)
    requires FifoInv(s) && s.consumer.Take? && s.consumer.stage.Bump?
    ensures FifoInv(ConsumerStep(s, false))
  {
    var pc := s.consumer;
    var s' := ConsumerStep(s, false);
    var m := Message(pc.stage.kind, pc.stage.buffer);
    ConsumerKeepsTickets(s, false);
    DeliveredSnoc(s.returned, Some(m));
    assert s'.returned == s.returned + [Some(m)];
    var order := ClaimOrder(s.tickets);
    assert order[..s.consumed] == order[..pc.ticket] + [order[pc.ticket]];
    assert s.tickets[pc.ticket].slot == pc.slot && TicketDiscipline(s');
    assert ConsumerOk(s) && s'.slots == s.slots && s'.tickets == s.tickets && s'.producers == s.producers;
    hide ConsumerStep, TakeStep, TicketDiscipline, ProducerTyped, ConsumerTyped, InProgress, Carries;
    forall t | 0 <= t < |s'.tickets|
      ensures TicketOk(s', t)
    {
      assert TicketOk(s, t);
    }
    forall y | 0 <= y < |s'.slots| && Unclaimed(s', y)
      ensures Free(s'.slots[y])
    {
      assert forall t :: InWindow(s, t) ==> InWindow(s', t);
      assert Unclaimed(s, y);
    }
  }

  lemma ConsumerKeepsFifo(s: System, spurious: bool)
    requires FifoInv(s) && Allowed(s, ReadStep(spurious))
    ensures FifoInv(ConsumerStep(s, spurious))
  {
    if s.consumer.Take? {
      assert ConsumerStep(s, spurious) == ConsumerStep(s, false);
      if s.consumer.stage.Bump? {
        TakerReturns(s);
      } else if s.consumer.stage.CopyOut? && |s.consumer.stage.buffer| == s.consumer.stage.size {
        TakerCompletes(s);
      } else {
        TakerKeepsFifo(s);
      }
    } else if ConsumerClaims(s, ReadStep(spurious)) {
      ConsumerWins(s);
    } else {
      ConsumerMoves(s, spurious);
    }
  }

  // ---------- whole runs ----------

  lemma BeginKeepsFifo(s: System, l: Label)
    requires FifoInv(s) && (l.BeginWrite? || l.BeginRead?)
    ensures FifoInv(Step(s, l))
  {
    var s' := Step(s, l);
    StepKeepsTickets(s, l);
    hide Typed, ProducerTyped, ConsumerTyped, InProgress, BeingTaken, Carries, TicketDiscipline;
    forall t | 0 <= t < |s'.tickets|
      ensures TicketOk(s', t)
    {
      assert TicketOk(s, t);
    }
    forall y | 0 <= y < |s'.slots| && Unclaimed(s', y)
      ensures Free(s'.slots[y])
    {
      assert forall t :: InWindow(s, t) ==> InWindow(s', t);
      assert Unclaimed(s, y);
    }
  }

  lemma StepKeepsFifo(s: System, l: Label)
    requires FifoInv(s) && Allowed(s, l)
    ensures FifoInv(Step(s, l))
  {
    match l
    case WriteStep(i, spurious) =>
      if i < |s.producers| { ProducerKeepsFifo(s, i, spurious); }
    case ReadStep(spurious) => ConsumerKeepsFifo(s, spurious);
    case _ => BeginKeepsFifo(s, l);
  }

  lemma {:induction false} FifoInEveryRun(s: System, labels: seq<Label>)
    requires FifoInv(s) && Disciplined(s, labels)
    ensures FifoInv(Exec(s, labels))
  {
    if |labels| > 0 {
      var n := |labels| - 1;
      FifoInEveryRun(s, labels[..n]);
      StepKeepsFifo(Exec(s, labels[..n]), labels[n]);
    }
  }

  lemma CreatedIsFifo(n: nat, cap: nat, k: nat, payload: seq<seq<byte>>)
    requires n > 0 && |payload| == n
    requires forall x :: 0 <= x < n ==> |payload[x]| == cap
    ensures FifoInv(Created(n, cap, k, payload))
  {
    CreatedHasTickets(n, cap, k, payload);
  }

  // ---------- no slot is shared ----------

  /** The producer has passed its check and not yet stored Ready: it may write its slot. */
  predicate Working(pc: ProducerPc) {
    pc.Hold? && !Checking(pc.stage)
  }

  /** A producer past its check has the slot to itself: no other producer is past the check of the same
      slot or holds an earlier claim of it, the slot holds no published message that is not done
      with, and the consumer is not reading it. */
  ghost predicate Exclusive(s: System) {
    && (forall i, j :: 0 <= i < |s.producers| && 0 <= j < |s.producers| && i != j
                       && Working(s.producers[i]) && s.producers[j].Hold?
                       && s.producers[i].slot == s.producers[j].slot ==>
          !Working(s.producers[j]) && s.producers[i].ticket < s.producers[j].ticket)
    && (forall i, t :: 0 <= i < |s.producers| && Working(s.producers[i])
                       && Low(s) <= t < |s.tickets| && t >= 0 && s.tickets[t].published ==>
          s.producers[i].slot != s.tickets[t].slot)
    && (s.consumer.Take? && !s.consumer.stage.CheckReady? && !s.consumer.stage.Bump? ==>
          forall i :: 0 <= i < |s.producers| && Working(s.producers[i]) ==> s.producers[i].slot != s.consumer.slot)
  }

  /** No claimed slot had to be given up. */
  predicate NothingWasted(s: System) {
    && s.refusals == 0
    && (forall i :: 0 <= i < |s.producers| && !s.producers[i].Idle? ==> s.producers[i].attempt == 0)
  }

  lemma FifoWastesNothing(s: System)
    requires FifoInv(s)
    ensures NothingWasted(s)
  {
    hide Typed, TicketOk, TicketDiscipline, ConsumerOk;
    forall i | 0 <= i < |s.producers| && !s.producers[i].Idle?
      ensures s.producers[i].attempt == 0
    {
      assert ProducerOk(s, s.producers[i]);
    }
  }

  lemma WorkerAlone(s: System, i: nat, j: nat)
    requires FifoInv(s) && i < |s.producers| && j < |s.producers| && i != j
    requires Working(s.producers[i]) && s.producers[j].Hold? && s.producers[i].slot == s.producers[j].slot
    ensures !Working(s.producers[j]) && s.producers[i].ticket < s.producers[j].ticket
  {
    HeldTicket(s, i);
    HeldTicket(s, j);
    hide FifoInv, InProgress;
    if InWindow(s, s.producers[j].ticket) {
      WindowSlotsDiffer(s, s.producers[i].ticket, s.producers[j].ticket);
    }
  }

  lemma WorkerOffMessages(s: System, i: nat, t: nat)
    requires FifoInv(s) && i < |s.producers| && Working(s.producers[i])
    requires Low(s) <= t < |s.tickets| && s.tickets[t].published
    ensures s.producers[i].slot != s.tickets[t].slot
  {
    HeldTicket(s, i);
    assert TicketOk(s, t);
    hide FifoInv, InProgress, TicketDiscipline, Typed;
    WindowSlotsDiffer(s, s.producers[i].ticket, t);
  }

  lemma FifoIsExclusive(s: System)
    requires FifoInv(s)
    ensures Exclusive(s)
  {
    assert ConsumerTicket(s) && ConsumerOk(s);
    hide FifoInv, Typed, TicketDiscipline, Working;
    forall i, j | 0 <= i < |s.producers| && 0 <= j < |s.producers| && i != j
                  && Working(s.producers[i]) && s.producers[j].Hold? && s.producers[i].slot == s.producers[j].slot
      ensures !Working(s.producers[j]) && s.producers[i].ticket < s.producers[j].ticket
    {
      WorkerAlone(s, i, j);
    }
    forall i, t | 0 <= i < |s.producers| && Working(s.producers[i])
                  && Low(s) <= t < |s.tickets| && t >= 0 && s.tickets[t].published
      ensures s.producers[i].slot != s.tickets[t].slot
    {
      WorkerOffMessages(s, i, t);
    }
    if s.consumer.Take? && !s.consumer.stage.CheckReady? && !s.consumer.stage.Bump? {
      var t := s.consumer.ticket;
      assert Low(s) <= t < |s.tickets| && s.tickets[t].published && s.tickets[t].slot == s.consumer.slot by {
        ConsumersTicket(s);
      }
    }
  }

  lemma ConsumersTicket(s: System)
    requires FifoInv(s) && s.consumer.Take?
    ensures s.consumer.ticket < |s.tickets| && s.tickets[s.consumer.ticket].slot == s.consumer.slot
  {
    assert ConsumerTicket(s) && ConsumerOk(s);
  }

  // ---------- when a read returns None ----------

  predicate ReturnsNone(s: System, l: Label)
    requires Typed(s)
  {
    Step(s, l).returned == s.returned + [None]
  }

  /** The comparison of the two indices in `read`. At this point `seen` tells how many tickets had
      been claimed when the read loaded the producer index. */
  predicate Compares(s: System, l: Label) {
    l.ReadStep? && s.consumer.LoadConsumerIdx?
  }

  /** None is returned by the comparison only, and iff the seen and unconsumed tickets are 0, n, 2n, ... in number. */
  predicate NoneIffWholeLaps(s: System, l: Label)
    requires Typed(s)
  {
    ReturnsNone(s, l) <==>
    Compares(s, l) && s.consumed <= s.consumer.seen && |s.slots| > 0 && (s.consumer.seen - s.consumed) % |s.slots| == 0
  }

  /** None is returned iff every ticket seen has been consumed. */
  predicate NoneIffEmpty(s: System, l: Label)
    requires Typed(s)
  {
    ReturnsNone(s, l) <==> Compares(s, l) && s.consumer.seen == s.consumed
  }

  lemma OnlyComparingReturnsNone(s: System, l: Label)
    requires FifoInv(s) && Allowed(s, l) && !Compares(s, l)
    ensures !ReturnsNone(s, l)
  {
    assert ConsumerOk(s);
    assert s.consumer.Take? ==> !s.consumer.stage.DropSize?;
    hide FifoInv, Allowed;
    if l.ReadStep? {
      NoneNeedsADrop(s, l.spurious);
    } else {
      ProducersReturnNothing(s, l);
      LastOf(s.returned, None);
    }
  }

  lemma NoneNeedsADrop(s: System, spurious: bool)
    requires Typed(s) && !s.consumer.LoadConsumerIdx?
    requires s.consumer.Take? ==> !s.consumer.stage.DropSize?
    ensures ConsumerStep(s, spurious).returned != s.returned + [None]
  {
    hide Typed, ProducerTyped, ConsumerTyped;
    LastOf(s.returned, None);
    if s.consumer.Take? && s.consumer.stage.Bump? {
      LastOf(s.returned, Some(Message(s.consumer.stage.kind, s.consumer.stage.buffer)));
    }
  }

  lemma LastOf(returned: seq<Option<Message>>, r: Option<Message>)
    ensures |returned + [r]| == |returned| + 1
    ensures (returned + [r])[|returned|] == r
  {
  }

  lemma ProducersReturnNothing(s: System, l: Label)
    requires Typed(s) && !l.ReadStep?
    ensures Step(s, l).returned == s.returned
  {
    if l.WriteStep? && l.pid < |s.producers| {
      assert ProducerTyped(s, s.producers[l.pid]);
      hide Typed, ConsumerTyped;
    }
  }

  lemma ReadsFindWhatWasSeen(s: System, l: Label)
    requires FifoInv(s) && Allowed(s, l)
    ensures NoneIffWholeLaps(s, l)
    ensures |s.tickets| - s.consumed <= |s.slots| - 1 ==> NoneIffEmpty(s, l)
  {
    if Compares(s, l) {
      var c, seen, n := s.consumed, s.consumer.seen, |s.slots|;
      assert ConsumerTicket(s) && c <= seen <= |s.tickets|;
      hide FifoInv, Typed, TicketDiscipline, ConsumerTicket;
      EqualResidues(c, seen, n);
      if c < seen < c + n {
        CloseNumbersDiffer(c, seen, n);
      }
    } else {
      OnlyComparingReturnsNone(s, l);
    }
  }

  /** In every step of the run, a read returns None iff a whole number of laps was seen and is unconsumed. */
  predicate NonesAreExact(s: System, labels: seq<Label>)
    requires Typed(s)
  {
    |labels| > 0 ==>
      && NonesAreExact(s, labels[..|labels| - 1])
      && NoneIffWholeLaps(Exec(s, labels[..|labels| - 1]), labels[|labels| - 1])
  }

  predicate NonesMeanEmpty(s: System, labels: seq<Label>)
    requires Typed(s)
  {
    |labels| > 0 ==>
      && NonesMeanEmpty(s, labels[..|labels| - 1])
      && NoneIffEmpty(Exec(s, labels[..|labels| - 1]), labels[|labels| - 1])
  }

  /** Every claim of the schedule leaves at most n - 1 tickets unconsumed. */
  predicate KeepsOneFree(s: System, labels: seq<Label>)
    requires Typed(s)
  {
    |labels| > 0 ==>
      && KeepsOneFree(s, labels[..|labels| - 1])
      && (var e := Exec(s, labels[..|labels| - 1]);
          ProducerClaims(e, labels[|labels| - 1]) ==> |e.tickets| + 1 - e.consumed <= |e.slots| - 1)
  }

  lemma HistoryGrows(s: System, l: Label)
    requires Typed(s)
    ensures s.consumed <= Step(s, l).consumed
    ensures |Step(s, l).tickets| == |s.tickets| + (if ProducerClaims(s, l) then 1 else 0)
    ensures |Step(s, l).slots| == |s.slots|
  {
    StepKeepsShape(s, l);
    if l.WriteStep? && l.pid < |s.producers| {
      assert ProducerTyped(s, s.producers[l.pid]);
      hide Typed, ConsumerTyped;
    }
  }

  lemma {:induction false} NonesInEveryRun(s: System, labels: seq<Label>)
    requires FifoInv(s) && Disciplined(s, labels)
    ensures NonesAreExact(s, labels)
    ensures |s.tickets| - s.consumed <= |s.slots| - 1 && KeepsOneFree(s, labels) ==>
              && NonesMeanEmpty(s, labels)
              && |Exec(s, labels).tickets| - Exec(s, labels).consumed <= |Exec(s, labels).slots| - 1
  {
    if |labels| > 0 {
      var n := |labels| - 1;
      var e := Exec(s, labels[..n]);
      NonesInEveryRun(s, labels[..n]);
      FifoInEveryRun(s, labels[..n]);
      assert Allowed(e, labels[n]);
      hide FifoInv, Typed, Step, NoneIffEmpty, NoneIffWholeLaps, ProducerClaims, Allowed;
      ReadsFindWhatWasSeen(e, labels[n]);
      HistoryGrows(e, labels[n]);
    }
  }

  // ---------- the queue ----------

  /** The messages of the first d tickets are what the reads have returned. */
  ghost predicate DeliveredInOrder(s: System, d: int) {
    0 <= d <= |s.tickets| && Delivered(s.returned) == ClaimOrder(s.tickets)[..d]
  }

  /** For every schedule that meets the two conditions, of any number of producers with one consumer:
      a producer that writes a slot has it to itself; no claim is ever wasted or refused; what the reads
      have returned is exactly the messages of the first tickets, kind and bytes intact, each once, in
      claim order, and only the ticket being read may be outstanding; and a read returns None iff, of
      the tickets claimed when it loaded the producer index, a multiple of n is unconsumed, where only
      0 remains if claims leave at most n - 1 unconsumed. */
  lemma DisciplinedRunsAreFifo(n: nat, cap: nat, k: nat, payload: seq<seq<byte>>, labels: seq<Label>)
    requires n > 0 && |payload| == n
    requires forall x :: 0 <= x < n ==> |payload[x]| == cap
    requires Disciplined(Created(n, cap, k, payload), labels)
    ensures var s := Exec(Created(n, cap, k, payload), labels);
            && Exclusive(s)
            && NothingWasted(s)
            && DeliveredInOrder(s, if s.consumer.Take? then s.consumed - 1 else s.consumed)
    ensures NonesAreExact(Created(n, cap, k, payload), labels)
    ensures KeepsOneFree(Created(n, cap, k, payload), labels) ==>
              NonesMeanEmpty(Created(n, cap, k, payload), labels)
  {
    var s0 := Created(n, cap, k, payload);
    CreatedIsFifo(n, cap, k, payload);
    FifoInEveryRun(s0, labels);
    NonesInEveryRun(s0, labels);
    var s := Exec(s0, labels);
    FifoIsExclusive(s);
    FifoWastesNothing(s);
  }
}
