/** What holds in every interleaving, with no assumption about how far producers run ahead:
    the ticket discipline of the two indices, and at-most-once delivery. */
module ProtocolTickets {
  import opened Common
  import opened Residues
  import opened Protocol

  // ---------- ticket discipline ----------

  ghost predicate ProducerTicket(s: System, i: nat)
    requires i < |s.producers|
  {
    var pc := s.producers[i];
    pc.Hold? ==>
      && pc.ticket < |s.tickets|
      && s.tickets[pc.ticket].pid == i
      && s.tickets[pc.ticket].msg == pc.msg
      && s.tickets[pc.ticket].slot == pc.slot
  }

  ghost predicate ConsumerTicket(s: System)
    requires |s.slots| > 0
  {
    match s.consumer
    case Waiting => true
    case LoadProducerIdx => true
    case LoadConsumerIdx(p, seen) => s.consumed <= seen <= |s.tickets| && p == seen % |s.slots|
    case LoadCurrentIdx => s.consumed < |s.tickets|
    case TryConsume(_) => s.consumed < |s.tickets|
    case Take(slot, ticket, _) => s.consumed == ticket + 1 && slot == ticket % |s.slots|
  }

  /** Both indices count claims modulo the slot count, the t-th claim got slot t mod n, and the
      consumer never claims more often than the producers did. */
  ghost predicate TicketDiscipline(s: System) {
    && |s.slots| > 0
    && s.producerIdx == |s.tickets| % |s.slots|
    && s.consumerIdx == s.consumed % |s.slots|
    && s.consumed <= |s.tickets|
    && (forall t :: 0 <= t < |s.tickets| ==> s.tickets[t].slot == t % |s.slots|)
    && (forall i :: 0 <= i < |s.producers| ==> ProducerTicket(s, i))
    && ConsumerTicket(s)
  }

  /** Does this step of producer i win the compare-exchange? */
  predicate Wins(s: System, i: nat, spurious: bool)
    requires i < |s.producers|
  {
    s.producers[i].TryClaim? && s.producers[i].current == s.producerIdx && !spurious
  }

  /** A step that wins no claim leaves the indices and the tickets' slots alone. */
  lemma OtherProducerStep(s: System, i: nat, spurious: bool)
    requires Typed(s) && i < |s.producers| && ProducerTicket(s, i) && !Wins(s, i, spurious)
    ensures var s' := ProducerStep(s, i, spurious);
            && s'.producerIdx == s.producerIdx && s'.consumerIdx == s.consumerIdx
            && s'.consumer == s.consumer && s'.consumed == s.consumed
            && |s'.slots| == |s.slots| && |s'.tickets| == |s.tickets| && |s'.producers| == |s.producers|
            && (forall t :: 0 <= t < |s.tickets| ==>
                  s'.tickets[t].slot == s.tickets[t].slot && s'.tickets[t].pid == s.tickets[t].pid
                  && s'.tickets[t].msg == s.tickets[t].msg)
            && (forall j :: 0 <= j < |s.producers| && j != i ==> s'.producers[j] == s.producers[j])
            && ProducerTicket(s', i)
  {
    assert ProducerTyped(s, s.producers[i]);
    assert s.producers[i].Hold? ==> s.producers[i].slot < |s.slots|;
    hide Typed, ProducerTyped, ConsumerTyped;
  }

  lemma ClaimKeepsTickets(s: System, i: nat)
    requires Typed(s) && TicketDiscipline(s) && i < |s.producers| && Wins(s, i, false)
    ensures TicketDiscipline(ProducerStep(s, i, false))
  {
    hide Typed, ProducerTyped, ConsumerTyped;
    var s' := ProducerStep(s, i, false);
    SuccessorResidue(|s.tickets|, |s.slots|);
    forall j | 0 <= j < |s'.producers|
      ensures ProducerTicket(s', j)
    {
      assert ProducerTicket(s, j);
    }
  }

  lemma ProducerKeepsTickets(s: System, i: nat, spurious: bool)
    requires Typed(s) && TicketDiscipline(s) && i < |s.producers|
    ensures TicketDiscipline(ProducerStep(s, i, spurious))
  {
    hide Typed, ProducerTyped, ConsumerTyped;
    if Wins(s, i, spurious) {
      ClaimKeepsTickets(s, i);
    } else {
      hide ProducerStep;
      var s' := ProducerStep(s, i, spurious);
      OtherProducerStep(s, i, spurious);
      forall j | 0 <= j < |s'.producers|
        ensures ProducerTicket(s', j)
      {
        assert ProducerTicket(s, j);
      }
    }
  }

  lemma ConsumerKeepsTickets(s: System, spurious: bool)
    requires Typed(s) && TicketDiscipline(s)
    ensures TicketDiscipline(ConsumerStep(s, spurious))
  {
    hide Typed, ProducerTyped, ConsumerTyped;
    var s' := ConsumerStep(s, spurious);
    SuccessorResidue(s.consumed, |s.slots|);
    assert forall j :: 0 <= j < |s.producers| ==> ProducerTicket(s, j) && s'.producers[j] == s.producers[j];
    assert forall j :: 0 <= j < |s.producers| ==> ProducerTicket(s', j);
  }

  lemma BeginKeepsTickets(s: System, l: Label)
    requires Typed(s) && TicketDiscipline(s) && (l.BeginWrite? || l.BeginRead?)
    ensures TicketDiscipline(Step(s, l))
  {
    var s' := Step(s, l);
    forall j | 0 <= j < |s'.producers|
      ensures ProducerTicket(s', j)
    {
      assert ProducerTicket(s, j);
    }
  }

  lemma StepKeepsTickets(s: System, l: Label)
    requires Typed(s) && TicketDiscipline(s)
    ensures TicketDiscipline(Step(s, l))
  {
    match l
    case WriteStep(i, spurious) =>
      if i < |s.producers| { ProducerKeepsTickets(s, i, spurious); }
    case ReadStep(spurious) => ConsumerKeepsTickets(s, spurious);
    case _ => BeginKeepsTickets(s, l);
  }

  /** Every reachable state obeys the ticket discipline. */
  lemma {:induction false} TicketsInEveryRun(s: System, labels: seq<Label>)
    requires Typed(s) && TicketDiscipline(s)
    ensures TicketDiscipline(Exec(s, labels))
  {
    if |labels| > 0 {
      var n := |labels| - 1;
      TicketsInEveryRun(s, labels[..n]);
      StepKeepsTickets(Exec(s, labels[..n]), labels[n]);
    }
  }

  lemma CreatedHasTickets(n: nat, cap: nat, k: nat, payload: seq<seq<byte>>)
    requires n > 0 && |payload| == n
    requires forall x :: 0 <= x < n ==> |payload[x]| == cap
    ensures TicketDiscipline(Created(n, cap, k, payload))
  {
    QuotientUnique(0, n, 0, 0);
  }

  /** How often slot x was handed out by `next_producer_idx`. */
  function HandedOut(tickets: seq<Ticket>, x: nat): nat {
    if |tickets| == 0 then 0
    else HandedOut(tickets[..|tickets| - 1], x) + (if tickets[|tickets| - 1].slot == x then 1 else 0)
  }

  lemma {:induction false} HandedOutIsOccurrences(tickets: seq<Ticket>, n: nat, x: nat)
    requires n > 0
    requires forall t :: 0 <= t < |tickets| ==> tickets[t].slot == t % n
    ensures HandedOut(tickets, x) == Occurrences(|tickets|, n, x)
  {
    if |tickets| > 0 {
      HandedOutIsOccurrences(tickets[..|tickets| - 1], n, x);
    }
  }

  /** After any run, the slots have been handed out evenly: floor(k/n) or ceil(k/n) times each. */
  lemma SlotsAreHandedOutEvenly(n: nat, cap: nat, k: nat, payload: seq<seq<byte>>, labels: seq<Label>, x: nat)
    requires n > 0 && |payload| == n && x < n
    requires forall y :: 0 <= y < n ==> |payload[y]| == cap
    ensures var s := Exec(Created(n, cap, k, payload), labels);
            HandedOut(s.tickets, x) == |s.tickets| / n + (if x < |s.tickets| % n then 1 else 0)
  {
    var s0 := Created(n, cap, k, payload);
    CreatedHasTickets(n, cap, k, payload);
    TicketsInEveryRun(s0, labels);
    SlotCountIsConstant(s0, labels);
    var s := Exec(s0, labels);
    HandedOutIsOccurrences(s.tickets, n, x);
    OccurrencesClosedForm(|s.tickets|, n, x);
  }

  lemma {:induction false} SlotCountIsConstant(s: System, labels: seq<Label>)
    requires Typed(s)
    ensures |Exec(s, labels).slots| == |s.slots|
    ensures |Exec(s, labels).producers| == |s.producers|
    ensures Exec(s, labels).cap == s.cap
  {
    if |labels| > 0 {
      var n := |labels| - 1;
      SlotCountIsConstant(s, labels[..n]);
      StepKeepsShape(Exec(s, labels[..n]), labels[n]);
    }
  }

  lemma StepKeepsShape(s: System, l: Label)
    requires Typed(s)
    ensures |Step(s, l).slots| == |s.slots|
    ensures |Step(s, l).producers| == |s.producers|
    ensures Step(s, l).cap == s.cap
  {
    if l.WriteStep? && l.pid < |s.producers| {
      assert ProducerTyped(s, s.producers[l.pid]);
      assert s.producers[l.pid].Hold? ==> s.producers[l.pid].slot < |s.slots|;
      hide Typed, ProducerTyped, ConsumerTyped;
    } else if l.ReadStep? {
      assert ConsumerTyped(s, s.consumer);
      assert s.consumer.Take? ==> s.consumer.slot < |s.slots|;
      hide Typed, ProducerTyped, ConsumerTyped;
    }
  }

  // ---------- at most once ----------

  /** The consumer has taken slot x out of Ready and not yet returned its message. */
  predicate ReadInProgress(s: System, x: nat) {
    s.consumer.Take? && s.consumer.slot == x &&
    (s.consumer.stage.LoadSize? || s.consumer.stage.CopyOut? || s.consumer.stage.Bump?)
  }

  /** The consumer has seen Ready for the second time and is about to store Reading. */
  predicate AboutToRead(s: System, x: nat) {
    s.consumer.Take? && s.consumer.slot == x && s.consumer.stage.SetReading?
  }

  function One(b: bool): nat {
    if b then 1 else 0
  }

  /** Messages taken from slot x, counting one being read and one still waiting, never exceed
      the number of times a producer stored Ready there. */
  ghost predicate AtMostOnceAt(s: System, x: nat)
    requires Typed(s) && x < |s.slots|
  {
    && s.deliveries[x] + One(ReadInProgress(s, x)) + One(s.slots[x].status.Ready?) <= s.readyStores[x]
    && s.deliveries[x] + One(AboutToRead(s, x)) <= s.readyStores[x]
  }

  ghost predicate AtMostOnce(s: System)
    requires Typed(s)
  {
    && (forall x :: 0 <= x < |s.slots| ==> AtMostOnceAt(s, x))
    && Sum(s.deliveries) == |Delivered(s.returned)|
    && s.completed == |Delivered(s.returned)| % U64_MODULUS
  }

  /** The messages that read calls have returned, in order. */
  function Delivered(returned: seq<Option<Message>>): seq<Message> {
    if |returned| == 0 then []
    else
      Delivered(returned[..|returned| - 1]) +
      (match returned[|returned| - 1] case None => [] case Some(m) => [m])
  }

  lemma DeliveredSnoc(returned: seq<Option<Message>>, r: Option<Message>)
    ensures Delivered(returned + [r]) == Delivered(returned) + (match r case None => [] case Some(m) => [m])
  {
    assert (returned + [r])[..|returned + [r]| - 1] == returned;
  }

  function Sum(counts: seq<nat>): nat {
    if |counts| == 0 then 0 else Sum(counts[..|counts| - 1]) + counts[|counts| - 1]
  }

  lemma {:induction false} SumOfIncrement(counts: seq<nat>, x: nat)
    requires x < |counts|
    ensures Sum(counts[x := counts[x] + 1]) == Sum(counts) + 1
  {
    var n := |counts| - 1;
    var up := counts[x := counts[x] + 1];
    if x == n {
      assert up[..n] == counts[..n];
    } else {
      assert up[..n] == counts[..n][x := counts[x] + 1];
      SumOfIncrement(counts[..n], x);
    }
  }

  lemma {:induction false} SumIsMonotone(a: seq<nat>, b: seq<nat>)
    requires |a| == |b| && forall x :: 0 <= x < |a| ==> a[x] <= b[x]
    ensures Sum(a) <= Sum(b)
  {
    if |a| > 0 {
      SumIsMonotone(a[..|a| - 1], b[..|b| - 1]);
    }
  }

  lemma {:induction false} SumOfZeros(counts: seq<nat>)
    requires forall x :: 0 <= x < |counts| ==> counts[x] == 0
    ensures Sum(counts) == 0
  {
    if |counts| > 0 {
      SumOfZeros(counts[..|counts| - 1]);
    }
  }

  lemma ProducerKeepsAtMostOnce(s: System, i: nat, spurious: bool)
    requires Typed(s) && AtMostOnce(s) && i < |s.producers|
    ensures AtMostOnce(ProducerStep(s, i, spurious))
  {
    assert ProducerTyped(s, s.producers[i]);
    assert s.producers[i].Hold? ==> s.producers[i].slot < |s.slots| == |s.readyStores|;
    hide ProducerTyped, ConsumerTyped;
    var s' := ProducerStep(s, i, spurious);
    assert s'.consumer == s.consumer && s'.deliveries == s.deliveries && |s'.slots| == |s.slots|;
    forall x | 0 <= x < |s'.slots|
      ensures AtMostOnceAt(s', x)
    {
      assert AtMostOnceAt(s, x);
    }
  }

  lemma ConsumerKeepsAtMostOnceAt(s: System, spurious: bool, x: nat)
    requires Typed(s) && x < |s.slots| && AtMostOnceAt(s, x)
    ensures |ConsumerStep(s, spurious).slots| == |s.slots|
    ensures AtMostOnceAt(ConsumerStep(s, spurious), x)
  {
    if s.consumer.Take? {
      assert ConsumerTyped(s, s.consumer) && s.consumer.slot < |s.slots| == |s.deliveries| == |s.readyStores|;
      assert AtMostOnceAt(s, x);
      hide Typed, ProducerTyped, ConsumerTyped;
    }
  }

  lemma ReturnsNothing(s: System, spurious: bool)
    requires Typed(s) && !(s.consumer.Take? && s.consumer.stage.Bump?)
    ensures var s' := ConsumerStep(s, spurious);
            && Delivered(s'.returned) == Delivered(s.returned)
            && s'.deliveries == s.deliveries
            && s'.completed == s.completed
  {
    DeliveredSnoc(s.returned, None);
    hide Delivered;
    if s.consumer.Take? {
      TakingReturnsNothing(s);
      hide Typed, TakeStep;
    } else {
      hide Typed, ProducerTyped, ConsumerTyped, TakeStep;
    }
  }

  lemma TakingReturnsNothing(s: System)
    requires Typed(s) && s.consumer.Take? && !s.consumer.stage.Bump?
    ensures var s' := TakeStep(s);
            && (s'.returned == s.returned || s'.returned == s.returned + [None])
            && s'.deliveries == s.deliveries
            && s'.completed == s.completed
  {
    hide Typed, ProducerTyped, ConsumerTyped;
  }

  lemma ConsumerCountsDeliveries(s: System, spurious: bool)
    requires Typed(s) && AtMostOnce(s)
    ensures var s' := ConsumerStep(s, spurious);
            && Sum(s'.deliveries) == |Delivered(s'.returned)|
            && s'.completed == |Delivered(s'.returned)| % U64_MODULUS
  {
    var s' := ConsumerStep(s, spurious);
    if s.consumer.Take? && s.consumer.stage.Bump? {
      var m := Message(s.consumer.stage.kind, s.consumer.stage.buffer);
      assert s'.returned == s.returned + [Some(m)];
      DeliveredSnoc(s.returned, Some(m));
      SumOfIncrement(s.deliveries, s.consumer.slot);
      SuccessorResidue(|Delivered(s.returned)|, U64_MODULUS);
    } else {
      ReturnsNothing(s, spurious);
    }
  }

  lemma StepKeepsAtMostOnce(s: System, l: Label)
    requires Typed(s) && AtMostOnce(s)
    ensures AtMostOnce(Step(s, l))
  {
    match l
    case WriteStep(i, spurious) =>
      if i < |s.producers| { ProducerKeepsAtMostOnce(s, i, spurious); }
    case ReadStep(spurious) =>
      ConsumerCountsDeliveries(s, spurious);
      forall x | 0 <= x < |Step(s, l).slots|
        ensures AtMostOnceAt(Step(s, l), x)
      {
        ConsumerKeepsAtMostOnceAt(s, spurious, x);
      }
    case _ =>
      forall x | 0 <= x < |s.slots|
        ensures AtMostOnceAt(Step(s, l), x)
      {
        assert AtMostOnceAt(s, x);
      }
  }

  /** In any schedule, a read goes on to store Reading only when its second look has found Ready, and the
      kind it will return is the one it loaded after the first; whatever else it finds makes it drop. */
  lemma ReadingStartsFromReady(s: System, l: Label)
    requires Typed(s)
    ensures var s' := Step(s, l);
            s'.consumer != s.consumer && s'.consumer.Take? && s'.consumer.stage.SetReading? ==>
              && s.consumer.Take? && s.consumer.stage.RecheckReady? && s'.consumer.slot == s.consumer.slot
              && s.consumer.slot < |s.slots| && s.slots[s.consumer.slot].status == Ready
              && s'.consumer.stage.kind == s.consumer.stage.kind
    ensures var s' := Step(s, l);
            s'.consumer != s.consumer && s'.consumer.Take? && s'.consumer.stage.RecheckReady? ==>
              && s.consumer.Take? && s.consumer.stage.LoadKind? && s'.consumer.slot == s.consumer.slot
              && s.consumer.slot < |s.slots| && s'.consumer.stage.kind == s.slots[s.consumer.slot].kind
  {
    if l.ReadStep? {
      assert ConsumerTyped(s, s.consumer);
      hide Typed, ProducerTyped;
    } else if l.WriteStep? && l.pid < |s.producers| {
      assert ProducerTyped(s, s.producers[l.pid]);
      hide Typed, ConsumerTyped;
    }
  }

  lemma {:induction false} AtMostOnceInEveryRun(s: System, labels: seq<Label>)
    requires Typed(s) && AtMostOnce(s)
    ensures AtMostOnce(Exec(s, labels))
  {
    if |labels| > 0 {
      var n := |labels| - 1;
      AtMostOnceInEveryRun(s, labels[..n]);
      StepKeepsAtMostOnce(Exec(s, labels[..n]), labels[n]);
    }
  }

  /** In every run of a created ring, no slot delivers more messages than were published into it,
      `operations_completed` counts exactly the deliveries, and those never exceed the publishes. */
  lemma NoMessageIsDeliveredTwice(n: nat, cap: nat, k: nat, payload: seq<seq<byte>>, labels: seq<Label>)
    requires n > 0 && |payload| == n
    requires forall y :: 0 <= y < n ==> |payload[y]| == cap
    ensures var s := Exec(Created(n, cap, k, payload), labels);
            && AtMostOnce(s)
            && |Delivered(s.returned)| <= Sum(s.readyStores)
            && s.completed == |Delivered(s.returned)| % U64_MODULUS
  {
    var s0 := Created(n, cap, k, payload);
    SumOfZeros(s0.deliveries);
    assert AtMostOnce(s0);
    AtMostOnceInEveryRun(s0, labels);
    var s := Exec(s0, labels);
    forall x | 0 <= x < |s.slots|
      ensures s.deliveries[x] <= s.readyStores[x]
    {
      assert AtMostOnceAt(s, x);
    }
    SumIsMonotone(s.deliveries, s.readyStores);
  }

  // ---------- a single slot ----------

  /** On one slot both indices are always 0, so the consumer is never past the comparison. */
  predicate ReadsNothing(s: System) {
    && |s.slots| == 1
    && (s.consumer.Waiting? || s.consumer.LoadProducerIdx? || (s.consumer.LoadConsumerIdx? && s.consumer.p == 0))
    && (forall r :: 0 <= r < |s.returned| ==> s.returned[r].None?)
  }

  lemma StepReadsNothing(s: System, l: Label)
    requires Typed(s) && ReadsNothing(s)
    ensures ReadsNothing(Step(s, l))
  {
    StepKeepsShape(s, l);
    if l.WriteStep? && l.pid < |s.producers| {
      assert ProducerTyped(s, s.producers[l.pid]);
      hide Typed, ConsumerTyped;
    }
  }

  lemma {:induction false} ReadsNothingInEveryRun(s: System, labels: seq<Label>)
    requires Typed(s) && ReadsNothing(s)
    ensures ReadsNothing(Exec(s, labels))
  {
    if |labels| > 0 {
      var n := |labels| - 1;
      ReadsNothingInEveryRun(s, labels[..n]);
      StepReadsNothing(Exec(s, labels[..n]), labels[n]);
    }
  }

  /** A ring of one slot never delivers anything, in any interleaving. */
  lemma ASingleSlotNeverDelivers(cap: nat, k: nat, payload: seq<seq<byte>>, labels: seq<Label>)
    requires |payload| == 1 && |payload[0]| == cap
    ensures var s := Exec(Created(1, cap, k, payload), labels);
            forall r :: 0 <= r < |s.returned| ==> s.returned[r].None?
  {
    ReadsNothingInEveryRun(Created(1, cap, k, payload), labels);
  }
}
