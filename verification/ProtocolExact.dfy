/** The two conditions of the queue theorem are exact. A look at a slot that is not yet published loses
    a message for good. A check decided while the slot is not done with either fails, so a claim is
    wasted, or lets a producer into a slot that an earlier claim still has. So the schedules in which
    writing a slot is exclusive, no claim is wasted and nothing is lost or out of order are exactly
    those that meet both conditions. */
module ProtocolExact {
  import opened Common
  import opened Residues
  import opened Protocol
  import opened ProtocolTickets
  import opened ProtocolFifo

  // ---------- tickets lost ----------

  /** The consumer is on its way to returning the message of the ticket it has claimed. */
  predicate Live(s: System) {
    && s.consumer.Take?
    && !(s.consumer.stage.Oversize? || s.consumer.stage.DropStatus?
         || s.consumer.stage.DropKind? || s.consumer.stage.DropSize?)
  }

  /** Consumed tickets whose message was not returned and will not be returned any more. */
  function Lost(s: System): int {
    s.consumed - |Delivered(s.returned)| - One(Live(s))
  }

  /** In any schedule at all, a ticket that is lost stays lost. */
  lemma StepLosesForGood(s: System, l: Label)
    requires Typed(s)
    ensures Lost(Step(s, l)) >= Lost(s)
  {
    match l
    case ReadStep(spurious) => ReadLosesForGood(s, spurious);
    case WriteStep(i, spurious) =>
      if i < |s.producers| {
        assert ProducerTyped(s, s.producers[i]);
        hide Typed, ConsumerTyped, Live, Delivered;
        assert ProducerStep(s, i, spurious).consumer == s.consumer;
        assert ProducerStep(s, i, spurious).returned == s.returned;
        SameConsumerSameLoss(s, ProducerStep(s, i, spurious));
      }
    case _ =>
  }

  lemma SameConsumerSameLoss(s: System, s': System)
    requires s'.consumer == s.consumer && s'.consumed == s.consumed && s'.returned == s.returned
    ensures Lost(s') == Lost(s)
  {
  }

  lemma ReadLosesForGood(s: System, spurious: bool)
    requires Typed(s)
    ensures Lost(ConsumerStep(s, spurious)) >= Lost(s)
  {
    if s.consumer.Take? && s.consumer.stage.Bump? {
      hide Typed, ProducerTyped, ConsumerTyped;
      DeliveredSnoc(s.returned, Some(Message(s.consumer.stage.kind, s.consumer.stage.buffer)));
    } else {
      hide ConsumerStep, Live, Delivered;
      ReturnsNothing(s, spurious);
      ConsumesOneAtATime(s, spurious);
    }
  }

  lemma ConsumesOneAtATime(s: System, spurious: bool)
    requires Typed(s) && !(s.consumer.Take? && s.consumer.stage.Bump?)
    ensures var s' := ConsumerStep(s, spurious);
            s'.consumed - One(Live(s')) >= s.consumed - One(Live(s))
  {
    hide Typed, ProducerTyped, ConsumerTyped;
  }

  lemma {:induction false} LostForGood(s: System, labels: seq<Label>)
    requires Typed(s)
    ensures Lost(Exec(s, labels)) >= Lost(s)
  {
    if |labels| > 0 {
      var n := |labels| - 1;
      LostForGood(s, labels[..n]);
      hide Typed, Step, Lost;
      StepLosesForGood(Exec(s, labels[..n]), labels[n]);
    }
  }

  /** Under the queue invariant nothing is lost. */
  lemma NothingLostYet(s: System)
    requires FifoInv(s)
    ensures Lost(s) == 0 && One(Live(s)) == s.consumed - Answered(s)
  {
    assert ConsumerOk(s);
    assert |ClaimOrder(s.tickets)[..Answered(s)]| == Answered(s);
  }

  /** A look that comes too early loses its ticket. */
  lemma EarlyLookLoses(s: System, l: Label)
    requires FifoInv(s) && Looks(s, l) && !Published(s, s.consumer.ticket)
    ensures Lost(Step(s, l)) == 1
  {
    NothingLostYet(s);
    var t := s.consumer.ticket;
    assert ConsumerOk(s) && TicketOk(s, t) && ConsumerTicket(s);
    assert !s.slots[s.consumer.slot].status.Ready?;
    hide FifoInv, Typed, TicketDiscipline;
  }

  /** Whatever is scheduled afterwards, with or without the conditions, reads stay one message behind. */
  lemma AnEarlyLookIsNeverMadeUp(s: System, l: Label, more: seq<Label>)
    requires FifoInv(s) && Looks(s, l) && !Published(s, s.consumer.ticket)
    ensures var e := Exec(Step(s, l), more);
            |Delivered(e.returned)| + One(Live(e)) < e.consumed
  {
    EarlyLookLoses(s, l);
    LostForGood(Step(s, l), more);
  }

  // ---------- order, exactly ----------

  /** Every consumed ticket but the one being read has been delivered, in claim order. */
  ghost predicate InOrder(s: System) {
    DeliveredInOrder(s, s.consumed - One(Live(s)))
  }

  lemma {:induction false} TimingDecides(s: System, labels: seq<Label>)
    requires FifoInv(s) && Windowed(s, labels)
    ensures if InTime(s, labels) then FifoInv(Exec(s, labels)) else Lost(Exec(s, labels)) >= 1
  {
    if |labels| > 0 {
      var n := |labels| - 1;
      var e := Exec(s, labels[..n]);
      TimingDecides(s, labels[..n]);
      hide FifoInv, Typed, Step, Lost, KeepsWindow;
      if !InTime(s, labels[..n]) {
        StepLosesForGood(e, labels[n]);
      } else if LooksInTime(e, labels[n]) {
        assert Allowed(e, labels[n]);
        StepKeepsFifo(e, labels[n]);
      } else {
        EarlyLookLoses(e, labels[n]);
      }
    }
  }

  lemma LosingBreaksOrder(s: System)
    requires InOrder(s)
    ensures Lost(s) == 0
  {
  }

  lemma FifoIsInOrder(s: System)
    requires FifoInv(s)
    ensures InOrder(s)
  {
    NothingLostYet(s);
  }

  /** Exactly when order is kept. Among the schedules whose checks keep the window: the reads have
      returned every consumed message, intact, once and in claim order, iff each first look of a read
      at its slot came after that slot's producer had stored Ready. */
  lemma OrderedExactlyWhenInTime(n: nat, cap: nat, k: nat, payload: seq<seq<byte>>, labels: seq<Label>)
    requires n > 0 && |payload| == n
    requires forall x :: 0 <= x < n ==> |payload[x]| == cap
    requires Windowed(Created(n, cap, k, payload), labels)
    ensures InTime(Created(n, cap, k, payload), labels) <==> InOrder(Exec(Created(n, cap, k, payload), labels))
  {
    var s0 := Created(n, cap, k, payload);
    CreatedIsFifo(n, cap, k, payload);
    TimingDecides(s0, labels);
    var s := Exec(s0, labels);
    if InTime(s0, labels) {
      FifoIsInOrder(s);
    } else if InOrder(s) {
      LosingBreaksOrder(s);
    }
  }

  // ---------- the window, exactly ----------

  /** The ticket in the window that has the slot of a ticket beyond it. */
  lemma EarlierClaim(s: System, t: nat) returns (u: nat)
    requires FifoInv(s) && Low(s) + |s.slots| <= t < |s.tickets|
    ensures u < t && InWindow(s, u) && s.tickets[u].slot == s.tickets[t].slot
  {
    assert ConsumerTicket(s) && 0 <= Low(s);
    u := LapsBack(Low(s), t, |s.slots|);
    hide FifoInv, Typed, ConsumerTicket, ProducerTicket;
  }

  /** A published ticket in the window keeps its slot Ready or Reading. */
  lemma UnreadSlotIsBusy(s: System, u: nat)
    requires FifoInv(s) && InWindow(s, u) && s.tickets[u].published
    ensures s.tickets[u].slot < |s.slots|
    ensures s.slots[s.tickets[u].slot].status.Ready? || s.slots[s.tickets[u].slot].status.Reading?
  {
    assert TicketOk(s, u) && ConsumerOk(s) && ConsumerTicket(s);
    hide ProducerTyped, Carries, InProgress;
  }

  lemma CheckFails(s: System, i: nat)
    requires Typed(s) && i < |s.producers| && s.producers[i].Hold? && s.producers[i].stage.CheckComplete?
    requires s.producers[i].slot < |s.slots| && !s.slots[s.producers[i].slot].status.Complete?
    ensures !NothingWasted(ProducerStep(s, i, false))
  {
    assert ProducerTyped(s, s.producers[i]);
    hide Typed, ProducerTyped, ConsumerTyped;
    var s' := ProducerStep(s, i, false);
    assert s' == FailedAttempt(s, i, s.producers[i].msg, s.producers[i].attempt);
    assert s'.refusals == s.refusals + 1 || s'.producers[i].attempt == s.producers[i].attempt + 1;
  }

  lemma CheckPasses(s: System, l: Label)
    requires Typed(s) && Decides(s, l)
    requires s.producers[l.pid].stage.CheckComplete? ==> s.slots[s.producers[l.pid].slot].status.Complete?
    ensures var pc := s.producers[l.pid];
            Step(s, l) == s.(producers := s.producers[l.pid := pc.(stage := ResetStatus)])
  {
    hide Typed, ProducerTyped, ConsumerTyped;
  }

  /** A check decided beyond the window wastes its claim or lets the producer into a slot that an
      earlier claim still has. */
  lemma EarlyCheckHarms(s: System, l: Label)
    requires FifoInv(s) && Decides(s, l) && !KeepsWindow(s, l)
    ensures !NothingWasted(Step(s, l)) || !Exclusive(Step(s, l))
  {
    var i := l.pid;
    var pc := s.producers[i];
    HeldTicket(s, i);
    var u := EarlierClaim(s, pc.ticket);
    if s.tickets[u].published { UnreadSlotIsBusy(s, u); }
    assert TicketOk(s, u);
    var j := s.tickets[u].pid;
    assert !s.tickets[u].published ==> j < |s.producers| && s.producers[j].Hold? && s.producers[j].ticket == u && ProducerTicket(s, j);
    hide FifoInv, TicketOk, InProgress, TicketDiscipline, NothingWasted;
    if pc.stage.CheckComplete? && !s.slots[pc.slot].status.Complete? {
      CheckFails(s, i);
      assert Step(s, l) == ProducerStep(s, i, false);
    } else {
      CheckPasses(s, l);
      hide Typed, Step;
      var s' := Step(s, l);
      assert Working(s'.producers[i]) && s'.producers[j] == s.producers[j];
    }
  }

  /** Writing is exclusive, no claim is wasted, and nothing is lost or out of order. */
  ghost predicate Clean(s: System) {
    Exclusive(s) && NothingWasted(s) && InOrder(s)
  }

  ghost predicate CleanThroughout(s: System, labels: seq<Label>)
    requires Typed(s)
  {
    && Clean(Exec(s, labels))
    && (|labels| > 0 ==> CleanThroughout(s, labels[..|labels| - 1]))
  }

  /** One step from a state of the invariant is clean iff it meets the two conditions. */
  lemma CleanStepExactly(s: System, l: Label)
    requires FifoInv(s)
    ensures Allowed(s, l) <==> Clean(Step(s, l))
  {
    assert Typed(s);
    hide FifoInv, Typed, Step, Exclusive, NothingWasted, KeepsWindow, LooksInTime;
    if Allowed(s, l) {
      StepKeepsFifo(s, l);
      FifoIsExclusive(Step(s, l));
      FifoWastesNothing(Step(s, l));
      FifoIsInOrder(Step(s, l));
    } else if !KeepsWindow(s, l) {
      Violated(s, l);
      EarlyCheckHarms(s, l);
    } else {
      Violated(s, l);
      EarlyLookLoses(s, l);
      if InOrder(Step(s, l)) { LosingBreaksOrder(Step(s, l)); }
    }
  }

  lemma Violated(s: System, l: Label)
    ensures !KeepsWindow(s, l) ==> Decides(s, l)
    ensures !LooksInTime(s, l) ==> Looks(s, l) && !Published(s, s.consumer.ticket)
  {
  }

  lemma {:induction false} CleanRunsAreDisciplined(s: System, labels: seq<Label>)
    requires FifoInv(s)
    ensures Disciplined(s, labels) <==> CleanThroughout(s, labels)
  {
    if |labels| == 0 {
      FifoIsExclusive(s);
      FifoWastesNothing(s);
      FifoIsInOrder(s);
    } else {
      var n := |labels| - 1;
      CleanRunsAreDisciplined(s, labels[..n]);
      hide FifoInv, Typed, Step, Clean;
      if Disciplined(s, labels[..n]) {
        FifoInEveryRun(s, labels[..n]);
        CleanStepExactly(Exec(s, labels[..n]), labels[n]);
      }
    }
  }

  /** Both conditions together are exact: in a run of a created ring, at every moment a producer that
      writes a slot has it to itself, no claim has been wasted and every consumed message has been
      returned in order, iff every decided check keeps the window and every look is in time. */
  lemma CleanExactlyWhenDisciplined(n: nat, cap: nat, k: nat, payload: seq<seq<byte>>, labels: seq<Label>)
    requires n > 0 && |payload| == n
    requires forall x :: 0 <= x < n ==> |payload[x]| == cap
    ensures Disciplined(Created(n, cap, k, payload), labels) <==> CleanThroughout(Created(n, cap, k, payload), labels)
  {
    CreatedIsFifo(n, cap, k, payload);
    CleanRunsAreDisciplined(Created(n, cap, k, payload), labels);
  }

  // ---------- a simpler discipline ----------

  /** The consumer claims published tickets only. */
  predicate ClaimsPublished(s: System, labels: seq<Label>)
    requires Typed(s)
  {
    |labels| > 0 ==>
      && ClaimsPublished(s, labels[..|labels| - 1])
      && (var e := Exec(s, labels[..|labels| - 1]);
          ConsumerClaims(e, labels[|labels| - 1]) ==> Published(e, e.consumed))
  }

  predicate LookWillBeInTime(s: System) {
    s.consumer.Take? && s.consumer.stage.CheckReady? ==> Published(s, s.consumer.ticket)
  }

  lemma StepKeepsLookInTime(s: System, l: Label)
    requires Typed(s) && TicketDiscipline(s) && LookWillBeInTime(s)
    requires ConsumerClaims(s, l) ==> Published(s, s.consumed)
    ensures LookWillBeInTime(Step(s, l))
  {
    match l
    case ReadStep(spurious) => hide Typed, ProducerTyped, ConsumerTyped, TicketDiscipline, ConsumerTicket;
    case WriteStep(i, spurious) =>
      if i < |s.producers| { WritingKeepsLookInTime(s, i, spurious); }
    case _ =>
  }

  /** A step of a producer leaves the consumer alone and takes no publication back. */
  lemma WritingKeepsLookInTime(s: System, i: nat, spurious: bool)
    requires Typed(s) && LookWillBeInTime(s) && i < |s.producers|
    ensures LookWillBeInTime(ProducerStep(s, i, spurious))
  {
    var s' := ProducerStep(s, i, spurious);
    assert ProducerTyped(s, s.producers[i]);
    hide Typed, ProducerTyped, ConsumerTyped, LookWillBeInTime;
    if s.producers[i].Hold? {
      hide ProducerStep;
      assert s' == HoldStep(s, i) by { HolderIsStepped(s, i, spurious); }
      HoldingPublishes(s, i);
    }
    assert s'.consumer == s.consumer && |s.tickets| <= |s'.tickets|;
    assert forall t :: 0 <= t < |s.tickets| && s.tickets[t].published ==> s'.tickets[t].published;
    KeepsPublished(s, s');
  }

  lemma HolderIsStepped(s: System, i: nat, spurious: bool)
    requires Typed(s) && i < |s.producers| && s.producers[i].Hold?
    ensures ProducerStep(s, i, spurious) == HoldStep(s, i)
  {
  }

  lemma HoldingPublishes(s: System, i: nat)
    requires Typed(s) && i < |s.producers| && s.producers[i].Hold?
    ensures var s' := HoldStep(s, i);
            && s'.consumer == s.consumer && |s'.tickets| == |s.tickets|
            && (forall t :: 0 <= t < |s.tickets| && s.tickets[t].published ==> s'.tickets[t].published)
  {
    assert ProducerTyped(s, s.producers[i]);
    hide Typed, ConsumerTyped;
  }

  lemma KeepsPublished(s: System, s': System)
    requires LookWillBeInTime(s) && s'.consumer == s.consumer && |s.tickets| <= |s'.tickets|
    requires forall t :: 0 <= t < |s.tickets| && s.tickets[t].published ==> s'.tickets[t].published
    ensures LookWillBeInTime(s')
  {
  }

  /** With fewer than n tickets unconsumed, every ticket is in the window. */
  lemma ChecksAreInWindow(s: System, l: Label)
    requires Typed(s) && TicketDiscipline(s) && |s.tickets| - s.consumed <= |s.slots| - 1
    ensures KeepsWindow(s, l)
  {
    if Decides(s, l) {
      assert ProducerTicket(s, l.pid) && ConsumerTicket(s);
    }
  }

  lemma LooksWhenPublished(s: System, l: Label)
    requires LookWillBeInTime(s)
    ensures LooksInTime(s, l)
  {
  }

  lemma {:induction false} ClaimingLateIsDisciplined(s: System, labels: seq<Label>)
    requires Typed(s) && TicketDiscipline(s) && LookWillBeInTime(s)
    requires KeepsOneFree(s, labels) && ClaimsPublished(s, labels)
    requires |s.tickets| - s.consumed <= |s.slots| - 1
    ensures Disciplined(s, labels) && LookWillBeInTime(Exec(s, labels))
    ensures |Exec(s, labels).tickets| - Exec(s, labels).consumed <= |Exec(s, labels).slots| - 1
  {
    if |labels| > 0 {
      var n := |labels| - 1;
      var e := Exec(s, labels[..n]);
      ClaimingLateIsDisciplined(s, labels[..n]);
      TicketsInEveryRun(s, labels[..n]);
      ChecksAreInWindow(e, labels[n]);
      HistoryGrows(e, labels[n]);
      hide Typed, Step, TicketDiscipline, KeepsWindow, LooksInTime, ProducerClaims;
      StepKeepsLookInTime(e, labels[n]);
      LooksWhenPublished(e, labels[n]);
    }
  }

  /** The conditions a scheduler can check before a claim: at most n - 1 tickets unconsumed after a
      producer's claim, and the consumer claims published tickets only. They suffice for the queue
      theorem, and a read then returns None iff everything it saw claimed has been consumed. */
  lemma CheckedClaimsAreFifo(n: nat, cap: nat, k: nat, payload: seq<seq<byte>>, labels: seq<Label>)
    requires n > 0 && |payload| == n
    requires forall x :: 0 <= x < n ==> |payload[x]| == cap
    requires KeepsOneFree(Created(n, cap, k, payload), labels) && ClaimsPublished(Created(n, cap, k, payload), labels)
    ensures CleanThroughout(Created(n, cap, k, payload), labels)
    ensures NonesMeanEmpty(Created(n, cap, k, payload), labels)
  {
    var s0 := Created(n, cap, k, payload);
    CreatedHasTickets(n, cap, k, payload);
    ClaimingLateIsDisciplined(s0, labels);
    CleanExactlyWhenDisciplined(n, cap, k, payload, labels);
    DisciplinedRunsAreFifo(n, cap, k, payload, labels);
  }
}
