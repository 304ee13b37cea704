/** Fill, then drain: producers race to write at most n - 1 messages into a drained ring, and only
    then does the consumer read, any number of times over. Here the two scheduling conditions of the
    queue theorem need not be assumed; they follow from the number of calls. */
module ProtocolFillDrain {
  import opened Common
  import opened Residues
  import opened Protocol
  import opened ProtocolTickets
  import opened ProtocolFifo

  // ---------- calls and claims balance ----------

  /** 1 for a producer inside `write` that has not claimed a slot yet. */
  function BeforeClaim(pc: ProducerPc): nat {
    if pc.Idle? || pc.Hold? then 0 else 1
  }

  function Claimants(producers: seq<ProducerPc>): nat {
    if |producers| == 0 then 0
    else Claimants(producers[..|producers| - 1]) + BeforeClaim(producers[|producers| - 1])
  }

  lemma {:induction false} ClaimantsUpdate(producers: seq<ProducerPc>, i: nat, pc: ProducerPc)
    requires i < |producers|
    ensures Claimants(producers[i := pc]) == Claimants(producers) - BeforeClaim(producers[i]) + BeforeClaim(pc)
    ensures Claimants(producers) >= BeforeClaim(producers[i])
  {
    var n := |producers| - 1;
    var up := producers[i := pc];
    if i == n {
      assert up[..n] == producers[..n];
    } else {
      assert up[..n] == producers[..n][i := pc];
      ClaimantsUpdate(producers[..n], i, pc);
    }
  }

  lemma {:induction false} NoClaimants(producers: seq<ProducerPc>)
    requires forall i :: 0 <= i < |producers| ==> producers[i].Idle?
    ensures Claimants(producers) == 0
  {
    if |producers| > 0 {
      NoClaimants(producers[..|producers| - 1]);
    }
  }

  function TotalCalls(calls: seq<seq<Message>>): nat {
    if |calls| == 0 then 0 else TotalCalls(calls[..|calls| - 1]) + |calls[|calls| - 1]|
  }

  lemma {:induction false} TotalCallsUpdate(calls: seq<seq<Message>>, i: nat, m: Message)
    requires i < |calls|
    ensures TotalCalls(calls[i := calls[i] + [m]]) == TotalCalls(calls) + 1
  {
    var n := |calls| - 1;
    var up := calls[i := calls[i] + [m]];
    if i == n {
      assert up[..n] == calls[..n];
    } else {
      assert up[..n] == calls[..n][i := calls[i] + [m]];
      TotalCallsUpdate(calls[..n], i, m);
    }
  }

  /** The messages of one producer in the order of its claims. */
  function OwnMessages(tickets: seq<Ticket>, i: nat): seq<Message> {
    if |tickets| == 0 then []
    else
      var last := tickets[|tickets| - 1];
      OwnMessages(tickets[..|tickets| - 1], i) + (if last.pid == i then [last.msg] else [])
  }

  lemma OwnMessagesSnoc(tickets: seq<Ticket>, t: Ticket, i: nat)
    ensures OwnMessages(tickets + [t], i) == OwnMessages(tickets, i) + (if t.pid == i then [t.msg] else [])
  {
    assert (tickets + [t])[..|tickets + [t]| - 1] == tickets;
  }

  lemma {:induction false} OwnMessagesIgnorePublishing(tickets: seq<Ticket>, t: nat, i: nat)
    requires t < |tickets|
    ensures OwnMessages(tickets[t := tickets[t].(published := true)], i) == OwnMessages(tickets, i)
  {
    var n := |tickets| - 1;
    var up := tickets[t := tickets[t].(published := true)];
    if t == n {
      assert up[..n] == tickets[..n];
    } else {
      assert up[..n] == tickets[..n][t := tickets[t].(published := true)];
      OwnMessagesIgnorePublishing(tickets[..n], t, i);
    }
  }

  /** The call of producer i that has not claimed a slot yet. */
  function NotYetClaimed(pc: ProducerPc): seq<Message> {
    if pc.Idle? || pc.Hold? then [] else [pc.msg]
  }

  /** Every legal call has claimed exactly one slot or is still to claim one, in call order. */
  ghost predicate Balanced(s: System)
    requires Typed(s)
  {
    && |s.tickets| + Claimants(s.producers) == TotalCalls(s.calls)
    && (forall i :: 0 <= i < |s.producers| ==>
          s.calls[i] == OwnMessages(s.tickets, i) + NotYetClaimed(s.producers[i]))
  }

  lemma BeginKeepsBalance(s: System, i: nat, m: Message)
    requires FifoInv(s) && Balanced(s) && i < |s.producers|
    ensures Balanced(StartWrite(s, i, m))
  {
    if s.producers[i].Idle? && |m.data| <= s.cap {
      ClaimantsUpdate(s.producers, i, LoadProducer(m, 0));
      TotalCallsUpdate(s.calls, i, m);
    }
  }

  lemma ClaimKeepsBalance(s: System, i: nat)
    requires FifoInv(s) && Balanced(s) && ProducerClaims(s, WriteStep(i, false))
    ensures Balanced(ProducerStep(s, i, false))
  {
    var s' := ProducerStep(s, i, false);
    assert s' == Claim(s, i, s.producers[i].msg, s.producers[i].attempt);
    hide FifoInv, Typed, ProducerTyped, ConsumerTyped, ProducerStep;
    ClaimantsUpdate(s.producers, i, s'.producers[i]);
    forall j | 0 <= j < |s'.producers|
      ensures s'.calls[j] == OwnMessages(s'.tickets, j) + NotYetClaimed(s'.producers[j])
    {
      OwnMessagesSnoc(s.tickets, s'.tickets[|s.tickets|], j);
    }
  }

  lemma BalanceCarriesOver(s: System, s': System, i: nat)
    requires Typed(s) && Typed(s') && Balanced(s) && i < |s.producers|
    requires s'.calls == s.calls && |s'.producers| == |s.producers|
    requires s'.producers == s.producers[i := s'.producers[i]]
    requires NotYetClaimed(s'.producers[i]) == NotYetClaimed(s.producers[i])
    requires |s'.tickets| == |s.tickets|
    requires forall j :: 0 <= j < |s.producers| ==> OwnMessages(s'.tickets, j) == OwnMessages(s.tickets, j)
    ensures Balanced(s')
  {
    ClaimantsUpdate(s.producers, i, s'.producers[i]);
  }

  lemma CheckNeverFails(s: System, i: nat, spurious: bool)
    requires FifoInv(s) && i < |s.producers| && s.producers[i].Hold? && KeepsWindow(s, WriteStep(i, spurious))
    ensures var pc := s.producers[i];
            && pc.slot < |s.slots| && pc.ticket < |s.tickets|
            && (pc.stage.CheckComplete? ==> s.slots[pc.slot].status.Complete?)
  {
    HeldTicket(s, i);
  }

  /** A step that claims nothing changes no call and at most publishes the producer's own ticket. */
  lemma OtherStepShape(s: System, i: nat, spurious: bool)
    requires FifoInv(s) && i < |s.producers| && !ProducerClaims(s, WriteStep(i, spurious))
    requires KeepsWindow(s, WriteStep(i, spurious))
    ensures var s' := ProducerStep(s, i, spurious);
            && s'.calls == s.calls && |s'.producers| == |s.producers|
            && s'.producers == s.producers[i := s'.producers[i]]
            && NotYetClaimed(s'.producers[i]) == NotYetClaimed(s.producers[i])
            && (s'.tickets != s.tickets ==>
                  && s.producers[i].Hold? && s.producers[i].ticket < |s.tickets|
                  && s'.tickets == s.tickets[s.producers[i].ticket :=
                                             s.tickets[s.producers[i].ticket].(published := true)])
  {
    var pc := s.producers[i];
    assert s.producers[i := pc] == s.producers;
    if pc.Hold? { CheckNeverFails(s, i, spurious); }
    assert pc.Hold? ==> pc.slot < |s.slots|;
    hide FifoInv, Typed, ProducerTyped, ConsumerTyped, KeepsWindow;
    if pc.LoadConsumer? { AvailableSlotsIsPositive(pc.p, s.consumerIdx, |s.slots|); }
  }

  lemma StepKeepsBalance(s: System, i: nat, spurious: bool)
    requires FifoInv(s) && Balanced(s) && i < |s.producers| && KeepsWindow(s, WriteStep(i, spurious))
    ensures Balanced(ProducerStep(s, i, spurious))
  {
    if ProducerClaims(s, WriteStep(i, spurious)) {
      ClaimKeepsBalance(s, i);
    } else {
      OtherStepShape(s, i, spurious);
      PublishingKeepsOrder(s, ProducerStep(s, i, spurious), i);
      BalanceCarriesOver(s, ProducerStep(s, i, spurious), i);
    }
  }

  lemma PublishingKeepsOrder(s: System, s': System, i: nat)
    requires i < |s.producers|
    requires s'.tickets != s.tickets ==>
               && s.producers[i].Hold? && s.producers[i].ticket < |s.tickets|
               && s'.tickets == s.tickets[s.producers[i].ticket :=
                                          s.tickets[s.producers[i].ticket].(published := true)]
    ensures |s'.tickets| == |s.tickets|
    ensures forall j :: 0 <= j < |s.producers| ==> OwnMessages(s'.tickets, j) == OwnMessages(s.tickets, j)
  {
    if s'.tickets != s.tickets {
      forall j | 0 <= j < |s.producers|
        ensures OwnMessages(s'.tickets, j) == OwnMessages(s.tickets, j)
      {
        OwnMessagesIgnorePublishing(s.tickets, s.producers[i].ticket, j);
      }
    }
  }

  lemma ConsumerLeavesCallsAlone(s: System, l: Label)
    requires Typed(s) && (l.BeginRead? || l.ReadStep?)
    ensures var s' := Step(s, l);
            s'.tickets == s.tickets && s'.producers == s.producers && s'.calls == s.calls
  {
    hide Typed, ProducerTyped, ConsumerTyped;
  }

  /** Calls and claims still balance after any step; a failed check would have to claim again. */
  lemma LabelKeepsBalance(s: System, l: Label)
    requires FifoInv(s) && Balanced(s) && KeepsWindow(s, l)
    ensures Balanced(Step(s, l))
  {
    match l
    case BeginWrite(i, m) =>
      if i < |s.producers| { BeginKeepsBalance(s, i, m); }
    case WriteStep(i, spurious) =>
      if i < |s.producers| { StepKeepsBalance(s, i, spurious); }
    case _ => ConsumerLeavesCallsAlone(s, l);
  }

  lemma {:induction false} BalancedInEveryRun(s: System, labels: seq<Label>)
    requires FifoInv(s) && Balanced(s) && Disciplined(s, labels)
    ensures Balanced(Exec(s, labels))
  {
    if |labels| > 0 {
      var n := |labels| - 1;
      BalancedInEveryRun(s, labels[..n]);
      FifoInEveryRun(s, labels[..n]);
      hide FifoInv, Typed, Balanced, Step, KeepsWindow;
      LabelKeepsBalance(Exec(s, labels[..n]), labels[n]);
    }
  }

  // ---------- the fill ----------

  predicate OnlyProducers(labels: seq<Label>) {
    forall k :: 0 <= k < |labels| ==> labels[k].BeginWrite? || labels[k].WriteStep?
  }

  predicate OnlyConsumer(labels: seq<Label>) {
    forall k :: 0 <= k < |labels| ==> labels[k].BeginRead? || labels[k].ReadStep?
  }

  predicate AllIdle(s: System) {
    s.consumer.Waiting? && forall i :: 0 <= i < |s.producers| ==> s.producers[i].Idle?
  }

  lemma ProducersLeaveTheConsumerAlone(s: System, l: Label)
    requires Typed(s) && (l.BeginWrite? || l.WriteStep?)
    ensures Step(s, l).consumer == s.consumer
    ensures Step(s, l).consumed == s.consumed
    ensures Step(s, l).returned == s.returned
    ensures |Step(s, l).slots| == |s.slots|
  {
  }

  /** A claim is one of the calls, so the calls bound the claims. */
  lemma FillKeepsWindow(s: System, e: System, l: Label)
    requires FifoInv(e) && Balanced(e) && (l.BeginWrite? || l.WriteStep?)
    requires e.consumer.Waiting? && e.consumed == s.consumed && |e.slots| == |s.slots|
    requires TotalCalls(e.calls) <= s.consumed + |s.slots|
    ensures KeepsWindow(e, l) && LooksInTime(e, l)
  {
    if Decides(e, l) {
      HeldTicket(e, l.pid);
    }
  }

  lemma {:induction false} FillIsDisciplined(s: System, labels: seq<Label>)
    requires FifoInv(s) && Balanced(s) && OnlyProducers(labels)
    requires s.consumer.Waiting?
    requires TotalCalls(Exec(s, labels).calls) <= s.consumed + |s.slots|
    ensures Disciplined(s, labels)
    ensures var f := Exec(s, labels);
            && FifoInv(f) && Balanced(f)
            && f.consumer == s.consumer && f.consumed == s.consumed && f.returned == s.returned
            && |f.slots| == |s.slots|
  {
    if |labels| > 0 {
      var n := |labels| - 1;
      var e := Exec(s, labels[..n]);
      var l := labels[n];
      CallsOnlyGrow(e, l);
      FillIsDisciplined(s, labels[..n]);
      FillKeepsWindow(s, e, l);
      hide FifoInv, Typed, Balanced, Step, KeepsWindow, LooksInTime;
      LabelKeepsBalance(e, l);
      StepKeepsFifo(e, l);
      ProducersLeaveTheConsumerAlone(e, l);
    }
  }

  lemma CallsOnlyGrow(s: System, l: Label)
    requires Typed(s)
    ensures TotalCalls(s.calls) <= TotalCalls(Step(s, l).calls)
  {
    if l.BeginWrite? && l.pid < |s.producers| {
      TotalCallsUpdate(s.calls, l.pid, l.msg);
    }
  }

  // ---------- the drain ----------

  /** The r-th read after the fill returns the r-th message in claim order, and None once they are used up. */
  function Expected(f: System, r: nat): Option<Message> {
    if f.consumed + r < |f.tickets| then Some(f.tickets[f.consumed + r].msg) else None
  }

  ghost predicate Draining(f: System, s: System) {
    && FifoInv(s)
    && s.tickets == f.tickets && s.producers == f.producers && s.calls == f.calls && |s.slots| == |f.slots|
    && |s.tickets| - s.consumed <= |s.slots| - 1
    && |f.returned| <= |s.returned|
    && s.returned[..|f.returned|] == f.returned
    && (forall r :: 0 <= r < |s.returned| - |f.returned| ==> s.returned[|f.returned| + r] == Expected(f, r))
    && (Answered(s) == f.consumed + |s.returned| - |f.returned|
        || (Answered(s) == |f.tickets| && !s.consumer.Take?
            && f.consumed + |s.returned| - |f.returned| >= |f.tickets|))
    && (s.consumer.LoadConsumerIdx? ==> s.consumer.seen == |s.tickets|)
  }

  lemma AllPublished(s: System)
    requires FifoInv(s) && forall i :: 0 <= i < |s.producers| ==> s.producers[i].Idle?
    ensures forall t :: 0 <= t < |s.tickets| ==> s.tickets[t].published
  {
    forall t | 0 <= t < |s.tickets|
      ensures s.tickets[t].published
    {
      assert TicketOk(s, t);
    }
  }

  /** A step of the consumer that returns nothing. */
  lemma DrainMoves(f: System, s: System, spurious: bool)
    requires Draining(f, s) && Allowed(s, ReadStep(spurious))
    requires FifoInv(ConsumerStep(s, spurious))
    requires ConsumerStep(s, spurious).returned == s.returned
    ensures Draining(f, ConsumerStep(s, spurious))
  {
    assert TicketDiscipline(s) && s.consumer.Take? ==> s.consumer.ticket == s.consumed - 1;
    assert s.consumer.Take? ==> BeingTaken(s.slots[s.consumer.slot], s.tickets[s.consumer.ticket].msg, s.consumer.stage);
    hide FifoInv, Typed, TicketDiscipline, BeingTaken;
  }

  /** A read that found the indices equal: everything claimed has been consumed. */
  lemma DrainFindsNothing(f: System, s: System)
    requires Draining(f, s) && s.consumer.LoadConsumerIdx? && s.consumer.p == s.consumerIdx
    requires FifoInv(ConsumerStep(s, false))
    ensures Draining(f, ConsumerStep(s, false))
  {
    if s.consumed < |s.tickets| {
      CloseNumbersDiffer(s.consumed, |s.tickets|, |s.slots|);
    }
    var r := |s.returned| - |f.returned|;
    assert ConsumerStep(s, false).returned == s.returned + [None];
    assert Expected(f, r) == None;
  }

  lemma DrainDelivers(f: System, s: System)
    requires Draining(f, s) && s.consumer.Take? && s.consumer.stage.Bump?
    requires FifoInv(ConsumerStep(s, false))
    ensures Draining(f, ConsumerStep(s, false))
  {
    var r := |s.returned| - |f.returned|;
    assert s.consumer.ticket == f.consumed + r;
    var m := s.tickets[s.consumer.ticket].msg;
    assert ConsumerStep(s, false).returned == s.returned + [Some(m)];
    assert Expected(f, r) == Some(m);
  }

  lemma DrainStep(f: System, s: System, l: Label)
    requires Draining(f, s) && (l.BeginRead? || l.ReadStep?)
    requires forall i :: 0 <= i < |s.producers| ==> s.producers[i].Idle?
    ensures Allowed(s, l) && Draining(f, Step(s, l))
  {
    AllPublished(s);
    assert FifoInv(s) && Allowed(s, l);
    StepKeepsFifo(s, l);
    hide FifoInv, Allowed, Typed;
    if l.ReadStep? {
      if s.consumer.LoadConsumerIdx? && s.consumer.p == s.consumerIdx {
        assert ConsumerStep(s, l.spurious) == ConsumerStep(s, false);
        DrainFindsNothing(f, s);
      } else if s.consumer.Take? && s.consumer.stage.Bump? {
        assert ConsumerStep(s, l.spurious) == ConsumerStep(s, false);
        DrainDelivers(f, s);
      } else {
        DrainMoves(f, s, l.spurious);
      }
    }
  }

  lemma {:induction false} DrainInOrder(f: System, labels: seq<Label>)
    requires FifoInv(f) && AllIdle(f) && OnlyConsumer(labels)
    requires |f.tickets| - f.consumed <= |f.slots| - 1
    ensures Disciplined(f, labels) && Draining(f, Exec(f, labels))
  {
    if |labels| > 0 {
      var n := |labels| - 1;
      DrainInOrder(f, labels[..n]);
      DrainStep(f, Exec(f, labels[..n]), labels[n]);
    }
  }

  /** What the reads after the fill returned. */
  ghost predicate ReturnsInOrder(f: System, e: System) {
    && |f.returned| <= |e.returned|
    && (forall r :: 0 <= r < |e.returned| - |f.returned| ==> e.returned[|f.returned| + r] == Expected(f, r))
  }

  lemma DrainReturnsInOrder(f: System, drain: seq<Label>)
    requires FifoInv(f) && AllIdle(f) && OnlyConsumer(drain)
    requires |f.tickets| - f.consumed <= |f.slots| - 1
    ensures ReturnsInOrder(f, Exec(f, drain))
    ensures var e := Exec(f, drain);
            FifoInv(e) && e.tickets == f.tickets && e.producers == f.producers && e.calls == f.calls && |e.slots| == |f.slots|
    ensures var e := Exec(f, drain);
            e.consumer.Waiting? && |e.returned| - |f.returned| >= |f.tickets| - f.consumed ==> e.consumed == |e.tickets|
  {
    DrainInOrder(f, drain);
  }

  // ---------- both together ----------

  /** What the fill leaves behind. */
  ghost predicate Filled(s: System, f: System) {
    && |f.calls| == |f.producers|
    && |f.tickets| == TotalCalls(f.calls)
    && f.refusals == 0 && f.consumed == |s.tickets| && f.returned == s.returned
    && (forall i :: 0 <= i < |f.producers| ==> OwnMessages(f.tickets, i) == f.calls[i])
    && (forall t, u :: f.consumed <= t < u < |f.tickets| ==> f.tickets[t].slot != f.tickets[u].slot)
  }

  lemma FillClaimsOncePerCall(s: System, fill: seq<Label>)
    requires FifoInv(s) && Balanced(s) && AllIdle(s) && s.consumed == |s.tickets|
    requires OnlyProducers(fill) && AllIdle(Exec(s, fill))
    requires TotalCalls(Exec(s, fill).calls) <= TotalCalls(s.calls) + |s.slots| - 1
    ensures FifoInv(Exec(s, fill)) && Filled(s, Exec(s, fill)) && Balanced(Exec(s, fill))
    ensures |Exec(s, fill).slots| == |s.slots|
    ensures |Exec(s, fill).tickets| <= |s.tickets| + |s.slots| - 1
  {
    NoClaimants(s.producers);
    FillIsDisciplined(s, fill);
    var f := Exec(s, fill);
    NoClaimants(f.producers);
    forall t, u | f.consumed <= t < u < |f.tickets|
      ensures f.tickets[t].slot != f.tickets[u].slot
    {
      assert InWindow(f, t) && InWindow(f, u);
      WindowSlotsDiffer(f, t, u);
    }
  }

  /** From a state of the queue invariant in which everyone is idle and everything is consumed, let any
      number of producers make at most n - 1 legal `write` calls, interleaved in any way,
      compare-exchange failures included, and let them finish. Then every call won exactly one slot,
      at its first attempt, all slots different; each producer's claims are its calls in call order;
      and however the consumer is scheduled afterwards, its reads return exactly those messages in
      claim order, uncorrupted, and None from then on. */
  lemma FillThenDrain(s: System, fill: seq<Label>, drain: seq<Label>)
    requires FifoInv(s) && Balanced(s) && AllIdle(s) && s.consumed == |s.tickets|
    requires OnlyProducers(fill) && OnlyConsumer(drain)
    requires AllIdle(Exec(s, fill))
    requires TotalCalls(Exec(s, fill).calls) <= TotalCalls(s.calls) + |s.slots| - 1
    ensures Filled(s, Exec(s, fill))
    ensures ReturnsInOrder(Exec(s, fill), Exec(Exec(s, fill), drain))
  {
    FillClaimsOncePerCall(s, fill);
    DrainReturnsInOrder(Exec(s, fill), drain);
  }

  lemma {:induction false} CreatedIsBalanced(n: nat, cap: nat, k: nat, payload: seq<seq<byte>>)
    requires n > 0 && |payload| == n
    requires forall x :: 0 <= x < n ==> |payload[x]| == cap
    ensures Balanced(Created(n, cap, k, payload))
  {
    var s := Created(n, cap, k, payload);
    NoClaimants(s.producers);
    NoCalls(s.calls);
  }

  lemma {:induction false} NoCalls(calls: seq<seq<Message>>)
    requires forall i :: 0 <= i < |calls| ==> calls[i] == []
    ensures TotalCalls(calls) == 0
  {
    if |calls| > 0 {
      NoCalls(calls[..|calls| - 1]);
    }
  }

  /** What the first fill of a ring and the reads after it come to. */
  ghost predicate FilledAndDrained(f: System, e: System) {
    && |f.tickets| == TotalCalls(f.calls) && f.refusals == 0
    && |f.calls| == |f.producers|
    && (forall i :: 0 <= i < |f.producers| ==> OwnMessages(f.tickets, i) == f.calls[i])
    && (forall r :: 0 <= r < |e.returned| ==>
          e.returned[r] == if r < |f.tickets| then Some(ClaimOrder(f.tickets)[r]) else None)
  }

  lemma NothingReturnedYet(s: System, f: System, e: System)
    requires Filled(s, f) && ReturnsInOrder(f, e) && s.tickets == [] && s.returned == []
    ensures FilledAndDrained(f, e)
  {
    hide TotalCalls, OwnMessages;
    forall r | 0 <= r < |e.returned|
      ensures e.returned[r] == if r < |f.tickets| then Some(ClaimOrder(f.tickets)[r]) else None
    {
      assert e.returned[|f.returned| + r] == Expected(f, r);
    }
  }

  lemma ANewRingIsDrained(n: nat, cap: nat, k: nat, payload: seq<seq<byte>>)
    requires n > 0 && |payload| == n
    requires forall x :: 0 <= x < n ==> |payload[x]| == cap
    ensures var s := Created(n, cap, k, payload);
            && FifoInv(s) && Balanced(s) && AllIdle(s) && s.consumed == 0 && s.tickets == [] && s.returned == []
            && |s.slots| == n && TotalCalls(s.calls) == 0
  {
    CreatedIsFifo(n, cap, k, payload);
    CreatedIsBalanced(n, cap, k, payload);
    NoCalls(Created(n, cap, k, payload).calls);
    hide FifoInv, Balanced;
  }

  /** The same for a ring fresh from `create`, with k producers. */
  lemma FillThenDrainOnANewRing(n: nat, cap: nat, k: nat, payload: seq<seq<byte>>, fill: seq<Label>, drain: seq<Label>)
    requires n > 0 && |payload| == n
    requires forall x :: 0 <= x < n ==> |payload[x]| == cap
    requires OnlyProducers(fill) && OnlyConsumer(drain)
    requires AllIdle(Exec(Created(n, cap, k, payload), fill))
    requires TotalCalls(Exec(Created(n, cap, k, payload), fill).calls) <= n - 1
    ensures var f := Exec(Created(n, cap, k, payload), fill);
            FilledAndDrained(f, Exec(f, drain))
  {
    hide FifoInv, Typed, Exec, Balanced, Created, AllIdle, TotalCalls, OwnMessages, Filled, ReturnsInOrder, FilledAndDrained;
    var s := Created(n, cap, k, payload);
    ANewRingIsDrained(n, cap, k, payload);
    FillThenDrain(s, fill, drain);
    NothingReturnedYet(s, Exec(s, fill), Exec(Exec(s, fill), drain));
  }
}
