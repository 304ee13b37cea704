/** Filling a drained ring with any number of messages: exactly how many come back. */
module ProtocolOverfill {
  import opened Common
  import opened Residues
  import opened Protocol
  import opened ProtocolTickets
  import opened ProtocolFifo
  import opened ProtocolFillDrain
  import opened ProtocolRounds

  // ---------- each slot gives at most one message ----------

  function ReadySlots(slots: seq<Slot>): (r: nat)
    ensures r <= |slots|
  {
    if |slots| == 0 then 0
    else ReadySlots(slots[..|slots| - 1]) + One(slots[|slots| - 1].status.Ready?)
  }

  lemma {:induction false} ReadySlotsUpdate(slots: seq<Slot>, x: nat, slot: Slot)
    requires x < |slots|
    ensures ReadySlots(slots[x := slot]) == ReadySlots(slots) - One(slots[x].status.Ready?) + One(slot.status.Ready?)
  {
    var n := |slots| - 1;
    var up := slots[x := slot];
    if x == n {
      assert up[..n] == slots[..n];
    } else {
      assert up[..n] == slots[..n][x := slot];
      ReadySlotsUpdate(slots[..n], x, slot);
    }
  }

  /** The message in the consumer's hands is no longer in a Ready slot. */
  predicate InHand(s: System) {
    s.consumer.Take? && (s.consumer.stage.LoadSize? || s.consumer.stage.CopyOut? || s.consumer.stage.Bump?)
  }

  /** While no producer runs, what the consumer has seen twice to be Ready stays Ready. */
  predicate StillReady(s: System) {
    s.consumer.Take? && s.consumer.stage.SetReading? ==>
      s.consumer.slot < |s.slots| && s.slots[s.consumer.slot].status.Ready?
  }

  /** Messages returned, in hand and still Ready. */
  function Obtainable(s: System): nat {
    |Delivered(s.returned)| + One(InHand(s)) + ReadySlots(s.slots)
  }

  /** Short of the return, a step of the consumer at most stores to its own slot, and takes a message in
      hand only by storing Reading over Ready. */
  lemma TakingStoresToItsSlot(s: System)
    requires Typed(s) && StillReady(s) && s.consumer.Take? && !s.consumer.stage.Bump?
    ensures var x, s' := s.consumer.slot, TakeStep(s);
            && x < |s.slots| == |s'.slots| && StillReady(s')
            && s'.slots == s.slots[x := s'.slots[x]]
            && One(InHand(s')) + One(s'.slots[x].status.Ready?) <= One(InHand(s)) + One(s.slots[x].status.Ready?)
  {
    assert ConsumerTyped(s, s.consumer);
    var x := s.consumer.slot;
    assert x < |s.slots|;
    hide Typed, ProducerTyped, ConsumerTyped;
    assert s.slots[x := s.slots[x]] == s.slots;
  }

  lemma TakingObtainsNothingNew(s: System)
    requires Typed(s) && StillReady(s) && s.consumer.Take? && !s.consumer.stage.Bump?
    ensures StillReady(TakeStep(s)) && Obtainable(TakeStep(s)) <= Obtainable(s)
  {
    TakingStoresToItsSlot(s);
    ReturnsNothing(s, false);
    assert ConsumerStep(s, false) == TakeStep(s);
    hide Typed, TakeStep, ConsumerStep, InHand, StillReady, Delivered;
    ReadySlotsUpdate(s.slots, s.consumer.slot, TakeStep(s).slots[s.consumer.slot]);
  }

  lemma ReturningObtainsNothingNew(s: System)
    requires Typed(s) && s.consumer.Take? && s.consumer.stage.Bump?
    ensures StillReady(TakeStep(s)) && Obtainable(TakeStep(s)) <= Obtainable(s)
  {
    hide Typed, ProducerTyped, ConsumerTyped;
    DeliveredSnoc(s.returned, Some(Message(s.consumer.stage.kind, s.consumer.stage.buffer)));
  }

  lemma ReadingObtainsNothingNew(s: System, l: Label)
    requires Typed(s) && StillReady(s) && (l.BeginRead? || l.ReadStep?)
    ensures StillReady(Step(s, l)) && Obtainable(Step(s, l)) <= Obtainable(s)
  {
    if l.ReadStep? && s.consumer.Take? {
      assert Step(s, l) == TakeStep(s);
      if s.consumer.stage.Bump? { ReturningObtainsNothingNew(s); } else { TakingObtainsNothingNew(s); }
    } else {
      hide Typed, ProducerTyped, ConsumerTyped;
      DeliveredSnoc(s.returned, None);
    }
  }

  lemma {:induction false} DrainObtainsNothingNew(f: System, drain: seq<Label>)
    requires Typed(f) && StillReady(f) && OnlyConsumer(drain)
    ensures StillReady(Exec(f, drain)) && Obtainable(Exec(f, drain)) <= Obtainable(f)
  {
    if |drain| > 0 {
      var n := |drain| - 1;
      DrainObtainsNothingNew(f, drain[..n]);
      hide Typed, Step, StillReady, Obtainable;
      ReadingObtainsNothingNew(Exec(f, drain[..n]), drain[n]);
    }
  }

  /** However the ring was filled, the reads that follow return at most one message a slot. */
  lemma AtMostOneMessageASlot(f: System, drain: seq<Label>)
    requires Typed(f) && f.consumer.Waiting? && OnlyConsumer(drain)
    ensures |Delivered(Exec(f, drain).returned)| <= |Delivered(f.returned)| + |f.slots|
  {
    hide Delivered;
    DrainObtainsNothingNew(f, drain);
  }

  // ---------- equal indices ----------

  /** The indices are equal and the consumer is not past comparing them. */
  predicate Stuck(s: System) {
    && s.producerIdx == s.consumerIdx
    && (s.consumer.Waiting? || s.consumer.LoadProducerIdx?
        || (s.consumer.LoadConsumerIdx? && s.consumer.p == s.consumerIdx))
  }

  lemma {:induction false} EqualIndicesDeliverNothing(f: System, drain: seq<Label>)
    requires Typed(f) && Stuck(f) && OnlyConsumer(drain)
    ensures Stuck(Exec(f, drain)) && Delivered(Exec(f, drain).returned) == Delivered(f.returned)
  {
    if |drain| > 0 {
      var n := |drain| - 1;
      var e := Exec(f, drain[..n]);
      EqualIndicesDeliverNothing(f, drain[..n]);
      DeliveredSnoc(e.returned, None);
      assert drain[n].BeginRead? || drain[n].ReadStep?;
      hide Typed, Delivered;
    }
  }

  // ---------- how many come back ----------

  lemma {:induction false} FillReturnsNothing(s: System, fill: seq<Label>)
    requires Typed(s) && OnlyProducers(fill)
    ensures var f := Exec(s, fill);
            f.returned == s.returned && f.consumer == s.consumer && |f.slots| == |s.slots|
  {
    if |fill| > 0 {
      var n := |fill| - 1;
      FillReturnsNothing(s, fill[..n]);
      ProducersLeaveTheConsumerAlone(Exec(s, fill[..n]), fill[n]);
    }
  }

  lemma IndicesCountClaims(s: System)
    requires FifoInv(s)
    ensures |s.slots| > 0 && s.producerIdx == |s.tickets| % |s.slots| && s.consumerIdx == s.consumed % |s.slots|
  {
  }

  lemma QuietCountsClaims(f: System)
    requires Typed(f) && Balanced(f) && AllIdle(f)
    ensures |f.tickets| == TotalCalls(f.calls)
  {
    NoClaimants(f.producers);
  }

  lemma QuietCounts(s: System)
    requires Quiet(s)
    ensures Typed(s) && FifoInv(s) && Balanced(s) && AllIdle(s) && s.consumed == |s.tickets| == TotalCalls(s.calls)
    ensures |s.slots| > 0
  {
    NoClaimants(s.producers);
  }

  /** As many calls of `write` as there are slots bring the indices together again. */
  lemma FullFillMeetsTheConsumer(s: System, fill: seq<Label>)
    requires Quiet(s) && OnlyProducers(fill) && AllIdle(Exec(s, fill))
    requires TotalCalls(Exec(s, fill).calls) == TotalCalls(s.calls) + |s.slots|
    ensures Stuck(Exec(s, fill))
  {
    hide FifoInv, Typed, Exec, OnlyProducers;
    QuietCounts(s);
    FillIsDisciplined(s, fill);
    var f := Exec(s, fill);
    QuietCountsClaims(f);
    IndicesCountClaims(f);
    hide Quiet, Balanced, AllIdle, TotalCalls;
    assert |f.tickets| == s.consumed + |s.slots| && f.consumed == s.consumed;
    OneLapOn(s.consumed, |s.slots|);
  }

  /** The calls of the fill were count, and the reads after it were no fewer. */
  ghost predicate Overfilled(s: System, f: System, e: System, count: nat) {
    && AllIdle(f) && AllIdle(e)
    && TotalCalls(f.calls) == TotalCalls(s.calls) + count
    && |e.returned| >= |f.returned| + count
  }

  lemma FittingFillComesBack(s: System, fill: seq<Label>, drain: seq<Label>, count: nat)
    requires Quiet(s) && OnlyProducers(fill) && OnlyConsumer(drain) && count < |s.slots|
    requires Overfilled(s, Exec(s, fill), Exec(Exec(s, fill), drain), count)
    ensures |Delivered(Exec(Exec(s, fill), drain).returned)| == |Delivered(s.returned)| + count
  {
    var f := Exec(s, fill);
    var e := Exec(f, drain);
    RoundEndsQuiet(s, fill, drain);
    QuietMeansAllDelivered(s);
    QuietMeansAllDelivered(e);
    FillClaimsOncePerCall(s, fill);
    DrainReturnsInOrder(f, drain);
  }

  /** From a quiet ring of n slots, let producers make `count` legal calls of `write`, raced in any way, run to
      their end, and only then let at least `count` reads run to theirs. The reads return `count` messages iff that is
      at most n - 1: with n the indices meet and nothing comes back, and beyond that no slot gives more
      than one message. */
  lemma AllComeBackExactlyWhen(s: System, fill: seq<Label>, drain: seq<Label>, count: nat)
    requires Quiet(s) && OnlyProducers(fill) && OnlyConsumer(drain)
    requires Overfilled(s, Exec(s, fill), Exec(Exec(s, fill), drain), count)
    ensures |Delivered(Exec(Exec(s, fill), drain).returned)| == |Delivered(s.returned)| + count <==> count <= |s.slots| - 1
    ensures count == |s.slots| ==> Delivered(Exec(Exec(s, fill), drain).returned) == Delivered(s.returned)
  {
    assert Typed(s) && |s.slots| > 0;
    hide Quiet, Exec, Typed, Delivered;
    var f := Exec(s, fill);
    FillReturnsNothing(s, fill);
    if count < |s.slots| {
      FittingFillComesBack(s, fill, drain, count);
    } else if count == |s.slots| {
      FullFillMeetsTheConsumer(s, fill);
      EqualIndicesDeliverNothing(f, drain);
    } else {
      AtMostOneMessageASlot(f, drain);
    }
  }

  /** The same for a created ring: `count` writes and then as many reads give all the messages iff `count` is at most n - 1. */
  lemma AllComeBackFromANewRingExactlyWhen(n: nat, cap: nat, k: nat, payload: seq<seq<byte>>,
                                           fill: seq<Label>, drain: seq<Label>, count: nat)
    requires n > 0 && |payload| == n
    requires forall x :: 0 <= x < n ==> |payload[x]| == cap
    requires OnlyProducers(fill) && OnlyConsumer(drain)
    requires var f := Exec(Created(n, cap, k, payload), fill);
             var e := Exec(f, drain);
             AllIdle(f) && AllIdle(e) && TotalCalls(f.calls) == count && |e.returned| == count
    ensures var e := Exec(Exec(Created(n, cap, k, payload), fill), drain);
            |Delivered(e.returned)| == count <==> count <= n - 1
  {
    var s := Created(n, cap, k, payload);
    ANewRingIsDrained(n, cap, k, payload);
    hide Created, FifoInv, Balanced, AllIdle, Exec, Typed, TotalCalls;
    FillReturnsNothing(s, fill);
    AllComeBackExactlyWhen(s, fill, drain, count);
    assert Delivered(s.returned) == [];
  }
}
