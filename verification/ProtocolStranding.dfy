/** What a lost ticket can look like from outside: on every ring of two or more slots there is a schedule
    in which a write succeeds, its message lies Ready in the ring, and reads return None. Exactly when
    a ticket is lost is the subject of `ProtocolExact`. */
module ProtocolStranding {
  import opened Common
  import opened Residues
  import opened Protocol
  import opened ProtocolTickets
  import opened ProtocolFifo
  import opened ProtocolSolo
  import opened ProtocolSoloRuns
  import Seq = SequentialRing

  /** A sequential ring with the system's shared memory. */
  function Lift(s: System): (r: Seq.Ring)
    requires Typed(s)
    ensures Seq.Usable(r)
    ensures Matches(s, r)
  {
    Seq.Ring(s.cap, s.producerIdx, s.consumerIdx, s.completed,
             seq(|s.slots|, x requires 0 <= x < |s.slots| =>
               Seq.SlotRecord(s.slots[x].status, s.slots[x].kind, s.slots[x].size, Seq.NIL_ID, 0, s.slots[x].data)))
  }

  /** A whole read: where it leads, and what it returns. */
  lemma WholeRead(s: System) returns (s': System)
    requires Typed(s) && s.consumer.Waiting?
    ensures Typed(s') && Leads(s, s')
    ensures s'.consumer == Waiting && s'.producers == s.producers && |s'.slots| == |s.slots| && s'.cap == s.cap
    ensures s'.producerIdx == s.producerIdx && s'.refusals == s.refusals
    ensures s.producerIdx == s.consumerIdx ==>
              s'.slots == s.slots && s'.consumerIdx == s.consumerIdx && s'.returned == s.returned + [None]
    ensures s.producerIdx != s.consumerIdx ==> s'.consumerIdx == (s.consumerIdx + 1) % |s.slots|
    ensures s.consumerIdx < |s.slots|
    ensures s.producerIdx != s.consumerIdx && !s.slots[s.consumerIdx].status.Ready? ==>
              && s'.slots[s.consumerIdx] == Slot(Empty, NoOperation, 0, s.slots[s.consumerIdx].data)
              && s'.returned == s.returned + [None]
  {
    assert s.consumerIdx < |s.slots|;
    var r := Lift(s);
    hide Typed, Reaches, Leads, Exec, Step, Matches, Lift, Seq.Read, Seq.Usable;
    s' := SoloRead(s, r);
    LeadsOneStep(s, BeginRead);
    LeadsRepeated(Step(s, BeginRead), ReadStep(false), s');
    LeadsOn(s, Step(s, BeginRead), s');
    MemoryAfterRead(s, r, s');
  }

  lemma MemoryAfterRead(s: System, r: Seq.Ring, s': System)
    requires Seq.Usable(r) && Matches(s, r) && Matches(s', Seq.Read(r).0)
    ensures s'.producerIdx == s.producerIdx && s'.cap == s.cap
    ensures s.consumerIdx < |s.slots| == |s'.slots|
    ensures s.producerIdx == s.consumerIdx ==>
              s'.slots == s.slots && s'.consumerIdx == s.consumerIdx && Seq.Read(r).1 == None
    ensures s.producerIdx != s.consumerIdx ==> s'.consumerIdx == (s.consumerIdx + 1) % |s.slots|
    ensures s.producerIdx != s.consumerIdx && !s.slots[s.consumerIdx].status.Ready? ==>
              && s'.slots[s.consumerIdx] == Slot(Empty, NoOperation, 0, s.slots[s.consumerIdx].data)
              && Seq.Read(r).1 == None
  {
    var r' := Seq.Read(r).0;
    assert forall x :: 0 <= x < |s.slots| ==> SameSlot(s.slots[x], r.slots[x]) && SameSlot(s'.slots[x], r'.slots[x]);
    assert SameSlot(s'.slots[s.consumerIdx], r'.slots[s.consumerIdx]);
  }

  /** A producer that has claimed slot 0 of an otherwise empty ring and is about to look at it. */
  predicate AtTheDoor(s: System, m: Message) {
    && |s.producers| == 1 && s.consumer.Waiting? && s.returned == [] && s.refusals == 0
    && |s.slots| >= 2 && s.producerIdx == 1 && s.consumerIdx == 0
    && s.slots[0].status.Empty? && |m.data| <= s.cap
    && s.producers[0].Hold? && s.producers[0].slot == 0 && s.producers[0].msg == m
    && s.producers[0].attempt == 0 && s.producers[0].stage.CheckEmpty?
  }

  lemma ToTheDoor(s0: System, m: Message) returns (s1: System)
    requires Typed(s0) && |s0.producers| == 1 && s0.producers[0].Idle? && s0.consumer.Waiting?
    requires |s0.slots| >= 2 && s0.producerIdx == s0.consumerIdx == 0 && s0.returned == []
    requires s0.slots[0].status.Empty? && |m.data| <= s0.cap && s0.refusals == 0
    ensures Typed(s1) && Leads(s0, s1) && AtTheDoor(s1, m) && |s1.slots| == |s0.slots|
  {
    hide Typed, Reaches, Leads, Exec, ProducerStep, ConsumerStep;
    var a := Step(s0, BeginWrite(0, m));
    assert a.producers[0] == LoadProducer(m, 0);
    s1 := SoloClaim(a, 0);
    QuotientUnique(1, |s0.slots|, 0, 1);
    LeadsOneStep(s0, BeginWrite(0, m));
    LeadsRepeated(a, WriteStep(0, false), s1);
    LeadsOn(s0, a, s1);
  }

  /** The read that comes too early, then the rest of the write. */
  lemma ReadThenPublish(s1: System, m: Message) returns (s4: System)
    requires Typed(s1) && AtTheDoor(s1, m)
    ensures Typed(s4) && Leads(s1, s4)
    ensures |s4.producers| == 1 && s4.producers[0].Idle? && |s4.slots| == |s1.slots| && s4.refusals == 0
    ensures s4.slots[0].status.Ready? && Carries(s4.slots[0], m)
    ensures s4.producerIdx == s4.consumerIdx == 1 && s4.consumer.Waiting? && s4.returned == [None]
  {
    hide Typed, Reaches, Leads, Exec;
    var s2 := WholeRead(s1);
    QuotientUnique(1, |s1.slots|, 0, 1);
    var s3 := SoloCheck(s2, 0);
    LeadsRepeated(s2, WriteStep(0, false), s3);
    LeadsOn(s1, s2, s3);
    s4 := SoloStore(s3, 0, 0);
    LeadsRepeated(s3, WriteStep(0, false), s4);
    LeadsOn(s1, s3, s4);
    var data := s3.slots[0].data;
    assert (m.data + data[|m.data|..])[..|m.data|] == m.data;
  }

  /** The producer claims slot 0; the consumer reads, finds it not Ready and resets it; the producer goes
      on, publishes and returns success; the next read returns None although the message lies Ready in
      the ring. Such a schedule exists on every ring of two or more slots. */
  lemma EarlyReadStrandsAMessage(n: nat, cap: nat, payload: seq<seq<byte>>, m: Message)
    requires n >= 2 && |payload| == n && |m.data| <= cap
    requires forall x :: 0 <= x < n ==> |payload[x]| == cap
    ensures exists labels: seq<Label> :: Stranded(Exec(Created(n, cap, 1, payload), labels), m)
  {
    var s0 := Created(n, cap, 1, payload);
    assert s0.producers[0] == Idle && s0.slots[0].status == Empty;
    hide Typed, Exec;
    var s1 := ToTheDoor(s0, m);
    var s4 := ReadThenPublish(s1, m);
    var s := WholeRead(s4);
    LeadsOn(s0, s1, s4);
    LeadsOn(s0, s4, s);
    NothingDelivered(s.returned);
    var labels :| Exec(s0, labels) == s;
    assert Stranded(Exec(s0, labels), m);
  }

  /** The write has returned without refusal, its message is Ready in slot 0, and two reads returned None. */
  ghost predicate Stranded(s: System, m: Message) {
    && |s.producers| == 1 && s.producers[0].Idle? && s.refusals == 0 && s.consumer.Waiting?
    && |s.slots| > 0 && s.slots[0].status.Ready? && Carries(s.slots[0], m)
    && |s.returned| == 2 && Delivered(s.returned) == []
    && s.producerIdx == s.consumerIdx
  }

  lemma NothingDelivered(returned: seq<Option<Message>>)
    requires returned == [None, None]
    ensures Delivered(returned) == []
  {
    var one: seq<Option<Message>> := [None];
    assert returned[..1] == one && one[..0] == [];
    assert Delivered(one) == [];
  }
}
