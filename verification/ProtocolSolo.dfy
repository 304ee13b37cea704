/** A call that is not interleaved with anything does what the sequential ring says: the atomic steps
    of one `write` or `read`, scheduled back to back, add up to one sequential call. */
module ProtocolSolo {
  import opened Common
  import opened Protocol
  import Seq = SequentialRing

  /** The shared memory of the system is that of the sequential ring, ids and timestamps aside. */
  ghost predicate Matches(s: System, r: Seq.Ring) {
    && s.cap == r.cap && |s.slots| == |r.slots|
    && s.producerIdx == r.producerIdx && s.consumerIdx == r.consumerIdx && s.completed == r.completed
    && (forall x :: 0 <= x < |s.slots| ==> SameSlot(s.slots[x], r.slots[x]))
  }

  predicate SameSlot(a: Slot, b: Seq.SlotRecord) {
    a == Slot(b.status, b.kind, b.size, b.data)
  }

  // ---------- repeating one scheduling decision ----------

  function Repeat(l: Label, k: nat): seq<Label> {
    seq(k, _ => l)
  }

  /** Scheduling l some number of times in a row leads from s to s'. */
  ghost predicate Reaches(s: System, l: Label, s': System)
    requires Typed(s)
  {
    exists k: nat :: Exec(s, Repeat(l, k)) == s'
  }

  lemma ReachesItself(s: System, l: Label)
    requires Typed(s)
    ensures Reaches(s, l, s)
  {
    assert Exec(s, Repeat(l, 0)) == s;
  }

  lemma OneMoreStep(s: System, l: Label, mid: System)
    requires Typed(s) && Reaches(s, l, mid)
    ensures Typed(mid) && Reaches(s, l, Step(mid, l))
  {
    var k: nat :| Exec(s, Repeat(l, k)) == mid;
    assert Repeat(l, k + 1)[..k] == Repeat(l, k);
    assert Exec(s, Repeat(l, k + 1)) == Step(mid, l);
  }

  lemma RepeatSum(l: Label, a: nat, b: nat)
    ensures Repeat(l, a) + Repeat(l, b) == Repeat(l, a + b)
  {
  }

  lemma ThenReaches(s: System, l: Label, mid: System, s': System)
    requires Typed(s) && Typed(mid) && Reaches(s, l, mid) && Reaches(mid, l, s')
    ensures Reaches(s, l, s')
  {
    hide Exec, Typed, Repeat;
    var a: nat :| Exec(s, Repeat(l, a)) == mid;
    var b: nat :| Exec(mid, Repeat(l, b)) == s';
    ExecConcat(s, Repeat(l, a), Repeat(l, b));
    RepeatSum(l, a, b);
    assert Exec(s, Repeat(l, a + b)) == s';
  }

  // ---------- a write on its own ----------

  /** Everything but producer i, the shared memory and the claim history is as it was. */
  ghost predicate OthersIdleBy(s: System, s': System, i: nat) {
    && s'.consumer == s.consumer && |s'.producers| == |s.producers|
    && (forall j :: 0 <= j < |s.producers| && j != i ==> s'.producers[j] == s.producers[j])
    && s'.returned == s.returned && s'.calls == s.calls
  }

  /** The shared memory after a store to slot x. */
  function Storing(s: System, i: nat, x: nat, slot: Slot, pc: ProducerPc): System
    requires i < |s.producers| && x < |s.slots|
  {
    s.(slots := s.slots[x := slot], producers := s.producers[i := pc])
  }

  lemma StoreTwice(s: System, i: nat, x: nat, a: Slot, b: Slot, pc: ProducerPc, pc': ProducerPc)
    requires i < |s.producers| && x < |s.slots|
    ensures Storing(Storing(s, i, x, a, pc), i, x, b, pc') == Storing(s, i, x, b, pc')
    ensures Storing(s, i, x, s.slots[x], s.producers[i]) == s
  {
    assert s.slots[x := a][x := b] == s.slots[x := b];
    assert s.producers[i := pc][i := pc'] == s.producers[i := pc'];
    assert s.slots[x := s.slots[x]] == s.slots;
    assert s.producers[i := s.producers[i]] == s.producers;
  }

  /** One step of a holder, other than the final store, as a store to its slot. */
  lemma HolderStep(s: System, i: nat, x: nat, slot: Slot, stage: WriteStage) returns (slot': Slot, stage': WriteStage)
    requires Typed(s) && i < |s.producers| && s.producers[i].Hold? && s.producers[i].slot == x
    requires s.slots[x] == slot && s.producers[i].stage == stage
    requires !stage.CheckComplete? && !(stage.Copy? && stage.k == |s.producers[i].msg.data|)
    ensures x < |s.slots|
    ensures Step(s, WriteStep(i, false)) == Storing(s, i, x, slot', s.producers[i].(stage := stage'))
    ensures var m := s.producers[i].msg;
            match stage
            case CheckEmpty => slot' == slot && stage' == if slot.status.Empty? then ResetStatus else CheckComplete
            case ResetStatus => slot' == slot.(status := Empty) && stage' == ResetKind
            case ResetKind => slot' == slot.(kind := NoOperation) && stage' == ResetSize
            case ResetSize => slot' == slot.(size := 0) && stage' == SetKind
            case SetKind => slot' == slot.(kind := m.kind) && stage' == SetWriting
            case SetWriting => slot' == slot.(status := Writing) && stage' == SetSize
            case SetSize => slot' == slot.(size := |m.data|) && stage' == Copy(0)
            case Copy(k) =>
              && k < |m.data| <= |slot.data|
              && slot' == slot.(data := slot.data[k := m.data[k]]) && stage' == Copy(k + 1)
            case CheckComplete => true
  {
    assert ProducerTyped(s, s.producers[i]);
    StoreTwice(s, i, x, slot, slot, s.producers[i], s.producers[i]);
    assert s.slots[x := slot] == s.slots;
    var s' := Step(s, WriteStep(i, false));
    slot', stage' := s'.slots[x], s'.producers[i].stage;
  }

  /** Producer i, which held slot x in state s, has got to the given stage and slot contents. */
  ghost predicate Got(s: System, i: nat, x: nat, slot: Slot, stage: WriteStage)
    requires Typed(s)
  {
    && i < |s.producers| && x < |s.slots| && s.producers[i].Hold? && s.producers[i].slot == x
    && (var s1 := Storing(s, i, x, slot, s.producers[i].(stage := stage));
        Typed(s1) && Reaches(s, WriteStep(i, false), s1))
  }

  lemma Advance(s: System, i: nat, x: nat, slot: Slot, stage: WriteStage) returns (slot': Slot, stage': WriteStage)
    requires Typed(s) && Got(s, i, x, slot, stage)
    requires !stage.CheckComplete? && !(stage.Copy? && stage.k == |s.producers[i].msg.data|)
    ensures Got(s, i, x, slot', stage')
    ensures var m := s.producers[i].msg;
            match stage
            case CheckEmpty => slot' == slot && stage' == if slot.status.Empty? then ResetStatus else CheckComplete
            case ResetStatus => slot' == slot.(status := Empty) && stage' == ResetKind
            case ResetKind => slot' == slot.(kind := NoOperation) && stage' == ResetSize
            case ResetSize => slot' == slot.(size := 0) && stage' == SetKind
            case SetKind => slot' == slot.(kind := m.kind) && stage' == SetWriting
            case SetWriting => slot' == slot.(status := Writing) && stage' == SetSize
            case SetSize => slot' == slot.(size := |m.data|) && stage' == Copy(0)
            case Copy(k) =>
              && k < |m.data| <= |slot.data|
              && slot' == slot.(data := slot.data[k := m.data[k]]) && stage' == Copy(k + 1)
            case CheckComplete => true
  {
    hide Reaches, Exec, Repeat, Typed, ProducerTyped, ConsumerTyped, Step;
    var pc := s.producers[i];
    var s1 := Storing(s, i, x, slot, pc.(stage := stage));
    slot', stage' := HolderStep(s1, i, x, slot, stage);
    OneMoreStep(s, WriteStep(i, false), s1);
    StoreTwice(s, i, x, slot, slot', pc.(stage := stage), pc.(stage := stage'));
  }

  lemma GotStart(s: System, i: nat, x: nat)
    requires Typed(s) && i < |s.producers| && x < |s.slots| && s.producers[i].Hold? && s.producers[i].slot == x
    ensures Got(s, i, x, s.slots[x], s.producers[i].stage)
  {
    ReachesItself(s, WriteStep(i, false));
    StoreTwice(s, i, x, s.slots[x], s.slots[x], s.producers[i], s.producers[i]);
    assert Storing(s, i, x, s.slots[x], s.producers[i].(stage := s.producers[i].stage)) == s;
  }

  /** One step of a producer that holds nothing. */
  lemma SeekerStep(s: System, i: nat)
    requires Typed(s) && i < |s.producers| && !s.producers[i].Hold?
    ensures match s.producers[i]
            case LoadProducer(m, a) =>
              Step(s, WriteStep(i, false)) == s.(producers := s.producers[i := LoadConsumer(m, a, s.producerIdx)])
            case LoadConsumer(m, a, p) =>
              Step(s, WriteStep(i, false)) == s.(producers := s.producers[i := LoadCurrent(m, a)])
            case LoadCurrent(m, a) =>
              Step(s, WriteStep(i, false)) == s.(producers := s.producers[i := TryClaim(m, a, s.producerIdx)])
            case TryClaim(m, a, current) =>
              current == s.producerIdx ==> Step(s, WriteStep(i, false)) == Claim(s, i, m, a)
            case _ => true
  {
    if s.producers[i].LoadConsumer? {
      assert ProducerTyped(s, s.producers[i]);
      AvailableSlotsIsPositive(s.producers[i].p, s.consumerIdx, |s.slots|);
    }
  }

  /** The steps up to the claim. */
  lemma SoloClaim(s: System, i: nat) returns (s': System)
    requires Typed(s) && i < |s.producers| && s.producers[i].LoadProducer?
    ensures Typed(s') && Reaches(s, WriteStep(i, false), s')
    ensures OthersIdleBy(s, s', i) && s'.slots == s.slots && s'.cap == s.cap && s'.refusals == s.refusals
    ensures s'.consumerIdx == s.consumerIdx && s'.completed == s.completed
    ensures s'.producerIdx == (s.producerIdx + 1) % |s.slots|
    ensures s'.producers[i] ==
            Hold(s.producers[i].msg, s.producers[i].attempt, s.producerIdx, |s.tickets|, CheckEmpty)
  {
    var l := WriteStep(i, false);
    hide Reaches, Exec, Repeat, Typed, ProducerTyped, ConsumerTyped, Step;
    ReachesItself(s, l);
    OneMoreStep(s, l, s);
    SeekerStep(s, i);
    var s1 := Step(s, l);
    OneMoreStep(s, l, s1);
    SeekerStep(s1, i);
    var s2 := Step(s1, l);
    OneMoreStep(s, l, s2);
    SeekerStep(s2, i);
    var s3 := Step(s2, l);
    OneMoreStep(s, l, s3);
    SeekerStep(s3, i);
    s' := Step(s3, l);
  }

  /** The status check and, if it succeeds, the reset. */
  lemma SoloCheck(s: System, i: nat) returns (s': System)
    requires Typed(s) && i < |s.producers| && s.producers[i].Hold? && s.producers[i].stage.CheckEmpty?
    requires s.producers[i].attempt <= MAX_ATTEMPTS
    ensures Typed(s') && Reaches(s, WriteStep(i, false), s')
    ensures OthersIdleBy(s, s', i) && s'.cap == s.cap
    ensures s'.consumerIdx == s.consumerIdx && s'.completed == s.completed && s'.producerIdx == s.producerIdx
    ensures var pc := s.producers[i];
            && pc.slot < |s.slots|
            && (var slot := s.slots[pc.slot];
                if slot.status.Empty? || slot.status.Complete? then
                  && s'.slots == s.slots[pc.slot := Slot(Empty, NoOperation, 0, slot.data)]
                  && s'.producers[i] == pc.(stage := SetKind) && s'.refusals == s.refusals
                else
                  && s'.slots == s.slots
                  && s'.producers[i] == (if pc.attempt == MAX_ATTEMPTS then Idle else LoadProducer(pc.msg, pc.attempt + 1))
                  && s'.refusals == (if pc.attempt == MAX_ATTEMPTS then s.refusals + 1 else s.refusals))
  {
    var l := WriteStep(i, false);
    var pc := s.producers[i];
    var x := pc.slot;
    assert ProducerTyped(s, pc);
    hide Reaches, Exec, Repeat, Typed, ProducerTyped, ConsumerTyped, Step;
    GotStart(s, i, x);
    var slot, stage := Advance(s, i, x, s.slots[x], CheckEmpty);
    var s1 := Storing(s, i, x, slot, pc.(stage := stage));
    if stage.CheckComplete? {
      s' := SoloCheckComplete(s, s1, i, x);
      if slot.status.Complete? {
        s' := SoloReset(s, i, x);
      }
    } else {
      s' := SoloReset(s, i, x);
    }
  }

  /** The second look at the status. */
  lemma SoloCheckComplete(s: System, s1: System, i: nat, x: nat) returns (s': System)
    requires Typed(s) && Typed(s1) && i < |s.producers| && x < |s.slots|
    requires s.producers[i].Hold? && s.producers[i].slot == x && s.producers[i].attempt <= MAX_ATTEMPTS
    requires s1 == Storing(s, i, x, s.slots[x], s.producers[i].(stage := CheckComplete))
    requires Reaches(s, WriteStep(i, false), s1)
    ensures Typed(s') && Reaches(s, WriteStep(i, false), s') && s' == Step(s1, WriteStep(i, false))
    ensures s'.cap == s.cap && OthersIdleBy(s, s', i) && s'.slots == s.slots
    ensures s'.consumerIdx == s.consumerIdx && s'.completed == s.completed && s'.producerIdx == s.producerIdx
    ensures var pc := s.producers[i];
            if s.slots[x].status.Complete? then s' == Storing(s, i, x, s.slots[x], pc.(stage := ResetStatus))
            else
              && s'.producers[i] == (if pc.attempt == MAX_ATTEMPTS then Idle else LoadProducer(pc.msg, pc.attempt + 1))
              && s'.refusals == (if pc.attempt == MAX_ATTEMPTS then s.refusals + 1 else s.refusals)
  {
    var pc := s.producers[i];
    hide Reaches, Exec, Repeat, Typed, ProducerTyped, ConsumerTyped;
    OneMoreStep(s, WriteStep(i, false), s1);
    s' := Step(s1, WriteStep(i, false));
    assert s.slots[x := s.slots[x]] == s.slots;
    StoreTwice(s, i, x, s.slots[x], s.slots[x], pc.(stage := CheckComplete), pc.(stage := ResetStatus));
  }

  /** The three stores of `reset`. */
  lemma SoloReset(s: System, i: nat, x: nat) returns (s': System)
    requires Typed(s) && i < |s.producers| && x < |s.slots| && Got(s, i, x, s.slots[x], ResetStatus)
    ensures Typed(s') && Reaches(s, WriteStep(i, false), s')
    ensures s' == Storing(s, i, x, Slot(Empty, NoOperation, 0, s.slots[x].data), s.producers[i].(stage := SetKind))
  {
    hide Got, Reaches, Typed, Storing;
    var slot1, stage1 := Advance(s, i, x, s.slots[x], ResetStatus);
    var slot2, stage2 := Advance(s, i, x, slot1, stage1);
    var slot3, stage3 := Advance(s, i, x, slot2, stage2);
    s' := Arrived(s, i, x, slot3, stage3);
  }

  lemma Arrived(s: System, i: nat, x: nat, slot: Slot, stage: WriteStage) returns (s': System)
    requires Typed(s) && Got(s, i, x, slot, stage)
    ensures i < |s.producers| && x < |s.slots| && s.producers[i].Hold?
    ensures s' == Storing(s, i, x, slot, s.producers[i].(stage := stage))
    ensures Typed(s') && Reaches(s, WriteStep(i, false), s')
  {
    s' := Storing(s, i, x, slot, s.producers[i].(stage := stage));
  }

  /** One attempt on its own is one sequential attempt. */
  lemma SoloAttempt(s: System, i: nat, r: Seq.Ring) returns (s': System)
    requires Typed(s) && i < |s.producers| && s.producers[i].LoadProducer?
    requires s.producers[i].attempt <= MAX_ATTEMPTS
    requires Seq.Usable(r) && Matches(s, r)
    ensures Typed(s') && Reaches(s, WriteStep(i, false), s') && OthersIdleBy(s, s', i)
    ensures var (r', claimed) := Seq.Attempt(r);
            var pc := s.producers[i];
            && Matches(s', r')
            && (claimed.Some? ==>
                  && s'.producers[i] == Hold(pc.msg, pc.attempt, claimed.value, |s.tickets|, SetKind)
                  && s'.refusals == s.refusals)
            && (claimed.None? ==>
                  && s'.producers[i] ==
                     (if pc.attempt == MAX_ATTEMPTS then Idle else LoadProducer(pc.msg, pc.attempt + 1))
                  && s'.refusals == (if pc.attempt == MAX_ATTEMPTS then s.refusals + 1 else s.refusals))
  {
    hide Reaches, Exec, Repeat, ProducerTyped, ConsumerTyped, Step, ProducerStep;
    AvailableSlotsIsPositive(r.producerIdx, r.consumerIdx, |r.slots|);
    var s1 := SoloClaim(s, i);
    s' := SoloCheck(s1, i);
    ThenReaches(s, WriteStep(i, false), s1, s');
    var x := s.producerIdx;
    assert SameSlot(s.slots[x], r.slots[x]);
    hide Typed, Reaches;
    forall y | 0 <= y < |s'.slots|
      ensures SameSlot(s'.slots[y], Seq.Attempt(r).0.slots[y])
    {
      assert SameSlot(s.slots[y], r.slots[y]);
    }
  }

  /** The whole of `wait_for_slot`. */
  lemma {:induction false} SoloWait(s: System, i: nat, r: Seq.Ring) returns (s': System)
    requires Typed(s) && i < |s.producers| && s.producers[i].LoadProducer?
    requires s.producers[i].attempt <= MAX_ATTEMPTS
    requires Seq.Usable(r) && Matches(s, r)
    ensures Typed(s') && Reaches(s, WriteStep(i, false), s') && OthersIdleBy(s, s', i)
    ensures var (r', claimed) := Seq.WaitForSlot(r, s.producers[i].attempt);
            && Matches(s', r')
            && (claimed.Some? ==>
                  && s'.producers[i].Hold? && s'.producers[i].msg == s.producers[i].msg
                  && s'.producers[i].slot == claimed.value && s'.producers[i].stage == SetKind
                  && s'.refusals == s.refusals)
            && (claimed.None? ==> s'.producers[i] == Idle && s'.refusals == s.refusals + 1)
    decreases MAX_ATTEMPTS - s.producers[i].attempt
  {
    hide Reaches, Exec, Repeat, ProducerTyped, ConsumerTyped, Step, ProducerStep;
    var s1 := SoloAttempt(s, i, r);
    var (r1, claimed) := Seq.Attempt(r);
    hide Seq.Attempt, Typed, Matches;
    if claimed.Some? || s.producers[i].attempt == MAX_ATTEMPTS {
      s' := s1;
    } else {
      s' := SoloWait(s1, i, r1);
      ThenReaches(s, WriteStep(i, false), s1, s');
    }
  }

  /** What producer i leaves behind when it publishes: its slot, and itself idle. */
  ghost predicate StoredAndIdle(s: System, s': System, i: nat, x: nat, slot: Slot)
    requires x < |s.slots|
  {
    && OthersIdleBy(s, s', i) && i < |s'.producers| && s'.producers[i] == Idle
    && s'.cap == s.cap && s'.refusals == s.refusals && s'.slots == s.slots[x := slot]
    && s'.consumerIdx == s.consumerIdx && s'.completed == s.completed && s'.producerIdx == s.producerIdx
  }

  /** The stores of a write into its slot, from the kind to the final Ready. */
  lemma SoloStore(s: System, i: nat, x: nat) returns (s': System)
    requires Typed(s) && i < |s.producers| && x < |s.slots|
    requires s.producers[i].Hold? && s.producers[i].slot == x && s.producers[i].stage.SetKind?
    ensures |s.producers[i].msg.data| <= |s.slots[x].data|
    ensures Typed(s') && Reaches(s, WriteStep(i, false), s')
    ensures var m := s.producers[i].msg;
            StoredAndIdle(s, s', i, x, Slot(Ready, m.kind, |m.data|, m.data + s.slots[x].data[|m.data|..]))
  {
    var m := s.producers[i].msg;
    assert ProducerTyped(s, s.producers[i]);
    GotStart(s, i, x);
    hide Got, Reaches, Typed, Storing, StoredAndIdle;
    var slot1, stage1 := Advance(s, i, x, s.slots[x], SetKind);
    var slot2, stage2 := Advance(s, i, x, slot1, stage1);
    var slot3, stage3 := Advance(s, i, x, slot2, stage2);
    s' := SoloCopy(s, i, x, slot3, 0);
    assert s.slots[x].data[..0] + m.data[0..] == m.data;
  }

  /** A slot after the remaining bytes of m, from byte k on, were copied and Ready was stored. */
  function Finished(slot: Slot, m: Message, k: nat): Slot
    requires k <= |m.data| <= |slot.data|
  {
    slot.(status := Ready, data := slot.data[..k] + m.data[k..] + slot.data[|m.data|..])
  }

  lemma CopiedFurther(slot: Slot, m: Message, k: nat)
    requires k <= |m.data| <= |slot.data|
    ensures if k < |m.data|
            then Finished(slot.(data := slot.data[k := m.data[k]]), m, k + 1) == Finished(slot, m, k)
            else Finished(slot, m, k) == slot.(status := Ready)
  {
    var data, bytes := slot.data, m.data;
    if k < |bytes| {
      var data1 := data[k := bytes[k]];
      assert data1[..k + 1] + bytes[k + 1..] + data1[|bytes|..] == data[..k] + bytes[k..] + data[|bytes|..];
    } else {
      assert data[..k] + bytes[k..] + data[|bytes|..] == data;
    }
  }

  /** The byte-by-byte copy from byte k on, and the store of Ready. */
  lemma {:induction false} SoloCopy(s: System, i: nat, x: nat, slot: Slot, k: nat) returns (s': System)
    requires Typed(s) && Got(s, i, x, slot, Copy(k))
    ensures k <= |s.producers[i].msg.data| <= |slot.data|
    ensures Typed(s') && Reaches(s, WriteStep(i, false), s')
    ensures var m := s.producers[i].msg;
            StoredAndIdle(s, s', i, x, Finished(slot, m, k))
    decreases |s.producers[i].msg.data| - k
  {
    var m := s.producers[i].msg;
    CopyInBounds(s, i, x, slot, k);
    CopiedFurther(slot, m, k);
    hide Reaches, Typed, Got, Storing, StoredAndIdle, Finished;
    if k < |m.data| {
      var slot1, stage1 := Advance(s, i, x, slot, Copy(k));
      s' := SoloCopy(s, i, x, slot1, k + 1);
    } else {
      s' := SoloPublish(s, i, x, slot);
    }
  }

  lemma CopyInBounds(s: System, i: nat, x: nat, slot: Slot, k: nat)
    requires Typed(s) && Got(s, i, x, slot, Copy(k))
    ensures i < |s.producers| && x < |s.slots| && s.producers[i].Hold?
    ensures k <= |s.producers[i].msg.data| <= |slot.data|
  {
    var s1 := Storing(s, i, x, slot, s.producers[i].(stage := Copy(k)));
    assert ProducerTyped(s1, s1.producers[i]) && s1.slots[x] == slot;
  }

  lemma SoloPublish(s: System, i: nat, x: nat, slot: Slot) returns (s': System)
    requires Typed(s) && i < |s.producers| && x < |s.slots| && s.producers[i].Hold?
    requires Got(s, i, x, slot, Copy(|s.producers[i].msg.data|))
    ensures Typed(s') && Reaches(s, WriteStep(i, false), s')
    ensures StoredAndIdle(s, s', i, x, slot.(status := Ready))
  {
    var s1 := Storing(s, i, x, slot, s.producers[i].(stage := Copy(|s.producers[i].msg.data|)));
    hide Reaches, Exec, Repeat, Typed, ProducerTyped, ConsumerTyped;
    OneMoreStep(s, WriteStep(i, false), s1);
    s' := Step(s1, WriteStep(i, false));
    assert s1.slots[x := slot.(status := Ready)] == s.slots[x := slot.(status := Ready)];
  }

  /** A `write` that runs without interruption is one sequential `write`. */
  lemma SoloWrite(s: System, i: nat, m: Message, r: Seq.Ring, id: seq<byte>, now: nat) returns (s': System)
    requires Typed(s) && i < |s.producers| && s.producers[i].Idle?
    requires Seq.Usable(r) && Matches(s, r)
    ensures Typed(s') && Reaches(Step(s, BeginWrite(i, m)), WriteStep(i, false), s')
    ensures OthersIdleBy(Step(s, BeginWrite(i, m)), s', i) && i < |s'.producers|
    ensures var (r', w) := Seq.Write(r, m, id, now);
            && Matches(s', r') && s'.producers[i] == Idle
            && s'.refusals == s.refusals + (if w.Full? then 1 else 0)
  {
    hide Reaches, Exec, Repeat, ProducerTyped, ConsumerTyped;
    var s0 := Step(s, BeginWrite(i, m));
    if |m.data| > s.cap {
      ReachesItself(s0, WriteStep(i, false));
      s' := s0;
    } else {
      var s1 := SoloWait(s0, i, r);
      var (r1, claimed) := Seq.WaitForSlot(r, 0);
      hide Typed;
      if claimed.Some? {
        s' := SoloStore(s1, i, claimed.value);
        ThenReaches(s0, WriteStep(i, false), s1, s');
        var r' := Seq.Write(r, m, id, now).0;
        hide Reaches, Seq.WaitForSlot;
        assert |r'.slots| == |r1.slots| == |s1.slots| == |s'.slots|;
        forall y | 0 <= y < |s'.slots|
          ensures SameSlot(s'.slots[y], r'.slots[y])
        {
          assert SameSlot(s1.slots[y], r1.slots[y]);
        }
      } else {
        s' := s1;
      }
    }
  }

  // ---------- a read on its own ----------

  /** The system with the consumer at the given stage and its slot holding the given contents. */
  function Taking(s: System, x: nat, slot: Slot, stage: ReadStage): System
    requires s.consumer.Take? && x < |s.slots|
  {
    s.(slots := s.slots[x := slot], consumer := s.consumer.(stage := stage))
  }

  lemma TakingTwice(s: System, x: nat, a: Slot, b: Slot, st: ReadStage, st': ReadStage)
    requires s.consumer.Take? && x < |s.slots|
    ensures Taking(Taking(s, x, a, st), x, b, st') == Taking(s, x, b, st')
    ensures Taking(s, x, s.slots[x], s.consumer.stage) == s
  {
    assert s.slots[x := a][x := b] == s.slots[x := b];
    assert s.slots[x := s.slots[x]] == s.slots;
  }

  /** The consumer, which held slot x in state s, has got to the given stage and slot contents. */
  ghost predicate Took(s: System, x: nat, slot: Slot, stage: ReadStage)
    requires Typed(s)
  {
    && s.consumer.Take? && s.consumer.slot == x && x < |s.slots| && |slot.data| == s.cap
    && (stage.CopyOut? ==> |stage.buffer| <= stage.size <= s.cap)
    && Typed(Taking(s, x, slot, stage)) && Reaches(s, ReadStep(false), Taking(s, x, slot, stage))
  }

  /** What one step of the consumer does to its slot and stage, short of returning. */
  function TakeNext(slot: Slot, stage: ReadStage, cap: nat): (Slot, ReadStage)
    requires stage.CopyOut? ==> |stage.buffer| <= stage.size <= |slot.data|
  {
    match stage
    case CheckReady => (slot, if slot.status.Ready? then LoadKind else DropStatus)
    case LoadKind => (slot, RecheckReady(slot.kind))
    case RecheckReady(kind) => (slot, if slot.status.Ready? then SetReading(kind) else DropStatus)
    case SetReading(kind) => (slot.(status := Reading), LoadSize(kind))
    case LoadSize(kind) => (slot, if slot.size > cap then Oversize else CopyOut(kind, slot.size, []))
    case CopyOut(kind, size, buffer) =>
      if |buffer| < size then (slot, CopyOut(kind, size, buffer + [slot.data[|buffer|]]))
      else (slot.(status := Complete), Bump(kind, buffer))
    case Oversize => (slot.(status := Complete), DropStatus)
    case DropStatus => (slot.(status := Empty), DropKind)
    case DropKind => (slot.(kind := NoOperation), DropSize)
    case _ => (slot, stage)
  }

  lemma TakerStep(s: System, x: nat, slot: Slot, stage: ReadStage)
    requires Typed(s) && s.consumer.Take? && s.consumer.slot == x && x < |s.slots|
    requires s.slots[x] == slot && s.consumer.stage == stage && !stage.Bump? && !stage.DropSize?
    requires |slot.data| == s.cap && (stage.CopyOut? ==> |stage.buffer| <= stage.size <= s.cap)
    ensures var (slot', stage') := TakeNext(slot, stage, s.cap);
            Step(s, ReadStep(false)) == Taking(s, x, slot', stage')
    ensures var (slot', stage') := TakeNext(slot, stage, s.cap);
            |slot'.data| == s.cap && (stage'.CopyOut? ==> |stage'.buffer| <= stage'.size <= s.cap)
  {
    assert s.slots[x := slot] == s.slots;
    hide Typed, ProducerTyped, ConsumerTyped;
  }

  lemma TakeOn(s: System, x: nat, slot: Slot, stage: ReadStage) returns (slot': Slot, stage': ReadStage)
    requires Typed(s) && Took(s, x, slot, stage) && !stage.Bump? && !stage.DropSize?
    ensures stage.CopyOut? ==> |stage.buffer| <= stage.size <= |slot.data|
    ensures (slot', stage') == TakeNext(slot, stage, s.cap) && Took(s, x, slot', stage')
  {
    var s1 := Taking(s, x, slot, stage);
    TakerStep(s1, x, slot, stage);
    slot', stage' := TakeNext(slot, stage, s.cap).0, TakeNext(slot, stage, s.cap).1;
    hide Reaches, Exec, Repeat, Typed, ProducerTyped, ConsumerTyped, Step, TakeNext;
    OneMoreStep(s, ReadStep(false), s1);
    TakingTwice(s, x, slot, slot', stage, stage');
  }

  lemma TookStart(s: System)
    requires Typed(s) && s.consumer.Take?
    ensures s.consumer.slot < |s.slots| && Took(s, s.consumer.slot, s.slots[s.consumer.slot], s.consumer.stage)
  {
    assert ConsumerTyped(s, s.consumer);
    ReachesItself(s, ReadStep(false));
    TakingTwice(s, s.consumer.slot, s.slots[s.consumer.slot], s.slots[s.consumer.slot], s.consumer.stage, s.consumer.stage);
  }

  /** What the consumer leaves behind when it returns. */
  ghost predicate ReadDone(s: System, s': System, x: nat, slot: Slot, r: Option<Message>)
    requires x < |s.slots|
  {
    && s'.cap == s.cap && s'.producers == s.producers && s'.consumer == Waiting
    && s'.producerIdx == s.producerIdx && s'.consumerIdx == s.consumerIdx
    && s'.completed == (if r.Some? then (s.completed + 1) % U64_MODULUS else s.completed)
    && s'.slots == s.slots[x := slot] && s'.returned == s.returned + [r] && s'.refusals == s.refusals
  }

  /** The byte-by-byte copy out of the slot, Complete, and the counter. */
  lemma {:induction false} SoloCopyOut(s: System, x: nat, slot: Slot, kind: OperationKind, size: nat, buffer: seq<byte>)
    returns (s': System)
    requires Typed(s) && Took(s, x, slot, CopyOut(kind, size, buffer))
    requires |buffer| <= |slot.data| && buffer == slot.data[..|buffer|]
    ensures x < |s.slots| && size <= |slot.data|
    ensures Typed(s') && Reaches(s, ReadStep(false), s')
    ensures ReadDone(s, s', x, slot.(status := Complete), Some(Message(kind, slot.data[..size])))
    decreases size - |buffer|
  {
    var stage := CopyOut(kind, size, buffer);
    assert |buffer| <= size <= s.cap == |slot.data|;
    hide Took, Typed, Reaches, ReadDone, Exec, Step;
    var slot1, stage1 := TakeOn(s, x, slot, stage);
    assert if |buffer| < size then slot1 == slot && stage1 == CopyOut(kind, size, buffer + [slot.data[|buffer|]])
           else slot1 == slot.(status := Complete) && stage1 == Bump(kind, buffer);
    hide TakeNext;
    if |buffer| < size {
      assert slot.data[..|buffer|] + [slot.data[|buffer|]] == slot.data[..|buffer| + 1];
      s' := SoloCopyOut(s, x, slot1, kind, size, stage1.buffer);
    } else {
      s' := SoloReturn(s, x, slot1, stage1);
    }
  }

  /** The last step of a read. */
  lemma SoloReturn(s: System, x: nat, slot: Slot, stage: ReadStage) returns (s': System)
    requires Typed(s) && Took(s, x, slot, stage) && (stage.Bump? || stage.DropSize?)
    ensures x < |s.slots| && Typed(s') && Reaches(s, ReadStep(false), s')
    ensures stage.Bump? ==> ReadDone(s, s', x, slot, Some(Message(stage.kind, stage.buffer)))
    ensures stage.DropSize? ==> ReadDone(s, s', x, slot.(size := 0), None)
  {
    var s1 := Taking(s, x, slot, stage);
    hide Reaches, Exec, Repeat, Typed, ProducerTyped, ConsumerTyped;
    OneMoreStep(s, ReadStep(false), s1);
    s' := Step(s1, ReadStep(false));
    assert s1.slots[x := slot.(size := 0)] == s.slots[x := slot.(size := 0)];
  }

  /** The three stores of `reset`, then None. */
  lemma SoloDrop(s: System, x: nat, slot: Slot) returns (s': System)
    requires Typed(s) && Took(s, x, slot, DropStatus)
    ensures x < |s.slots| && Typed(s') && Reaches(s, ReadStep(false), s')
    ensures ReadDone(s, s', x, Slot(Empty, NoOperation, 0, slot.data), None)
  {
    hide Took, Typed, Reaches, ReadDone;
    var slot1, stage1 := TakeOn(s, x, slot, DropStatus);
    var slot2, stage2 := TakeOn(s, x, slot1, stage1);
    s' := SoloReturn(s, x, slot2, stage2);
  }

  /** From the claimed index to the return. */
  lemma SoloTake(s: System) returns (s': System)
    requires Typed(s) && s.consumer.Take? && s.consumer.stage.CheckReady?
    ensures s.consumer.slot < |s.slots| && |s.slots[s.consumer.slot].data| == s.cap
    ensures Typed(s') && Reaches(s, ReadStep(false), s')
    ensures var x := s.consumer.slot;
            var slot := s.slots[x];
            if slot.status.Ready? && slot.size <= s.cap then
              ReadDone(s, s', x, slot.(status := Complete), Some(Message(slot.kind, slot.data[..slot.size])))
            else
              ReadDone(s, s', x, Slot(Empty, NoOperation, 0, slot.data), None)
  {
    var x := s.consumer.slot;
    TookStart(s);
    var slot := s.slots[x];
    hide Took, Typed, Reaches, ReadDone;
    var slot1, stage1 := TakeOn(s, x, slot, CheckReady);
    if !slot.status.Ready? {
      s' := SoloDrop(s, x, slot1);
    } else {
      var slot2, stage2 := TakeOn(s, x, slot1, stage1);
      var slot3, stage3 := TakeOn(s, x, slot2, stage2);
      var slot4, stage4 := TakeOn(s, x, slot3, stage3);
      var slot5, stage5 := TakeOn(s, x, slot4, stage4);
      if slot.size > s.cap {
        var slot6, stage6 := TakeOn(s, x, slot5, stage5);
        s' := SoloDrop(s, x, slot6);
      } else {
        s' := SoloCopyOut(s, x, slot5, stage5.kind, stage5.size, []);
      }
    }
  }

  /** A `read` that runs without interruption is one sequential `read`. */
  lemma SoloRead(s: System, r: Seq.Ring) returns (s': System)
    requires Typed(s) && s.consumer.Waiting?
    requires Seq.Usable(r) && Matches(s, r)
    ensures Typed(s') && Reaches(Step(s, BeginRead), ReadStep(false), s')
    ensures var (r', got) := Seq.Read(r);
            && Matches(s', r') && s'.consumer == Waiting && s'.producers == s.producers
            && s'.returned == s.returned + [got] && s'.refusals == s.refusals
  {
    hide Reaches, Exec, Repeat, ProducerTyped, ConsumerTyped;
    var l := ReadStep(false);
    var s0 := Step(s, BeginRead);
    ReachesItself(s0, l);
    OneMoreStep(s0, l, s0);
    var s1 := Step(s0, l);
    OneMoreStep(s0, l, s1);
    var s2 := Step(s1, l);
    if s.producerIdx == s.consumerIdx {
      s' := s2;
    } else {
      OneMoreStep(s0, l, s2);
      var s3 := Step(s2, l);
      OneMoreStep(s0, l, s3);
      var s4 := Step(s3, l);
      s' := SoloTake(s4);
      ThenReaches(s0, l, s4, s');
      hide Typed, Reaches;
      assert SameSlot(s.slots[s.consumerIdx], r.slots[s.consumerIdx]);
      forall y | 0 <= y < |s'.slots|
        ensures SameSlot(s'.slots[y], Seq.Read(r).0.slots[y])
      {
        assert SameSlot(s.slots[y], r.slots[y]);
      }
    }
  }
}
