/** Obstruction freedom: whatever the others have done and wherever they stopped, a call that from some
    moment on runs alone, without spurious failures, returns. So no reachable state is a dead end. */
module ProtocolProgress {
  import opened Common
  import opened Protocol
  import opened ProtocolTickets
  import opened ProtocolSolo
  import opened ProtocolSoloRuns

  // ---------- attempts are counted ----------

  predicate AttemptsBounded(s: System) {
    forall i :: 0 <= i < |s.producers| && !s.producers[i].Idle? ==> s.producers[i].attempt <= MAX_ATTEMPTS
  }

  /** A step of producer i leaves the others alone and keeps its attempts bounded. */
  predicate OneProducerMoved(s: System, s': System, i: nat) {
    && |s'.producers| == |s.producers| && s'.consumer == s.consumer
    && s'.returned == s.returned && s'.calls == s.calls
    && (forall j :: 0 <= j < |s.producers| && j != i ==> s'.producers[j] == s.producers[j])
    && i < |s.producers|
    && (!s.producers[i].Idle? && s.producers[i].attempt <= MAX_ATTEMPTS && !s'.producers[i].Idle? ==>
          s'.producers[i].attempt <= MAX_ATTEMPTS)
    && (s.producers[i].Idle? ==> s'.producers[i].Idle?)
  }

  lemma SeekerMoves(s: System, i: nat, spurious: bool)
    requires Typed(s) && i < |s.producers| && !s.producers[i].Hold?
    ensures OneProducerMoved(s, ProducerStep(s, i, spurious), i)
  {
    assert ProducerTyped(s, s.producers[i]);
    hide Typed, ProducerTyped, ConsumerTyped, HoldStep;
  }

  lemma HolderMoves(s: System, i: nat, spurious: bool)
    requires Typed(s) && i < |s.producers| && s.producers[i].Hold?
    ensures OneProducerMoved(s, ProducerStep(s, i, spurious), i)
  {
    assert ProducerTyped(s, s.producers[i]) && s.producers[i].slot < |s.slots|;
    hide Typed, ProducerTyped, ConsumerTyped;
  }

  lemma StepBoundsAttempts(s: System, l: Label)
    requires Typed(s) && AttemptsBounded(s)
    ensures AttemptsBounded(Step(s, l))
  {
    match l
    case WriteStep(i, spurious) =>
      if i < |s.producers| {
        if s.producers[i].Hold? { HolderMoves(s, i, spurious); } else { SeekerMoves(s, i, spurious); }
        hide Typed, ProducerStep;
      }
    case ReadStep(spurious) =>
      ConsumerLeavesProducers(s, spurious);
      hide Typed, ConsumerStep;
    case BeginWrite(i, m) => hide Typed;
    case BeginRead => hide Typed;
  }

  lemma ConsumerLeavesProducers(s: System, spurious: bool)
    requires Typed(s)
    ensures ConsumerStep(s, spurious).producers == s.producers
  {
    hide Typed, ProducerTyped, ConsumerTyped;
  }

  lemma {:induction false} AttemptsInEveryRun(s: System, labels: seq<Label>)
    requires Typed(s) && AttemptsBounded(s)
    ensures AttemptsBounded(Exec(s, labels))
  {
    if |labels| > 0 {
      var n := |labels| - 1;
      AttemptsInEveryRun(s, labels[..n]);
      StepBoundsAttempts(Exec(s, labels[..n]), labels[n]);
    }
  }

  // ---------- the loser of a compare-exchange ----------

  /** A spurious failure claims nothing and reports the present index. Whatever index a producer last saw, left alone it wins the compare-exchange with its next step or the
      one after: a lost compare-exchange reports the present index, and that is what is tried next. */
  lemma LoserClaimsNext(s: System, i: nat)
    requires Typed(s) && i < |s.producers| && s.producers[i].TryClaim?
    ensures var pc := s.producers[i];
            Step(s, WriteStep(i, true)) == s.(producers := s.producers[i := TryClaim(pc.msg, pc.attempt, s.producerIdx)])
    ensures var pc := s.producers[i];
            var s1 := Step(s, WriteStep(i, false));
            var claimed := Hold(pc.msg, pc.attempt, s.producerIdx, |s.tickets|, CheckEmpty);
            if pc.current == s.producerIdx then s1.producers[i] == claimed
            else
              && s1 == s.(producers := s.producers[i := TryClaim(pc.msg, pc.attempt, s.producerIdx)])
              && Step(s1, WriteStep(i, false)).producers[i] == claimed
  {
    assert ProducerTyped(s, s.producers[i]);
    hide Typed, ConsumerTyped;
  }

  /** The same for the consumer. */
  lemma ConsumerClaimsNext(s: System)
    requires Typed(s) && s.consumer.TryConsume?
    ensures Step(s, ReadStep(true)) == s.(consumer := TryConsume(s.consumerIdx))
    ensures var s1 := Step(s, ReadStep(false));
            var claimed := Take(s.consumerIdx, s.consumed, CheckReady);
            if s.consumer.current == s.consumerIdx then s1.consumer == claimed
            else s1 == s.(consumer := TryConsume(s.consumerIdx)) && Step(s1, ReadStep(false)).consumer == claimed
  {
    hide Typed, ProducerTyped, ConsumerTyped;
  }

  // ---------- a write left alone ----------

  /** Steps the present attempt can still take. */
  function AttemptRank(s: System, pc: ProducerPc): nat {
    match pc
    case Idle => 0
    case LoadProducer(m, _) => |m.data| + 20
    case LoadConsumer(m, _, _) => |m.data| + 19
    case LoadCurrent(m, _) => |m.data| + 18
    case TryClaim(m, _, current) => |m.data| + (if current == s.producerIdx then 16 else 17)
    case Hold(m, _, _, _, stage) =>
      match stage
      case CheckEmpty => |m.data| + 15
      case CheckComplete => |m.data| + 14
      case ResetStatus => |m.data| + 13
      case ResetKind => |m.data| + 12
      case ResetSize => |m.data| + 11
      case SetKind => |m.data| + 10
      case SetWriting => |m.data| + 9
      case SetSize => |m.data| + 8
      case Copy(k) => if k <= |m.data| then |m.data| - k + 1 else 1
  }

  /** The call returned, started its next attempt, or got on with this one. */
  predicate GotOn(s: System, s': System, i: nat) {
    && i < |s.producers| && i < |s'.producers|
    && (!s.producers[i].Idle? ==>
          || s'.producers[i].Idle?
          || s'.producers[i].attempt == s.producers[i].attempt + 1
          || (s'.producers[i].attempt == s.producers[i].attempt
              && AttemptRank(s', s'.producers[i]) < AttemptRank(s, s.producers[i])))
  }

  lemma SeekerGetsOn(s: System, i: nat)
    requires Typed(s) && i < |s.producers| && !s.producers[i].Hold?
    ensures GotOn(s, ProducerStep(s, i, false), i)
  {
    assert ProducerTyped(s, s.producers[i]);
    hide Typed, ProducerTyped, ConsumerTyped, HoldStep;
  }

  lemma HolderGetsOn(s: System, i: nat)
    requires Typed(s) && i < |s.producers| && s.producers[i].Hold?
    ensures GotOn(s, ProducerStep(s, i, false), i)
  {
    var pc := s.producers[i];
    assert ProducerTyped(s, pc) && pc.slot < |s.slots| && (pc.stage.Copy? ==> pc.stage.k <= |pc.msg.data|);
    hide Typed, ProducerTyped, ConsumerTyped;
  }

  lemma OneStepAlone(s: System, i: nat)
    requires Typed(s) && i < |s.producers|
    ensures var s' := Step(s, WriteStep(i, false));
            OneProducerMoved(s, s', i) && GotOn(s, s', i)
  {
    if s.producers[i].Hold? {
      HolderMoves(s, i, false);
      HolderGetsOn(s, i);
    } else {
      SeekerMoves(s, i, false);
      SeekerGetsOn(s, i);
    }
    hide Typed, ProducerStep, OneProducerMoved, GotOn;
  }

  lemma {:induction false} FinishWrite(s: System, i: nat) returns (s': System)
    requires Typed(s) && AttemptsBounded(s) && i < |s.producers|
    ensures Typed(s') && AttemptsBounded(s') && OthersIdleBy(s, s', i)
    ensures i < |s'.producers| && s'.producers[i].Idle?
    ensures Reaches(s, WriteStep(i, false), s')
    decreases if s.producers[i].Idle? then 0 else MAX_ATTEMPTS + 1 - s.producers[i].attempt,
              AttemptRank(s, s.producers[i])
  {
    var l := WriteStep(i, false);
    hide Exec, Repeat, Reaches, Typed, ProducerTyped, ConsumerTyped;
    ReachesItself(s, l);
    if s.producers[i].Idle? {
      s' := s;
    } else {
      OneStepAlone(s, i);
      StepBoundsAttempts(s, l);
      OneMoreStep(s, l, s);
      var s1 := Step(s, l);
      hide Step, AttemptRank;
      assert s1.producers[i].Idle? || s1.producers[i].attempt <= MAX_ATTEMPTS;
      s' := FinishWrite(s1, i);
      ThenReaches(s, l, s1, s');
    }
  }

  // ---------- a read left alone ----------

  /** Steps a read can still take. */
  function ReadRank(s: System): nat {
    match s.consumer
    case Waiting => 0
    case LoadProducerIdx => s.cap + 21
    case LoadConsumerIdx(_, _) => s.cap + 20
    case LoadCurrentIdx => s.cap + 19
    case TryConsume(current) => s.cap + (if current == s.consumerIdx then 17 else 18)
    case Take(_, _, stage) =>
      match stage
      case CheckReady => s.cap + 16
      case LoadKind => s.cap + 15
      case RecheckReady(_) => s.cap + 14
      case SetReading(_) => s.cap + 13
      case LoadSize(_) => s.cap + 12
      case CopyOut(_, size, buffer) => if |buffer| <= size then size - |buffer| + 10 else 10
      case Oversize => 8
      case DropStatus => 7
      case DropKind => 6
      case DropSize => 5
      case Bump(_, _) => 5
  }

  lemma OneReadStepAlone(s: System)
    requires Typed(s) && !s.consumer.Waiting?
    ensures var s' := Step(s, ReadStep(false));
            && s'.producers == s.producers
            && (s'.consumer.Waiting? || ReadRank(s') < ReadRank(s))
  {
    assert ConsumerTyped(s, s.consumer);
    hide Typed, ProducerTyped;
  }

  lemma {:induction false} FinishRead(s: System) returns (s': System)
    requires Typed(s)
    ensures Typed(s') && s'.consumer.Waiting? && s'.producers == s.producers
    ensures Reaches(s, ReadStep(false), s')
    decreases if s.consumer.Waiting? then 0 else 1, ReadRank(s)
  {
    var l := ReadStep(false);
    hide Exec, Repeat, Reaches, Typed, ProducerTyped, ConsumerTyped;
    ReachesItself(s, l);
    if s.consumer.Waiting? {
      s' := s;
    } else {
      OneReadStepAlone(s);
      OneMoreStep(s, l, s);
      var s1 := Step(s, l);
      hide Step, ReadRank;
      s' := FinishRead(s1);
      ThenReaches(s, l, s1, s');
    }
  }

  // ---------- from every reachable state ----------

  /** Scheduling l alone, count times, makes the call in question return. */
  predicate ReturnsAfter(s: System, l: Label, count: nat)
    requires Typed(s)
  {
    var e := Exec(s, Repeat(l, count));
    match l
    case WriteStep(i, _) => i < |e.producers| && e.producers[i].Idle?
    case _ => e.consumer.Waiting?
  }

  lemma CreatedBoundsAttempts(n: nat, cap: nat, k: nat, payload: seq<seq<byte>>)
    requires n > 0 && |payload| == n
    requires forall x :: 0 <= x < n ==> |payload[x]| == cap
    ensures AttemptsBounded(Created(n, cap, k, payload))
    ensures |Created(n, cap, k, payload).producers| == k
  {
  }

  /** After any schedule of a created ring, a `write` left alone from then on returns, and so does a `read`. */
  lemma CallsLeftAloneReturn(n: nat, cap: nat, k: nat, payload: seq<seq<byte>>, labels: seq<Label>, i: nat)
    requires n > 0 && |payload| == n && i < k
    requires forall x :: 0 <= x < n ==> |payload[x]| == cap
    ensures exists count: nat :: ReturnsAfter(Exec(Created(n, cap, k, payload), labels), WriteStep(i, false), count)
    ensures exists count: nat :: ReturnsAfter(Exec(Created(n, cap, k, payload), labels), ReadStep(false), count)
  {
    var s0 := Created(n, cap, k, payload);
    CreatedBoundsAttempts(n, cap, k, payload);
    hide Created, Typed;
    AttemptsInEveryRun(s0, labels);
    SlotCountIsConstant(s0, labels);
    var s := Exec(s0, labels);
    hide Exec;
    var w := FinishWrite(s, i);
    var a: nat :| Exec(s, Repeat(WriteStep(i, false), a)) == w;
    assert ReturnsAfter(s, WriteStep(i, false), a);
    var r := FinishRead(s);
    var b: nat :| Exec(s, Repeat(ReadStep(false), b)) == r;
    assert ReturnsAfter(s, ReadStep(false), b);
  }

  /** The first j producers are idle. */
  predicate IdleUpTo(s: System, j: nat) {
    j <= |s.producers| && forall i :: 0 <= i < j ==> s.producers[i] == Idle
  }

  lemma {:induction false} FinishWrites(s: System, j: nat) returns (s': System)
    requires Typed(s) && AttemptsBounded(s) && j <= |s.producers|
    ensures Typed(s') && Leads(s, s') && |s'.producers| == |s.producers| && IdleUpTo(s', j) && AttemptsBounded(s')
  {
    if j == 0 {
      assert Exec(s, []) == s;
      s' := s;
    } else {
      hide Typed, Leads, Reaches, Exec, AttemptsBounded;
      var mid := FinishWrites(s, j - 1);
      s' := FinishWrite(mid, j - 1);
      LeadsRepeated(mid, WriteStep(j - 1, false), s');
      LeadsOn(s, mid, s');
    }
  }

  lemma FinishEverything(s: System) returns (s': System)
    requires Typed(s) && AttemptsBounded(s)
    ensures Typed(s') && Leads(s, s') && Quiescent(s', |s.producers|)
  {
    hide Typed, Leads, Reaches, Exec, AttemptsBounded;
    var mid := FinishWrites(s, |s.producers|);
    s' := FinishRead(mid);
    LeadsRepeated(mid, ReadStep(false), s');
    LeadsOn(s, mid, s');
  }

  /** No reachable state is a dead end: after any schedule of a created ring there is a continuation that
      brings every call to its end. */
  lemma EveryRunCanFinish(n: nat, cap: nat, k: nat, payload: seq<seq<byte>>, labels: seq<Label>)
    requires n > 0 && |payload| == n
    requires forall x :: 0 <= x < n ==> |payload[x]| == cap
    ensures exists more: seq<Label> :: Quiescent(Exec(Exec(Created(n, cap, k, payload), labels), more), k)
  {
    var s0 := Created(n, cap, k, payload);
    CreatedBoundsAttempts(n, cap, k, payload);
    hide Created, Typed, Quiescent;
    AttemptsInEveryRun(s0, labels);
    SlotCountIsConstant(s0, labels);
    var s := Exec(s0, labels);
    hide Exec, Leads;
    var e := FinishEverything(s);
    var more := ScheduleTo(s, e);
    assert Quiescent(Exec(s, more), k);
  }
}
