/** Whole sequential runs: queue order with overflow, usable capacity, and when a ring can stall. */
module SequentialRuns {
  import opened Common
  import opened Residues
  import opened SequentialRing
  import opened SequentialTheory

  // ---------- the exact rules of one call ----------

  /** Write and read in one place. A legal write is accepted iff a slot is free and at most ten places
      past the producer index; refused, it moves that index by eleven and touches no slot. A read
      delivers iff the indices differ, and never resets a slot. */
  lemma CallRules(r: Ring, q: seq<Message>, m: Message, id: seq<byte>, now: nat)
    requires Queue(r, q)
    ensures Write(r, m, id, now).1.TooLarge? <==> |m.data| > r.cap
    ensures |m.data| > r.cap ==> Write(r, m, id, now).0 == r
    ensures |m.data| <= r.cap ==>
              (Write(r, m, id, now).1.Wrote? <==> |q| < |r.slots| && |q| - Distance(r) <= 10)
    ensures Write(r, m, id, now).1.Full? ==>
              Write(r, m, id, now).0 == r.(producerIdx := (r.producerIdx + 11) % |r.slots|)
    ensures Read(r).1.Some? <==> Distance(r) > 0
    ensures Read(r).1.None? ==> Read(r).0 == r
  {
    if |m.data| <= r.cap {
      if Accepts(r, |q|) { WriteAccepted(r, q, m, id, now); } else { WriteRefused(r, q, m, id, now); }
    }
    ReadExact(r, q);
  }

  // ---------- first in, first out ----------

  /** The queue after one call, as its result tells it. */
  function QueueAfter(q: seq<Message>, call: Call, outcome: Outcome): seq<Message> {
    match outcome
    case Written(Wrote(_)) => if call.WriteCall? then q + [call.msg] else q
    case ReadBack(Some(_)) => if |q| > 0 then q[1..] else q
    case _ => q
  }

  lemma StepRefinesQueue(r: Ring, q: seq<Message>, call: Call)
    requires Queue(r, q)
    ensures var (r', outcome) := Step(r, call);
            && Queue(r', QueueAfter(q, call, outcome))
            && (outcome.ReadBack? && outcome.message.Some? ==> |q| > 0 && outcome.message.value == q[0])
            && (outcome.Written? && outcome.result.Wrote? ==> call.WriteCall?)
            && r'.completed == (if outcome.ReadBack? && outcome.message.Some?
                                then (r.completed + 1) % U64_MODULUS else r.completed)
  {
    match call
    case WriteCall(m, id, now) =>
      if |m.data| <= r.cap {
        if Accepts(r, |q|) { WriteAccepted(r, q, m, id, now); } else { WriteRefused(r, q, m, id, now); }
      }
    case ReadCall => ReadExact(r, q);
  }

  lemma CreatedIsEmptyQueue(n: nat, cap: nat, payload: seq<seq<byte>>)
    requires n > 0 && |payload| == n
    requires forall x :: 0 <= x < n ==> |payload[x]| == cap
    ensures Queue(Created(n, cap, payload), [])
  {
  }

  lemma LogsSnoc(calls: seq<Call>, outcomes: seq<Outcome>, call: Call, outcome: Outcome)
    requires |calls| == |outcomes|
    ensures Accepted(calls + [call], outcomes + [outcome]) ==
            Accepted(calls, outcomes) + AcceptedBy(call, outcome)
    ensures Delivered(outcomes + [outcome]) == Delivered(outcomes) + DeliveredBy(outcome)
  {
    assert (calls + [call])[..|calls|] == calls;
    assert (outcomes + [outcome])[..|outcomes|] == outcomes;
  }

  /** The logs of a run agree with what the ring still holds. */
  ghost predicate Settled(r: Ring, calls: seq<Call>, outcomes: seq<Outcome>) {
    && |calls| == |outcomes|
    && Usable(r) && Queue(r, Pending(r))
    && Accepted(calls, outcomes) == Delivered(outcomes) + Pending(r)
    && r.completed == |Delivered(outcomes)| % U64_MODULUS
  }

  function AcceptedBy(call: Call, outcome: Outcome): seq<Message> {
    if call.WriteCall? && outcome.Written? && outcome.result.Wrote? then [call.msg] else []
  }

  function DeliveredBy(outcome: Outcome): seq<Message> {
    if outcome.ReadBack? && outcome.message.Some? then [outcome.message.value] else []
  }

  /** Old queue plus what a call accepts is what it delivers plus the new queue. */
  lemma OneCallBalances(q: seq<Message>, call: Call, outcome: Outcome)
    requires outcome.ReadBack? && outcome.message.Some? ==> |q| > 0 && outcome.message.value == q[0]
    requires outcome.Written? && outcome.result.Wrote? ==> call.WriteCall?
    ensures q + AcceptedBy(call, outcome) == DeliveredBy(outcome) + QueueAfter(q, call, outcome)
  {
  }

  lemma LogsBalance(calls: seq<Call>, outcomes: seq<Outcome>, q: seq<Message>, call: Call, outcome: Outcome)
    requires |calls| == |outcomes|
    requires Accepted(calls, outcomes) == Delivered(outcomes) + q
    requires outcome.ReadBack? && outcome.message.Some? ==> |q| > 0 && outcome.message.value == q[0]
    requires outcome.Written? && outcome.result.Wrote? ==> call.WriteCall?
    ensures Accepted(calls + [call], outcomes + [outcome]) ==
            Delivered(outcomes + [outcome]) + QueueAfter(q, call, outcome)
  {
    LogsSnoc(calls, outcomes, call, outcome);
    OneCallBalances(q, call, outcome);
    Regroup(Accepted(calls, outcomes), Delivered(outcomes), q,
            AcceptedBy(call, outcome), DeliveredBy(outcome), QueueAfter(q, call, outcome));
  }

  lemma Regroup(a: seq<Message>, d: seq<Message>, q: seq<Message>,
                x: seq<Message>, y: seq<Message>, q': seq<Message>)
    requires a == d + q && q + x == y + q'
    ensures a + x == d + y + q'
  {
    assert a + x == d + (q + x);
  }

  lemma CounterKeepsUp(calls: seq<Call>, outcomes: seq<Outcome>, call: Call, outcome: Outcome)
    requires |calls| == |outcomes|
    ensures |Delivered(outcomes + [outcome])| % U64_MODULUS ==
            (if DeliveredBy(outcome) == [] then |Delivered(outcomes)| % U64_MODULUS
             else (|Delivered(outcomes)| % U64_MODULUS + 1) % U64_MODULUS)
  {
    LogsSnoc(calls, outcomes, call, outcome);
    if DeliveredBy(outcome) != [] {
      SuccessorResidue(|Delivered(outcomes)|, U64_MODULUS);
    }
  }

  lemma StepSettles(r: Ring, calls: seq<Call>, outcomes: seq<Outcome>, call: Call)
    requires Settled(r, calls, outcomes)
    ensures Settled(Step(r, call).0, calls + [call], outcomes + [Step(r, call).1])
  {
    var q := Pending(r);
    var (r', outcome) := Step(r, call);
    StepRefinesQueue(r, q, call);
    PendingIsQueue(r', QueueAfter(q, call, outcome));
    LogsBalance(calls, outcomes, q, call, outcome);
    CounterKeepsUp(calls, outcomes, call, outcome);
  }

  lemma {:induction false} RunSettles(r0: Ring, calls: seq<Call>)
    requires Queue(r0, []) && r0.completed == 0
    ensures Settled(Run(r0, calls).0, calls, Run(r0, calls).1)
  {
    if |calls| == 0 {
      PendingIsQueue(r0, []);
    } else {
      var n := |calls| - 1;
      RunSettles(r0, calls[..n]);
      StepSettles(Run(r0, calls[..n]).0, calls[..n], Run(r0, calls[..n]).1, calls[n]);
      assert calls[..n] + [calls[n]] == calls;
    }
  }

  /** After any sequence of whole calls on a created ring, overflow and refused writes included: the
      accepted messages are the delivered ones followed by the ones still pending, in order, kinds and
      bytes intact; the Ready slots are one arc from the consumer index on; and
      `operations_completed` counts the deliveries. */
  lemma SequentialRunsAreFifo(n: nat, cap: nat, payload: seq<seq<byte>>, calls: seq<Call>)
    requires n > 0 && |payload| == n
    requires forall x :: 0 <= x < n ==> |payload[x]| == cap
    ensures var (r, outcomes) := Run(Created(n, cap, payload), calls);
            && Queue(r, Pending(r))
            && Accepted(calls, outcomes) == Delivered(outcomes) + Pending(r)
            && r.completed == |Delivered(outcomes)| % U64_MODULUS
  {
    CreatedIsEmptyQueue(n, cap, payload);
    RunSettles(Created(n, cap, payload), calls);
  }

  /** Would the next read fall through to the reset of its slot? */
  predicate ReadWouldReset(r: Ring)
    requires Usable(r)
  {
    var s := r.slots[r.consumerIdx];
    r.producerIdx != r.consumerIdx && !(s.status.Ready? && s.size <= r.cap)
  }

  /** Conservation: pending messages are the accepted ones minus the delivered ones, and the reset
      branch of `read` cannot be reached by whole calls. */
  lemma NothingIsLost(n: nat, cap: nat, payload: seq<seq<byte>>, calls: seq<Call>)
    requires n > 0 && |payload| == n
    requires forall x :: 0 <= x < n ==> |payload[x]| == cap
    ensures var (r, outcomes) := Run(Created(n, cap, payload), calls);
            && multiset(Pending(r)) == multiset(Accepted(calls, outcomes)) - multiset(Delivered(outcomes))
            && !ReadWouldReset(r)
  {
    SequentialRunsAreFifo(n, cap, payload, calls);
    var (r, outcomes) := Run(Created(n, cap, payload), calls);
    ReadExact(r, Pending(r));
    assert At(r.consumerIdx, 0, n) == r.consumerIdx;
    if |Pending(r)| > 0 { assert Holds(r.slots[At(r.consumerIdx, 0, n)], Pending(r)[0]); }
  }

  // ---------- usable capacity ----------

  /** A plain queue together with the number of messages ever written. */
  datatype Fifo = Fifo(queue: seq<Message>, written: nat)

  function FifoStep(f: Fifo, call: Call, n: nat, cap: nat): (Fifo, Outcome)
    requires n > 0
  {
    match call
    case WriteCall(m, _, _) =>
      if |m.data| > cap then (f, Written(TooLarge))
      else (Fifo(f.queue + [m], f.written + 1), Written(Wrote(f.written % n)))
    case ReadCall =>
      if f.queue == [] then (f, ReadBack(None))
      else (f.(queue := f.queue[1..]), ReadBack(Some(f.queue[0])))
  }

  function FifoRun(calls: seq<Call>, n: nat, cap: nat): (o: (Fifo, seq<Outcome>))
    requires n > 0
    ensures |o.1| == |calls|
  {
    if |calls| == 0 then (Fifo([], 0), [])
    else
      var (f, outcomes) := FifoRun(calls[..|calls| - 1], n, cap);
      var (f', last) := FifoStep(f, calls[|calls| - 1], n, cap);
      (f', outcomes + [last])
  }

  /** The plain queue never holds more than n - 1 messages along the calls. */
  predicate StaysBelow(calls: seq<Call>, n: nat, cap: nat)
    requires n > 0
  {
    |calls| > 0 ==>
      && StaysBelow(calls[..|calls| - 1], n, cap)
      && |FifoRun(calls, n, cap).0.queue| <= n - 1
  }

  /** Ring and plain queue agree, and no index was wasted. */
  ghost predicate InStep(r: Ring, f: Fifo) {
    && Queue(r, f.queue)
    && Distance(r) == |f.queue|
    && r.producerIdx == f.written % |r.slots|
  }

  lemma StepMatchesFifo(r: Ring, f: Fifo, call: Call)
    requires InStep(r, f)
    requires |FifoStep(f, call, |r.slots|, r.cap).0.queue| <= |r.slots| - 1
    ensures Step(r, call).1 == FifoStep(f, call, |r.slots|, r.cap).1
    ensures InStep(Step(r, call).0, FifoStep(f, call, |r.slots|, r.cap).0)
  {
    match call
    case WriteCall(m, id, now) =>
      if |m.data| <= r.cap {
        WriteAccepted(r, f.queue, m, id, now);
        SuccessorResidue(f.written, |r.slots|);
      }
    case ReadCall => ReadExact(r, f.queue);
  }

  /** As long as fewer than n messages are held, the n-slot ring behaves exactly like a plain queue,
      result by result: each legal write succeeds on its first attempt (the k-th accepted one in slot
      k mod n), and a read returns None iff the queue is empty. */
  lemma {:induction false} RingIsABoundedFifo(n: nat, cap: nat, payload: seq<seq<byte>>, calls: seq<Call>)
    requires n > 0 && |payload| == n
    requires forall x :: 0 <= x < n ==> |payload[x]| == cap
    requires StaysBelow(calls, n, cap)
    ensures Run(Created(n, cap, payload), calls).1 == FifoRun(calls, n, cap).1
    ensures InStep(Run(Created(n, cap, payload), calls).0, FifoRun(calls, n, cap).0)
  {
    var r0 := Created(n, cap, payload);
    if |calls| == 0 {
      CreatedIsEmptyQueue(n, cap, payload);
      QuotientUnique(0, n, 0, 0);
    } else {
      var k := |calls| - 1;
      RingIsABoundedFifo(n, cap, payload, calls[..k]);
      StepMatchesFifo(Run(r0, calls[..k]).0, FifoRun(calls[..k], n, cap).0, calls[k]);
    }
  }

  /** n - 1 is the most: with n - 1 messages pending one more write is still accepted, and after it a
      read returns None although n messages are waiting. */
  lemma TheLastSlotHidesTheQueue(r: Ring, q: seq<Message>, m: Message, id: seq<byte>, now: nat)
    requires Queue(r, q) && Distance(r) == |q| == |r.slots| - 1 && |m.data| <= r.cap
    ensures var (r', w) := Write(r, m, id, now);
            && w.Wrote? && Pending(r') == q + [m] && |Pending(r')| == |r.slots|
            && Read(r') == (r', None)
  {
    WriteAccepted(r, q, m, id, now);
    var r' := Write(r, m, id, now).0;
    PendingIsQueue(r', q + [m]);
    ReadExact(r', q + [m]);
  }

  // ---------- stalls ----------

  /** Unless the ring has 1 or 11 slots, at most two further legal writes make the oldest pending
      message readable, whatever state overflow has led to. */
  lemma TwoWritesUnblock(r: Ring, q: seq<Message>, m1: Message, m2: Message, id: seq<byte>, now: nat)
    requires Queue(r, q) && |q| > 0 && |r.slots| != 1 && |r.slots| != 11
    requires |m1.data| <= r.cap && |m2.data| <= r.cap
    ensures var r1 := Write(r, m1, id, now).0;
            var r2 := Write(r1, m2, id, now).0;
            Read(r).1 == Some(q[0]) || Read(r1).1 == Some(q[0]) || Read(r2).1 == Some(q[0])
  {
    ReadExact(r, q);
    if Distance(r) == 0 {
      var r1 := Write(r, m1, id, now).0;
      if Accepts(r, |q|) {
        WriteAccepted(r, q, m1, id, now);
        ReadExact(r1, q + [m1]);
        if Distance(r1) == 0 {
          WriteRefused(r1, q + [m1], m2, id, now);
          ElevenMovesTheIndex(r1);
          ReadExact(Write(r1, m2, id, now).0, q + [m1]);
        }
      } else {
        WriteRefused(r, q, m1, id, now);
        if |q| == |r.slots| { ElevenMovesTheIndex(r); }
        ReadExact(r1, q);
      }
    }
  }

  /** Eleven failed attempts bring the producer index back to where it was iff n divides 11. */
  lemma ElevenMovesTheIndex(r: Ring)
    requires Usable(r)
    ensures (r.producerIdx + 11) % |r.slots| == r.producerIdx <==> |r.slots| == 1 || |r.slots| == 11
  {
    var n, p := |r.slots|, r.producerIdx;
    var k := (p + 11) / n;
    assert p + 11 == n * k + (p + 11) % n;
    if (p + 11) % n == p {
      assert n * k == 11;
      ElevenIsPrime(n, k);
    }
    if n == 11 { QuotientUnique(p + 11, n, 1, p); }
    if n == 1 { QuotientUnique(p + 11, n, p + 11, 0); }
  }

  lemma ElevenIsPrime(a: nat, b: nat)
    requires a * b == 11
    ensures a == 1 || a == 11
  {
    assert 0 < a && 0 < b;
    assert a * b == a + a * (b - 1);
    assert a <= 11;
    if {
      case a == 1 || a == 11 =>
      case a == 2 || a == 3 =>
      case a == 4 || a == 5 =>
      case a == 6 || a == 7 =>
      case a == 8 || a == 9 =>
      case a == 10 =>
    }
  }

  /** A full ring of 1 or 11 slots with equal indices stays so: it refuses every write and every read
      returns None. */
  lemma {:induction false} StalledForever(r: Ring, q: seq<Message>, calls: seq<Call>)
    requires Queue(r, q) && |q| == |r.slots| && Distance(r) == 0
    requires |r.slots| == 1 || |r.slots| == 11
    ensures var (r', outcomes) := Run(r, calls);
            && Queue(r', q) && Distance(r') == 0 && |r'.slots| == |r.slots|
            && Accepted(calls, outcomes) == [] && Delivered(outcomes) == []
  {
    if |calls| > 0 {
      var k := |calls| - 1;
      StalledForever(r, q, calls[..k]);
      var r1 := Run(r, calls[..k]).0;
      assert Run(r, calls).1[..k] == Run(r, calls[..k]).1;
      match calls[k]
      case WriteCall(m, id, now) =>
        if |m.data| <= r1.cap {
          WriteRefused(r1, q, m, id, now);
          ElevenMovesTheIndex(r1);
        }
      case ReadCall => ReadExact(r1, q);
    }
  }

  /** On rings of 1 or 11 slots the two indices are always pending mod n apart. */
  lemma {:induction false} NoGapOnElevenSlots(n: nat, cap: nat, payload: seq<seq<byte>>, calls: seq<Call>)
    requires n == 1 || n == 11
    requires |payload| == n && forall x :: 0 <= x < n ==> |payload[x]| == cap
    ensures var r := Run(Created(n, cap, payload), calls).0;
            && Queue(r, Pending(r))
            && Distance(r) == (if |Pending(r)| == n then 0 else |Pending(r)|)
  {
    SequentialRunsAreFifo(n, cap, payload, calls);
    var r0 := Created(n, cap, payload);
    if |calls| == 0 {
      CreatedIsEmptyQueue(n, cap, payload);
      PendingIsQueue(r0, []);
    } else {
      var k := |calls| - 1;
      NoGapOnElevenSlots(n, cap, payload, calls[..k]);
      var r1 := Run(r0, calls[..k]).0;
      StepKeepsNoGap(r1, Pending(r1), calls[k]);
    }
  }

  lemma StepKeepsNoGap(r: Ring, q: seq<Message>, call: Call)
    requires Queue(r, q) && (|r.slots| == 1 || |r.slots| == 11)
    requires Distance(r) == (if |q| == |r.slots| then 0 else |q|)
    ensures var r' := Step(r, call).0;
            Distance(r') == (if |Pending(r')| == |r.slots| then 0 else |Pending(r')|)
  {
    PendingIsQueue(r, q);
    match call
    case WriteCall(m, id, now) =>
      if |m.data| <= r.cap {
        if Accepts(r, |q|) {
          WriteAccepted(r, q, m, id, now);
          PendingIsQueue(Write(r, m, id, now).0, q + [m]);
        } else {
          WriteRefused(r, q, m, id, now);
          ElevenMovesTheIndex(r);
          PendingIsQueue(Write(r, m, id, now).0, q);
        }
      }
    case ReadCall =>
      ReadExact(r, q);
      if Distance(r) > 0 { PendingIsQueue(Read(r).0, q[1..]); }
  }

  lemma RunSnoc(r: Ring, calls: seq<Call>, call: Call)
    requires Usable(r)
    ensures var (r1, outcomes) := Run(r, calls);
            var (r2, last) := Step(r1, call);
            Run(r, calls + [call]) == (r2, outcomes + [last])
  {
    assert (calls + [call])[..|calls + [call]| - 1] == calls;
  }

  /** Some read among these further calls returns a message. */
  predicate DeliversSomething(r: Ring, more: seq<Call>)
    requires Usable(r)
  {
    Delivered(Run(r, more).1) != []
  }

  lemma ReadingAfterDelivers(r: Ring, calls: seq<Call>, r': Ring)
    requires Usable(r) && Run(r, calls).0 == r' && Read(r').1.Some?
    ensures DeliversSomething(r, calls + [ReadCall])
  {
    RunSnoc(r, calls, ReadCall);
    var outcomes := Run(r, calls).1;
    var all := Run(r, calls + [ReadCall]).1;
    assert all[..|all| - 1] == outcomes;
  }

  /** Exactly when a ring is dead: in a reachable state with pending messages, some further calls
      deliver one of them, unless the ring has 1 or 11 slots and all of them are full. */
  lemma DeadExactlyWhen(n: nat, cap: nat, payload: seq<seq<byte>>, calls: seq<Call>)
    requires n > 0 && |payload| == n
    requires forall x :: 0 <= x < n ==> |payload[x]| == cap
    requires Pending(Run(Created(n, cap, payload), calls).0) != []
    ensures var r := Run(Created(n, cap, payload), calls).0;
            (exists more: seq<Call> :: DeliversSomething(r, more)) <==>
            !((n == 1 || n == 11) && |Pending(r)| == n)
  {
    SequentialRunsAreFifo(n, cap, payload, calls);
    var r := Run(Created(n, cap, payload), calls).0;
    var q := Pending(r);
    if n == 1 || n == 11 {
      NoGapOnElevenSlots(n, cap, payload, calls);
      if |q| == n {
        forall more: seq<Call>
          ensures !DeliversSomething(r, more)
        {
          StalledForever(r, q, more);
        }
      } else {
        ReadExact(r, q);
        ReadingAfterDelivers(r, [], r);
      }
    } else {
      UnblockingRun(r, q, WriteCall(Message(NoOperation, []), NIL_ID, 0));
    }
  }

  lemma UnblockingRun(r: Ring, q: seq<Message>, w: Call)
    requires Queue(r, q) && |q| > 0 && |r.slots| != 1 && |r.slots| != 11
    requires w.WriteCall? && |w.msg.data| <= r.cap
    ensures exists more: seq<Call> :: DeliversSomething(r, more)
  {
    var r1, r2 := RunsOfWrites(r, w);
    TwoWritesUnblock(r, q, w.msg, w.msg, w.id, w.now);
    if Read(r).1.Some? {
      ReadingAfterDelivers(r, [], r);
    } else if Read(r1).1.Some? {
      ReadingAfterDelivers(r, [w], r1);
    } else {
      ReadingAfterDelivers(r, [w, w], r2);
    }
  }

  lemma RunsOfWrites(r: Ring, w: Call) returns (r1: Ring, r2: Ring)
    requires Usable(r) && w.WriteCall?
    ensures Usable(r1) && Usable(r2)
    ensures r1 == Write(r, w.msg, w.id, w.now).0 && r2 == Write(r1, w.msg, w.id, w.now).0
    ensures Run(r, []).0 == r && Run(r, [w]).0 == r1 && Run(r, [w, w]).0 == r2
  {
    r1 := Write(r, w.msg, w.id, w.now).0;
    r2 := Write(r1, w.msg, w.id, w.now).0;
    RunSnoc(r, [], w);
    RunSnoc(r, [w], w);
    assert [] + [w] == [w];
    assert [w] + [w] == [w, w];
  }
}
