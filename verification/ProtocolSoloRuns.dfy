/** Whole sequential runs inside the concurrent system: calls made one after the other, by any
    producers, are one of its schedules. What is proved of sequential runs therefore happens there. */
module ProtocolSoloRuns {
  import opened Common
  import opened Protocol
  import opened ProtocolSolo
  import Seq = SequentialRing

  /** Some schedule leads from s to s'. */
  ghost predicate Leads(s: System, s': System)
    requires Typed(s)
  {
    exists labels: seq<Label> :: Exec(s, labels) == s'
  }

  lemma LeadsOneStep(s: System, l: Label)
    requires Typed(s)
    ensures Leads(s, Step(s, l))
  {
    assert [l][..0] == [];
    assert Exec(s, [l]) == Step(s, l);
  }

  lemma LeadsRepeated(s: System, l: Label, s': System)
    requires Typed(s) && Reaches(s, l, s')
    ensures Leads(s, s')
  {
    var k: nat :| Exec(s, Repeat(l, k)) == s';
  }

  lemma LeadsOn(s: System, mid: System, s': System)
    requires Typed(s) && Typed(mid) && Leads(s, mid) && Leads(mid, s')
    ensures Leads(s, s')
  {
    var a :| Exec(s, a) == mid;
    var b :| Exec(mid, b) == s';
    ExecConcat(s, a, b);
    hide Exec, Typed;
    assert Exec(s, a + b) == s';
  }

  /** What the reads among the outcomes returned. */
  function ReadResults(outcomes: seq<Seq.Outcome>): seq<Option<Message>> {
    if |outcomes| == 0 then []
    else
      var last := outcomes[|outcomes| - 1];
      ReadResults(outcomes[..|outcomes| - 1]) + (if last.ReadBack? then [last.message] else [])
  }

  /** How many of the outcomes are writes refused for want of a slot. */
  function Refused(outcomes: seq<Seq.Outcome>): nat {
    if |outcomes| == 0 then 0
    else
      var last := outcomes[|outcomes| - 1];
      Refused(outcomes[..|outcomes| - 1]) + (if last.Written? && last.result.Full? then 1 else 0)
  }

  lemma OutcomesSnoc(outcomes: seq<Seq.Outcome>, o: Seq.Outcome)
    ensures ReadResults(outcomes + [o]) == ReadResults(outcomes) + (if o.ReadBack? then [o.message] else [])
    ensures Refused(outcomes + [o]) == Refused(outcomes) + (if o.Written? && o.result.Full? then 1 else 0)
  {
    assert (outcomes + [o])[..|outcomes + [o]| - 1] == outcomes;
  }

  ghost predicate Quiescent(s: System, k: nat) {
    && |s.producers| == k && s.consumer == Waiting
    && (forall i :: 0 <= i < k ==> s.producers[i] == Idle)
  }

  /** The system is at rest, its memory is that of the ring, and its calls had these outcomes. */
  ghost predicate SameRun(s: System, k: nat, r: Seq.Ring, outcomes: seq<Seq.Outcome>) {
    && Quiescent(s, k) && Matches(s, r)
    && s.returned == ReadResults(outcomes) && s.refusals == Refused(outcomes)
  }

  lemma OneWrite(s: System, k: nat, i: nat, r: Seq.Ring, call: Seq.Call) returns (s': System)
    requires Typed(s) && Quiescent(s, k) && i < k && Seq.Usable(r) && Matches(s, r) && call.WriteCall?
    ensures Typed(s') && Leads(s, s') && Quiescent(s', k)
    ensures var (r', w) := Seq.Write(r, call.msg, call.id, call.now);
            && Matches(s', r') && s'.returned == s.returned
            && s'.refusals == s.refusals + (if w.Full? then 1 else 0)
  {
    hide Typed, Reaches, Leads, Exec, Matches, Seq.Write, Seq.Usable, ProducerStep, ConsumerStep;
    var l := BeginWrite(i, call.msg);
    s' := SoloWrite(s, i, call.msg, r, call.id, call.now);
    LeadsOneStep(s, l);
    LeadsRepeated(Step(s, l), WriteStep(i, false), s');
    LeadsOn(s, Step(s, l), s');
  }

  lemma OneRead(s: System, k: nat, r: Seq.Ring) returns (s': System)
    requires Typed(s) && Quiescent(s, k) && Seq.Usable(r) && Matches(s, r)
    ensures Typed(s') && Leads(s, s') && Quiescent(s', k)
    ensures var (r', m) := Seq.Read(r);
            Matches(s', r') && s'.returned == s.returned + [m] && s'.refusals == s.refusals
  {
    hide Typed, Reaches, Leads, Exec, Matches, Seq.Read, Seq.Usable, Step;
    s' := SoloRead(s, r);
    LeadsOneStep(s, BeginRead);
    LeadsRepeated(Step(s, BeginRead), ReadStep(false), s');
    LeadsOn(s, Step(s, BeginRead), s');
  }

  lemma OneCall(s: System, k: nat, i: nat, r: Seq.Ring, outcomes: seq<Seq.Outcome>, call: Seq.Call) returns (s': System)
    requires Typed(s) && i < k && Seq.Usable(r) && SameRun(s, k, r, outcomes)
    ensures Typed(s') && Leads(s, s')
    ensures SameRun(s', k, Seq.Step(r, call).0, outcomes + [Seq.Step(r, call).1])
  {
    hide Typed, Leads, Matches, Quiescent, Seq.Read, Seq.Write, Seq.Usable, ReadResults, Refused;
    OutcomesSnoc(outcomes, Seq.Step(r, call).1);
    match call
    case WriteCall(_, _, _) => s' := OneWrite(s, k, i, r, call);
    case ReadCall => s' := OneRead(s, k, r);
  }

  /** From a system at rest, call j of the run being made by producer who[j] if it is a write. */
  lemma {:induction false} CallsInARow(s: System, k: nat, who: seq<nat>, r: Seq.Ring, calls: seq<Seq.Call>)
    returns (s': System)
    requires Typed(s) && Seq.Usable(r) && SameRun(s, k, r, [])
    requires |who| == |calls| && forall j :: 0 <= j < |who| ==> who[j] < k
    ensures Typed(s') && Leads(s, s')
    ensures SameRun(s', k, Seq.Run(r, calls).0, Seq.Run(r, calls).1)
  {
    if |calls| == 0 {
      assert Exec(s, []) == s;
      s' := s;
    } else {
      var n := |calls| - 1;
      var mid := CallsInARow(s, k, who[..n], r, calls[..n]);
      hide Typed, Leads, SameRun, Seq.Step, Seq.Usable;
      s' := OneCall(mid, k, who[n], Seq.Run(r, calls[..n]).0, Seq.Run(r, calls[..n]).1, calls[n]);
      LeadsOn(s, mid, s');
    }
  }

  lemma CreatedAlike(n: nat, cap: nat, k: nat, payload: seq<seq<byte>>)
    requires n > 0 && |payload| == n
    requires forall x :: 0 <= x < n ==> |payload[x]| == cap
    ensures SameRun(Created(n, cap, k, payload), k, Seq.Created(n, cap, payload), [])
  {
  }

  /** Every sequential run is a schedule of the concurrent system: for all calls on a created ring, with
      the writes shared out among the producers in any way, some schedule ends with the same memory,
      the same results of the reads and the same number of refused writes. */
  lemma SequentialRunsAreSchedules(n: nat, cap: nat, k: nat, payload: seq<seq<byte>>,
                                   who: seq<nat>, calls: seq<Seq.Call>)
    requires n > 0 && |payload| == n
    requires forall x :: 0 <= x < n ==> |payload[x]| == cap
    requires |who| == |calls| && forall j :: 0 <= j < |who| ==> who[j] < k
    ensures exists labels: seq<Label> ::
              SameRun(Exec(Created(n, cap, k, payload), labels), k,
                      Seq.Run(Seq.Created(n, cap, payload), calls).0,
                      Seq.Run(Seq.Created(n, cap, payload), calls).1)
  {
    hide Typed, SameRun, Exec, Created, Leads, Seq.Run, Seq.Created, Seq.Usable;
    var s0, r0 := Created(n, cap, k, payload), Seq.Created(n, cap, payload);
    CreatedAlike(n, cap, k, payload);
    var s := CallsInARow(s0, k, who, r0, calls);
    var labels := ScheduleTo(s0, s);
    assert SameRun(Exec(s0, labels), k, Seq.Run(r0, calls).0, Seq.Run(r0, calls).1);
  }

  lemma ScheduleTo(s: System, s': System) returns (labels: seq<Label>)
    requires Typed(s) && Leads(s, s')
    ensures Exec(s, labels) == s'
  {
    labels :| Exec(s, labels) == s';
  }
}
