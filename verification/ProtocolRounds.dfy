/** Filling and draining over and over: the single fill and drain of `ProtocolFillDrain` from any quiet
    moment of a disciplined run, and any number of rounds. */
module ProtocolRounds {
  import opened Common
  import opened Protocol
  import opened ProtocolTickets
  import opened ProtocolFifo
  import opened ProtocolFillDrain

  /** Everyone is idle, everything claimed has been consumed, and calls and claims balance. */
  ghost predicate Quiet(s: System) {
    FifoInv(s) && Balanced(s) && AllIdle(s) && s.consumed == |s.tickets|
  }

  /** One round from s: at most n - 1 calls of `write` run to their end while nobody reads, then nobody
      writes and at least as many calls of `read` run to their end. */
  ghost predicate RoundFits(s: System, fill: seq<Label>, drain: seq<Label>)
    requires Typed(s)
  {
    var f := Exec(s, fill);
    var e := Exec(f, drain);
    && OnlyProducers(fill) && OnlyConsumer(drain)
    && AllIdle(f) && AllIdle(e)
    && TotalCalls(f.calls) <= TotalCalls(s.calls) + |s.slots| - 1
    && |e.returned| - |f.returned| >= TotalCalls(f.calls) - TotalCalls(s.calls)
  }

  /** What one round comes to. */
  ghost predicate RoundInOrder(s: System, fill: seq<Label>, drain: seq<Label>)
    requires Typed(s)
  {
    var f := Exec(s, fill);
    && Filled(s, f)
    && ReturnsInOrder(f, Exec(f, drain))
  }

  lemma RoundEndsQuiet(s: System, fill: seq<Label>, drain: seq<Label>)
    requires Quiet(s) && RoundFits(s, fill, drain)
    ensures RoundInOrder(s, fill, drain) && Quiet(Exec(Exec(s, fill), drain))
  {
    var f := Exec(s, fill);
    FillThenDrain(s, fill, drain);
    FillClaimsOncePerCall(s, fill);
    NoClaimants(s.producers);
    assert |s.tickets| == TotalCalls(s.calls);
    hide Exec, Typed, TicketDiscipline, OnlyConsumer, OnlyProducers;
    DrainReturnsInOrder(f, drain);
  }

  datatype Round = Round(fill: seq<Label>, drain: seq<Label>)

  function AfterRounds(s: System, rounds: seq<Round>): (s': System)
    requires Typed(s)
    ensures Typed(s')
  {
    if |rounds| == 0 then s
    else
      var last := rounds[|rounds| - 1];
      Exec(Exec(AfterRounds(s, rounds[..|rounds| - 1]), last.fill), last.drain)
  }

  ghost predicate RoundsFit(s: System, rounds: seq<Round>)
    requires Typed(s)
  {
    |rounds| > 0 ==>
      && RoundsFit(s, rounds[..|rounds| - 1])
      && (var last := rounds[|rounds| - 1];
          RoundFits(AfterRounds(s, rounds[..|rounds| - 1]), last.fill, last.drain))
  }

  ghost predicate RoundsInOrder(s: System, rounds: seq<Round>)
    requires Typed(s)
  {
    |rounds| > 0 ==>
      && RoundsInOrder(s, rounds[..|rounds| - 1])
      && (var last := rounds[|rounds| - 1];
          RoundInOrder(AfterRounds(s, rounds[..|rounds| - 1]), last.fill, last.drain))
  }

  lemma {:induction false} EveryRoundEndsQuiet(s: System, rounds: seq<Round>)
    requires Quiet(s) && RoundsFit(s, rounds)
    ensures RoundsInOrder(s, rounds) && Quiet(AfterRounds(s, rounds))
  {
    if |rounds| > 0 {
      var n := |rounds| - 1;
      EveryRoundEndsQuiet(s, rounds[..n]);
      hide Quiet, RoundFits, RoundInOrder, Exec;
      RoundEndsQuiet(AfterRounds(s, rounds[..n]), rounds[n].fill, rounds[n].drain);
    }
  }

  /** Everything that was ever written has been delivered, once, in claim order, which keeps each producer's call order. */
  ghost predicate AllDelivered(s: System)
    requires Typed(s)
  {
    && |s.tickets| == TotalCalls(s.calls) && s.refusals == 0
    && Delivered(s.returned) == ClaimOrder(s.tickets)
    && (forall i :: 0 <= i < |s.producers| ==> OwnMessages(s.tickets, i) == s.calls[i])
  }

  lemma QuietMeansAllDelivered(s: System)
    requires Quiet(s)
    ensures AllDelivered(s)
  {
    NoClaimants(s.producers);
    assert ClaimOrder(s.tickets)[..|s.tickets|] == ClaimOrder(s.tickets);
  }

  /** Any number of rounds on a created ring. In every round each call of `write` succeeds at its first
      attempt in a slot of its own and the reads return that round's messages in claim order, then
      None; after the last round every message ever written has been delivered exactly once. */
  lemma FillAndDrainRepeatedly(n: nat, cap: nat, k: nat, payload: seq<seq<byte>>, rounds: seq<Round>)
    requires n > 0 && |payload| == n
    requires forall x :: 0 <= x < n ==> |payload[x]| == cap
    requires RoundsFit(Created(n, cap, k, payload), rounds)
    ensures RoundsInOrder(Created(n, cap, k, payload), rounds)
    ensures AllDelivered(AfterRounds(Created(n, cap, k, payload), rounds))
  {
    var s := Created(n, cap, k, payload);
    ANewRingIsDrained(n, cap, k, payload);
    hide Created, AllDelivered, RoundsFit, RoundsInOrder, FifoInv, Balanced, AllIdle;
    EveryRoundEndsQuiet(s, rounds);
    QuietMeansAllDelivered(AfterRounds(s, rounds));
  }

  /** The same single round from any quiet moment of any disciplined run, whatever went on before it. */
  lemma FillThenDrainAfterAnyRun(n: nat, cap: nat, k: nat, payload: seq<seq<byte>>, before: seq<Label>,
                                 fill: seq<Label>, drain: seq<Label>)
    requires n > 0 && |payload| == n
    requires forall x :: 0 <= x < n ==> |payload[x]| == cap
    requires Disciplined(Created(n, cap, k, payload), before)
    requires var s := Exec(Created(n, cap, k, payload), before);
             AllIdle(s) && s.consumed == |s.tickets| && RoundFits(s, fill, drain)
    ensures var s := Exec(Created(n, cap, k, payload), before);
            RoundInOrder(s, fill, drain) && AllDelivered(Exec(Exec(s, fill), drain))
  {
    var s0 := Created(n, cap, k, payload);
    ANewRingIsDrained(n, cap, k, payload);
    hide Created, AllDelivered, FifoInv, Balanced, AllIdle, RoundFits, RoundInOrder, Disciplined;
    FifoInEveryRun(s0, before);
    BalancedInEveryRun(s0, before);
    var s := Exec(s0, before);
    RoundEndsQuiet(s, fill, drain);
    QuietMeansAllDelivered(Exec(Exec(s, fill), drain));
  }
}
