/** Many handles, one queue: clients that share a mapped region. */
module SharedRing {
  import opened Common
  import opened HeaderMemory
  import opened SequentialRing
  import opened SequentialTheory
  import SequentialRuns
  import opened RingBuffers

  /** Arguments the source's types allow. */
  predicate Legal(call: Call) {
    call.WriteCall? ==> |call.id| == 16 && call.now < U64_MODULUS
  }

  /** Every handle maps the region mem. */
  ghost predicate AllAttached(mem: array<byte>, handles: seq<RingBuffer>)
    reads mem
  {
    forall j :: 0 <= j < |handles| ==> handles[j].mem == mem && handles[j].Attached()
  }

  /** Staying attached depends on the layout only. */
  lemma StillAttached(mem: array<byte>, m: seq<byte>, handles: seq<RingBuffer>, x: int)
    requires KeptExcept(m, mem[..], x)
    requires forall j :: 0 <= j < |handles| ==>
               handles[j].mem == mem && handles[j].header.mem == mem && handles[j].slotSize == HeaderOf(m).slotSize
    ensures AllAttached(mem, handles)
  {
  }

  /** One call through one of the handles. */
  method Play(mem: array<byte>, handles: seq<RingBuffer>, j: nat, call: Call) returns (outcome: Outcome)
    requires j < |handles| && AllAttached(mem, handles) && Legal(call)
    modifies mem
    ensures AllAttached(mem, handles)
    ensures WellFormed(old(mem[..])) && WellFormed(mem[..])
    ensures (RingOf(mem[..]), outcome) == Step(RingOf(old(mem[..])), call)
  {
    ghost var m := mem[..];
    match call
    case WriteCall(msg, id, now) =>
      var w := handles[j].Write(msg.kind, msg.data, id, now);
      StillAttached(mem, m, handles, if w.Wrote? then w.slot else -1);
      outcome := Written(w);
    case ReadCall =>
      var r := handles[j].Read();
      StillAttached(mem, m, handles,
                    if RingOf(m).producerIdx == RingOf(m).consumerIdx then -1 else RingOf(m).consumerIdx);
      outcome := ReadBack(r);
  }

  /** Any mix of calls over any number of handles is a run of calls on one ring. */
  method PlayAll(mem: array<byte>, handles: seq<RingBuffer>, who: seq<nat>, calls: seq<Call>)
    returns (outcomes: seq<Outcome>)
    requires AllAttached(mem, handles) && |handles| > 0
    requires |who| == |calls| && forall k :: 0 <= k < |calls| ==> who[k] < |handles| && Legal(calls[k])
    modifies mem
    ensures AllAttached(mem, handles)
    ensures WellFormed(old(mem[..])) && WellFormed(mem[..])
    ensures (RingOf(mem[..]), outcomes) == Run(RingOf(old(mem[..])), calls)
  {
    hide RingOf, Step, WellFormed, HeaderOf, Legal;
    assert handles[0].Attached();
    outcomes := [];
    for k := 0 to |calls|
      invariant AllAttached(mem, handles) && WellFormed(mem[..])
      invariant (RingOf(mem[..]), outcomes) == Run(RingOf(old(mem[..])), calls[..k])
    {
      var outcome := Play(mem, handles, who[k], calls[k]);
      outcomes := outcomes + [outcome];
      assert calls[..k + 1][..k] == calls[..k];
    }
    assert calls[..|calls|] == calls;
  }

  lemma FreshRingIsCreated(r: Ring, n: nat, cap: nat)
    requires FreshRing(r, n, cap) && Usable(r) && n > 0
    ensures var payload := seq(n, i requires 0 <= i < n => r.slots[i].data);
            r == Created(n, cap, payload)
  {
    var payload := seq(n, i requires 0 <= i < n => r.slots[i].data);
    forall i | 0 <= i < n
      ensures r.slots[i] == Created(n, cap, payload).slots[i]
    {
      assert IsReset(r.slots[i]);
    }
    assert r.slots == Created(n, cap, payload).slots;
  }

  /** Every `open` of a well-formed region succeeds and attaches to it, whatever the options say. */
  method OpenAll(mem: array<byte>, options: seq<(nat, nat)>) returns (handles: seq<RingBuffer>)
    requires HEADER_SIZE <= mem.Length < U64_MODULUS && WellFormed(mem[..])
    ensures |handles| == |options| && AllAttached(mem, handles)
  {
    handles := [];
    for k := 0 to |options|
      invariant |handles| == k && AllAttached(mem, handles)
    {
      var handle, warned := RingBuffer.Open(mem, options[k].0, options[k].1);
      var attached: RingBuffer := handle;
      handles := handles + [attached];
    }
  }

  lemma CreatedRunsAreFifo(r0: Ring, n: nat, cap: nat, calls: seq<Call>)
    requires FreshRing(r0, n, cap) && Usable(r0) && n > 0
    ensures var (r, outcomes) := Run(r0, calls);
            Accepted(calls, outcomes) == Delivered(outcomes) + Pending(r) && Queue(r, Pending(r))
  {
    FreshRingIsCreated(r0, n, cap);
    SequentialRuns.SequentialRunsAreFifo(n, cap, seq(n, i requires 0 <= i < n => r0.slots[i].data), calls);
  }

  // ---------- opening and calling in any order ----------

  /** What a client does: open one more handle with some options, or call through handle j. */
  datatype Action =
    | Open(size: nat, slotSize: nat)
    | Invoke(handle: nat, call: Call)

  /** How many handles there are after the script, if there were `before` at the start. */
  function HandlesAfter(script: seq<Action>, before: nat): nat {
    if |script| == 0 then before
    else HandlesAfter(script[..|script| - 1], before) + (if script[|script| - 1].Open? then 1 else 0)
  }

  /** Calls go through handles opened so far. */
  predicate Playable(script: seq<Action>, before: nat) {
    forall k :: 0 <= k < |script| && script[k].Invoke? ==>
      script[k].handle < HandlesAfter(script[..k], before) && Legal(script[k].call)
  }

  function CallsOf(script: seq<Action>): seq<Call> {
    if |script| == 0 then []
    else
      var last := script[|script| - 1];
      CallsOf(script[..|script| - 1]) + (if last.Invoke? then [last.call] else [])
  }

  lemma ScriptSnoc(script: seq<Action>, k: nat, before: nat)
    requires k < |script|
    ensures HandlesAfter(script[..k + 1], before) == HandlesAfter(script[..k], before) + (if script[k].Open? then 1 else 0)
    ensures CallsOf(script[..k + 1]) == CallsOf(script[..k]) + (if script[k].Invoke? then [script[k].call] else [])
  {
    assert script[..k + 1][..k] == script[..k];
  }

  /** One more handle on a region that is in use already. */
  method OpenOne(mem: array<byte>, handles: seq<RingBuffer>, size: nat, slotSize: nat) returns (more: seq<RingBuffer>)
    requires AllAttached(mem, handles) && |handles| > 0
    ensures AllAttached(mem, more) && |more| == |handles| + 1
  {
    assert handles[0].mem == mem && handles[0].Attached();
    var handle, warned := RingBuffer.Open(mem, size, slotSize);
    var attached: RingBuffer := handle;
    more := handles + [attached];
  }

  /** Opens with any options and calls through any handle opened so far, in any order: every open
      succeeds, and the calls are a run of calls on one ring. */
  method PlayScript(mem: array<byte>, first: seq<RingBuffer>, script: seq<Action>) returns (outcomes: seq<Outcome>)
    requires AllAttached(mem, first) && |first| > 0 && Playable(script, |first|)
    modifies mem
    ensures WellFormed(old(mem[..])) && WellFormed(mem[..])
    ensures (RingOf(mem[..]), outcomes) == Run(RingOf(old(mem[..])), CallsOf(script))
  {
    hide RingOf, Step, Run, WellFormed, HeaderOf, Legal;
    assert first[0].Attached();
    var handles := first;
    outcomes := [];
    NoCallsYet(RingOf(mem[..]));
    for k := 0 to |script|
      invariant AllAttached(mem, handles) && WellFormed(mem[..]) && |handles| > 0
      invariant |handles| == HandlesAfter(script[..k], |first|)
      invariant (RingOf(mem[..]), outcomes) == Run(RingOf(old(mem[..])), CallsOf(script[..k]))
    {
      ScriptSnoc(script, k, |first|);
      match script[k]
      case Open(size, slotSize) =>
        assert CallsOf(script[..k + 1]) == CallsOf(script[..k]);
        handles := OpenOne(mem, handles, size, slotSize);
      case Invoke(j, call) =>
        assert j < |handles| && Legal(call) by { assert script[k].handle == j && script[k].call == call; }
        SequentialRuns.RunSnoc(RingOf(old(mem[..])), CallsOf(script[..k]), call);
        var outcome := Play(mem, handles, j, call);
        outcomes := outcomes + [outcome];
    }
    assert script[..|script|] == script;
  }

  lemma NoCallsYet(r: Ring)
    requires Usable(r)
    ensures Run(r, []) == (r, [])
  {
  }

  /** One process creates the ring, others open it whenever they like with whatever options, right or
      wrong, and all of them write and read through their own handles. Every `open` succeeds, and what
      was accepted is what was delivered followed by what is still pending, byte for byte. */
  method OneQueueForAll(size: nat, slotSize: nat, now: nat, script: seq<Action>)
    returns (mem: array<byte>, outcomes: seq<Outcome>)
    requires HEADER_SIZE <= size < U64_MODULUS && now < U64_MODULUS
    requires SlotMemory.METADATA_SIZE <= slotSize < U64_MODULUS && SlotCount(size, slotSize) > 0
    requires Playable(script, 1)
    ensures WellFormed(mem[..])
    ensures |outcomes| == |CallsOf(script)|
    ensures Accepted(CallsOf(script), outcomes) == Delivered(outcomes) + Pending(RingOf(mem[..]))
    ensures Queue(RingOf(mem[..]), Pending(RingOf(mem[..])))
  {
    hide RingOf, Run, Queue, Pending, Accepted, Delivered, SlotCount, Step, CallsOf, Playable;
    var creator := new RingBuffer.Create(size, slotSize, now);
    mem := creator.mem;
    ghost var r0 := RingOf(mem[..]);
    outcomes := PlayScript(mem, [creator], script);
    CreatedRunsAreFifo(r0, SlotCount(size, slotSize), slotSize - SlotMemory.METADATA_SIZE, CallsOf(script));
  }
}
