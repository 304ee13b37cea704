/** The sequential ring refines a first-in first-out queue, overflow included. */
module SequentialTheory {
  import opened Common
  import opened Residues
  import opened SequentialRing

  // ---------- cyclic positions ----------

  /** Position k places after c on a ring of n slots. */
  function At(c: nat, k: nat, n: nat): (x: nat)
    requires c < n && k < n
    ensures x < n
  {
    if c + k < n then c + k else c + k - n
  }

  /** How far the producer index is ahead of the consumer index, modulo the slot count. */
  function Distance(r: Ring): (d: nat)
    requires Usable(r)
    ensures d < |r.slots|
  {
    var p, c := r.producerIdx, r.consumerIdx;
    if p >= c then p - c else p + |r.slots| - c
  }

  lemma NextIndex(x: nat, n: nat)
    requires x < n
    ensures (x + 1) % n == if x + 1 == n then 0 else x + 1
  {
    if x + 1 < n { QuotientUnique(x + 1, n, 0, x + 1); } else { QuotientUnique(n, n, 1, 0); }
  }

  // ---------- the queue inside a ring ----------

  function MessageOf(s: SlotRecord): Message
    requires s.size <= |s.data|
  {
    Message(s.kind, s.data[..s.size])
  }

  predicate Holds(s: SlotRecord, m: Message) {
    s.status.Ready? && s.size <= |s.data| && MessageOf(s) == m
  }

  /** The ring holds exactly q: the Ready slots form one cyclic arc from the consumer index on, with
      the messages of q in order; all other slots are available; and unless the ring is full, the
      producer index is inside that arc or at its end. */
  ghost predicate Queue(r: Ring, q: seq<Message>) {
    && Usable(r)
    && |q| <= |r.slots|
    && (forall k :: 0 <= k < |q| ==> Holds(r.slots[At(r.consumerIdx, k, |r.slots|)], q[k]))
    && (forall k :: |q| <= k < |r.slots| ==> Available(r.slots[At(r.consumerIdx, k, |r.slots|)]))
    && (|q| < |r.slots| ==> Distance(r) <= |q|)
  }

  /** The messages of the Ready slots among the first k positions from the consumer index on. */
  function ReadyWithin(r: Ring, k: nat): seq<Message>
    requires Usable(r) && k <= |r.slots|
  {
    if k == 0 then []
    else
      var s := r.slots[At(r.consumerIdx, k - 1, |r.slots|)];
      ReadyWithin(r, k - 1) + (if s.status.Ready? && s.size <= |s.data| then [MessageOf(s)] else [])
  }

  /** All messages waiting in the ring, in cyclic slot order. */
  function Pending(r: Ring): seq<Message>
    requires Usable(r)
  {
    ReadyWithin(r, |r.slots|)
  }

  lemma {:induction false} ReadyWithinIsPrefix(r: Ring, q: seq<Message>, k: nat)
    requires Queue(r, q) && k <= |r.slots|
    ensures ReadyWithin(r, k) == if k <= |q| then q[..k] else q
  {
    if k > 0 {
      ReadyWithinIsPrefix(r, q, k - 1);
      var x := At(r.consumerIdx, k - 1, |r.slots|);
      if k <= |q| {
        assert Holds(r.slots[x], q[k - 1]);
      } else {
        assert Available(r.slots[x]);
      }
    }
  }

  /** The queue a ring holds can be read off its slots. */
  lemma PendingIsQueue(r: Ring, q: seq<Message>)
    requires Queue(r, q)
    ensures Pending(r) == q
  {
    ReadyWithinIsPrefix(r, q, |r.slots|);
  }

  // ---------- one write ----------

  /** With the first available slot j places ahead of the producer index, wait_for_slot takes it
      if the attempts left reach that far, and otherwise only moves the index. */
  lemma {:induction false} WaitFindsFirstAvailable(r: Ring, attempt: nat, j: nat)
    requires Usable(r) && attempt <= MAX_ATTEMPTS && j < |r.slots|
    requires forall k :: 0 <= k < j ==> !Available(r.slots[At(r.producerIdx, k, |r.slots|)])
    requires Available(r.slots[At(r.producerIdx, j, |r.slots|)])
    ensures var o := WaitForSlot(r, attempt);
            var x := At(r.producerIdx, j, |r.slots|);
            if attempt + j <= MAX_ATTEMPTS then
              && o.1 == Some(x)
              && o.0 == r.(producerIdx := (x + 1) % |r.slots|, slots := r.slots[x := ResetSlot(r.slots[x])])
            else
              && o.1 == None
              && o.0 == r.(producerIdx := At(r.producerIdx, MAX_ATTEMPTS + 1 - attempt, |r.slots|))
    decreases MAX_ATTEMPTS - attempt
  {
    var n := |r.slots|;
    var p := r.producerIdx;
    AvailableSlotsIsPositive(p, r.consumerIdx, n);
    NextIndex(p, n);
    assert At(p, 0, n) == p;
    if j > 0 {
      var moved := r.(producerIdx := (p + 1) % n);
      assert forall k :: 0 <= k < j ==> At(moved.producerIdx, k, n) == At(p, k + 1, n);
      if attempt < MAX_ATTEMPTS {
        WaitFindsFirstAvailable(moved, attempt + 1, j - 1);
      }
    }
  }

  /** One failed attempt. */
  lemma WaitMisses(r: Ring, attempt: nat)
    requires Usable(r) && attempt <= MAX_ATTEMPTS && !Available(r.slots[r.producerIdx])
    ensures var moved := r.(producerIdx := (r.producerIdx + 1) % |r.slots|);
            WaitForSlot(r, attempt) ==
            if attempt == MAX_ATTEMPTS then (moved, None) else WaitForSlot(moved, attempt + 1)
  {
    AvailableSlotsIsPositive(r.producerIdx, r.consumerIdx, |r.slots|);
  }

  /** With no slot available, wait_for_slot moves the producer index once per attempt and gives up. */
  lemma {:induction false} WaitFindsNothing(r: Ring, attempt: nat)
    requires Usable(r) && attempt <= MAX_ATTEMPTS
    requires forall x :: 0 <= x < |r.slots| ==> !Available(r.slots[x])
    ensures WaitForSlot(r, attempt) ==
            (r.(producerIdx := (r.producerIdx + (MAX_ATTEMPTS + 1 - attempt)) % |r.slots|), None)
    decreases MAX_ATTEMPTS - attempt
  {
    WaitMisses(r, attempt);
    hide Available, WaitForSlot;
    if attempt < MAX_ATTEMPTS {
      var moved := r.(producerIdx := (r.producerIdx + 1) % |r.slots|);
      WaitFindsNothing(moved, attempt + 1);
      ResidueOfSum(r.producerIdx + 1, MAX_ATTEMPTS - attempt, |r.slots|);
      assert (r.producerIdx + 1) + (MAX_ATTEMPTS - attempt) == r.producerIdx + (MAX_ATTEMPTS + 1 - attempt);
    }
  }

  lemma {:induction false} ResidueOfSum(a: nat, b: nat, n: nat)
    requires n > 0
    ensures (a % n + b) % n == (a + b) % n
  {
    if b == 0 {
      QuotientUnique(a % n, n, 0, a % n);
    } else {
      ResidueOfSum(a, b - 1, n);
      SuccessorResidue(a % n + (b - 1), n);
      SuccessorResidue(a + (b - 1), n);
    }
  }

  /** Is a legal write accepted? Exactly when some slot is free and it lies within eleven places of
      the producer index. */
  predicate Accepts(r: Ring, pending: nat)
    requires Usable(r)
  {
    pending < |r.slots| && pending <= Distance(r) + MAX_ATTEMPTS
  }

  /** The slot record a successful write leaves behind holds the message. */
  lemma StoredSlotHolds(s: SlotRecord, m: Message, id: seq<byte>, now: nat)
    requires |m.data| <= |s.data|
    ensures Holds(StoredSlot(ResetSlot(s), m, id, now), m)
  {
  }

  /** Between the producer index and the end of the arc every slot is Ready. */
  lemma GapIsBusy(r: Ring, q: seq<Message>)
    requires Queue(r, q) && |q| < |r.slots|
    ensures var j := |q| - Distance(r);
            && At(r.producerIdx, j, |r.slots|) == At(r.consumerIdx, |q|, |r.slots|)
            && (forall k :: 0 <= k < j ==> !Available(r.slots[At(r.producerIdx, k, |r.slots|)]))
  {
    var n, c, p, d := |r.slots|, r.consumerIdx, r.producerIdx, Distance(r);
    forall k | 0 <= k < |q| - d
      ensures !Available(r.slots[At(p, k, n)])
    {
      assert At(p, k, n) == At(c, d + k, n);
      assert Holds(r.slots[At(c, d + k, n)], q[d + k]);
    }
  }

  /** A ring after message m was stored into slot x and the producer index moved past it. */
  function Appended(r: Ring, x: nat, m: Message, id: seq<byte>, now: nat): Ring
    requires Usable(r) && x < |r.slots| && |m.data| <= r.cap
  {
    r.(producerIdx := (x + 1) % |r.slots|,
       slots := r.slots[x := StoredSlot(ResetSlot(r.slots[x]), m, id, now)])
  }

  lemma AppendedIsLonger(r: Ring, q: seq<Message>, m: Message, id: seq<byte>, now: nat)
    requires Queue(r, q) && |m.data| <= r.cap && |q| < |r.slots|
    ensures var x := At(r.consumerIdx, |q|, |r.slots|);
            var r' := Appended(r, x, m, id, now);
            && Queue(r', q + [m])
            && Distance(r') == (if |q| + 1 == |r.slots| then 0 else |q| + 1)
  {
    var n, c := |r.slots|, r.consumerIdx;
    var x := At(c, |q|, n);
    var r' := Appended(r, x, m, id, now);
    NextIndex(x, n);
    StoredSlotHolds(r.slots[x], m, id, now);
    forall k | 0 <= k < |q + [m]|
      ensures Holds(r'.slots[At(c, k, n)], (q + [m])[k])
    {
      if k < |q| { assert Holds(r.slots[At(c, k, n)], q[k]); }
    }
  }

  /** An accepted write takes the first free slot, appends to the queue, keeps the consumer index and
      leaves the two indices (pending + 1) mod n apart. */
  lemma WriteAccepted(r: Ring, q: seq<Message>, m: Message, id: seq<byte>, now: nat)
    requires Queue(r, q) && |m.data| <= r.cap && Accepts(r, |q|)
    ensures var x := At(r.consumerIdx, |q|, |r.slots|);
            var r' := Write(r, m, id, now).0;
            && Write(r, m, id, now) == (Appended(r, x, m, id, now), Wrote(x))
            && Queue(r', q + [m])
            && Distance(r') == (if |q| + 1 == |r.slots| then 0 else |q| + 1)
  {
    GapIsBusy(r, q);
    WaitFindsFirstAvailable(r, 0, |q| - Distance(r));
    AppendedIsLonger(r, q, m, id, now);
    var x := At(r.consumerIdx, |q|, |r.slots|);
    var reset := ResetSlot(r.slots[x]);
    assert r.slots[x := reset][x := StoredSlot(reset, m, id, now)] == r.slots[x := StoredSlot(reset, m, id, now)];
  }

  /** A refused write moves the producer index by exactly eleven and changes nothing else. */
  lemma WriteRefused(r: Ring, q: seq<Message>, m: Message, id: seq<byte>, now: nat)
    requires Queue(r, q) && |m.data| <= r.cap && !Accepts(r, |q|)
    ensures Write(r, m, id, now) == (r.(producerIdx := (r.producerIdx + 11) % |r.slots|), Full)
    ensures Queue(Write(r, m, id, now).0, q)
    ensures |q| < |r.slots| ==> Distance(Write(r, m, id, now).0) == Distance(r) + 11
  {
    if |q| == |r.slots| {
      FullRingIsBusy(r, q);
      WaitFindsNothing(r, 0);
      MovingTheProducerKeepsQueue(r, q, (r.producerIdx + 11) % |r.slots|);
    } else {
      GapIsBusy(r, q);
      WaitFindsFirstAvailable(r, 0, |q| - Distance(r));
      ElevenPlacesOn(r, |q|);
      MovingTheProducerKeepsQueue(r, q, (r.producerIdx + 11) % |r.slots|);
    }
  }

  lemma FullRingIsBusy(r: Ring, q: seq<Message>)
    requires Queue(r, q) && |q| == |r.slots|
    ensures forall x :: 0 <= x < |r.slots| ==> !Available(r.slots[x])
  {
    var n, c := |r.slots|, r.consumerIdx;
    forall x | 0 <= x < n
      ensures !Available(r.slots[x])
    {
      var k := if x >= c then x - c else x + n - c;
      assert At(c, k, n) == x;
      assert Holds(r.slots[At(c, k, n)], q[k]);
    }
  }

  lemma ElevenPlacesOn(r: Ring, pending: nat)
    requires Usable(r) && Distance(r) + 11 <= pending < |r.slots|
    ensures var p := (r.producerIdx + 11) % |r.slots|;
            && p == At(r.producerIdx, 11, |r.slots|)
            && Distance(r.(producerIdx := p)) == Distance(r) + 11
  {
    var p, n := r.producerIdx, |r.slots|;
    if p + 11 < n { QuotientUnique(p + 11, n, 0, p + 11); } else { QuotientUnique(p + 11, n, 1, p + 11 - n); }
  }

  lemma MovingTheProducerKeepsQueue(r: Ring, q: seq<Message>, p: nat)
    requires Queue(r, q) && p < |r.slots|
    requires |q| < |r.slots| ==> Distance(r.(producerIdx := p)) <= |q|
    ensures Queue(r.(producerIdx := p), q)
  {
  }

  // ---------- one read ----------

  /** A read delivers exactly when the two indices differ; it then hands over the oldest message,
      marks its slot Complete and counts it. It never resets a slot. */
  lemma ReadExact(r: Ring, q: seq<Message>)
    requires Queue(r, q)
    ensures var (r', got) := Read(r);
            if Distance(r) > 0 then
              && |q| > 0 && got == Some(q[0]) && Queue(r', q[1..])
              && Distance(r') == Distance(r) - 1
              && r'.completed == (r.completed + 1) % U64_MODULUS
              && r'.producerIdx == r.producerIdx
            else r' == r && got == None
  {
    if Distance(r) > 0 {
      var n := |r.slots|;
      var c := r.consumerIdx;
      var (r', got) := Read(r);
      assert At(c, 0, n) == c;
      assert Holds(r.slots[At(c, 0, n)], q[0]);
      NextIndex(c, n);
      forall k | 0 <= k < |q[1..]|
        ensures Holds(r'.slots[At(r'.consumerIdx, k, n)], q[1..][k])
      {
        assert At(r'.consumerIdx, k, n) == At(c, k + 1, n);
        assert Holds(r.slots[At(c, k + 1, n)], q[k + 1]);
      }
      forall k | |q[1..]| <= k < n
        ensures Available(r'.slots[At(r'.consumerIdx, k, n)])
      {
        if k + 1 < n {
          assert At(r'.consumerIdx, k, n) == At(c, k + 1, n);
          assert Available(r.slots[At(c, k + 1, n)]);
        }
      }
    }
  }
}
