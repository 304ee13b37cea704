/** What the calls leave in the slots, field by field. */
module SequentialSlots {
  import opened Common
  import opened SequentialRing

  /** Ring r' has the slots of r except slot x. */
  predicate OnlySlotDiffers(r: Ring, r': Ring, x: nat) {
    && |r'.slots| == |r.slots| && r'.cap == r.cap && x < |r.slots|
    && (forall y :: 0 <= y < |r.slots| && y != x ==> r'.slots[y] == r.slots[y])
  }

  /** A claimed slot was Empty or Complete, and is wiped but for its payload bytes. */
  lemma {:induction false} ClaimedSlot(r: Ring, attempt: nat)
    requires Usable(r) && attempt <= MAX_ATTEMPTS && WaitForSlot(r, attempt).1.Some?
    ensures var (r', claimed) := WaitForSlot(r, attempt);
            var x := claimed.value;
            && OnlySlotDiffers(r, r', x) && r'.consumerIdx == r.consumerIdx && r'.completed == r.completed
            && (r.slots[x].status == Empty || r.slots[x].status == Complete)
            && r'.slots[x].status == Empty && r'.slots[x].kind == NoOperation && r'.slots[x].size == 0
            && r'.slots[x].id == seq(16, _ => 0) && r'.slots[x].timestamp == 0
            && r'.slots[x].data == r.slots[x].data
    decreases MAX_ATTEMPTS - attempt
  {
    AvailableSlotsIsPositive(r.producerIdx, r.consumerIdx, |r.slots|);
    if !Available(r.slots[r.producerIdx]) && attempt < MAX_ATTEMPTS {
      ClaimedSlot(Attempt(r).0, attempt + 1);
    }
  }

  /** A write that is not accepted changes no slot. */
  lemma {:induction false} UnclaimedWait(r: Ring, attempt: nat)
    requires Usable(r) && attempt <= MAX_ATTEMPTS && WaitForSlot(r, attempt).1.None?
    ensures var r' := WaitForSlot(r, attempt).0;
            r' == r.(producerIdx := r'.producerIdx)
    decreases MAX_ATTEMPTS - attempt
  {
    if attempt < MAX_ATTEMPTS {
      UnclaimedWait(Attempt(r).0, attempt + 1);
    }
  }

  /** What any write leaves in the slots: on success the written slot is Ready with the kind, the size,
      the id, the time and the bytes of the call in front of the old payload bytes, and no other slot
      is touched; otherwise none is. */
  lemma WrittenSlot(r: Ring, m: Message, id: seq<byte>, now: nat)
    requires Usable(r)
    ensures var (r', w) := Write(r, m, id, now);
            && (w.TooLarge? <==> |m.data| > r.cap)
            && r'.consumerIdx == r.consumerIdx && r'.completed == r.completed
            && (w.Wrote? ==>
                  && OnlySlotDiffers(r, r', w.slot)
                  && (r.slots[w.slot].status == Empty || r.slots[w.slot].status == Complete)
                  && var s := r'.slots[w.slot];
                  && s.status == Ready && s.kind == m.kind && s.size == |m.data|
                  && s.id == id && s.timestamp == now
                  && s.data == m.data + r.slots[w.slot].data[|m.data|..])
            && (!w.Wrote? ==> r'.slots == r.slots && r'.cap == r.cap)
  {
    if |m.data| <= r.cap {
      if WaitForSlot(r, 0).1.Some? { ClaimedSlot(r, 0); } else { UnclaimedWait(r, 0); }
    }
  }

  /** What any read leaves in the slots: nothing changes when the indices are equal; else the slot at
      the consumer index ends Complete with all else kept if it was Ready with a plausible size, and
      is wiped but for its payload bytes otherwise; no other slot is touched. */
  lemma ReadSlot(r: Ring)
    requires Usable(r)
    ensures var (r', got) := Read(r);
            var x := r.consumerIdx;
            var s, s' := r.slots[x], r'.slots[x];
            if r.producerIdx == r.consumerIdx then r' == r && got == None
            else
              && OnlySlotDiffers(r, r', x) && r'.producerIdx == r.producerIdx
              && r'.consumerIdx == (x + 1) % |r.slots|
              && (if s.status == Ready && s.size <= r.cap then
                    && got == Some(Message(s.kind, s.data[..s.size]))
                    && s'.status == Complete && s'.kind == s.kind && s'.size == s.size
                    && s'.id == s.id && s'.timestamp == s.timestamp && s'.data == s.data
                    && r'.completed == (r.completed + 1) % U64_MODULUS
                  else
                    && got == None
                    && s'.status == Empty && s'.kind == NoOperation && s'.size == 0
                    && s'.id == seq(16, _ => 0) && s'.timestamp == 0 && s'.data == s.data
                    && r'.completed == r.completed)
  {
    assert NIL_ID == seq(16, _ => 0);
  }
}
