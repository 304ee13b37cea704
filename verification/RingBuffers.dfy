/** `RingBuffer`: a handle on a mapped region. Any number of handles may share one region. */
module RingBuffers {
  import opened Common
  import opened HeaderMemory
  import opened SequentialRing
  import SequentialSlots
  import SlotMemory

  // ---------- the ring a region represents ----------

  function HeaderOf(m: seq<byte>): HeaderRecord
    requires |m| >= HEADER_SIZE
  {
    DecodeHeader(m[..HEADER_SIZE])
  }

  /** The header describes the region it stands in, and there is at least one slot. */
  predicate LaidOut(h: HeaderRecord, length: nat) {
    && Validates(h)
    && h.size == length < U64_MODULUS
    && h.slotSize >= SlotMemory.METADATA_SIZE
    && h.slotCount == SlotCount(h.size, h.slotSize)
  }

  predicate WellFormed(m: seq<byte>) {
    && |m| >= HEADER_SIZE
    && LaidOut(HeaderOf(m), |m|)
    && HeaderOf(m).producerIdx < HeaderOf(m).slotCount
    && HeaderOf(m).consumerIdx < HeaderOf(m).slotCount
  }

  lemma SlotFits(h: HeaderRecord, length: nat, i: nat)
    requires LaidOut(h, length) && i < h.slotCount
    ensures SlotStart(i, h.slotSize) + h.slotSize <= length
  {
    SlotCountBounds(h.size, h.slotSize);
    SlotsFollowEachOther(i, h.slotCount, h.slotSize);
  }

  function SlotBytes(m: seq<byte>, i: nat): (s: seq<byte>)
    requires WellFormed(m) && i < HeaderOf(m).slotCount
    ensures |s| == HeaderOf(m).slotSize
  {
    SlotFits(HeaderOf(m), |m|, i);
    var off := SlotStart(i, HeaderOf(m).slotSize);
    m[off..off + HeaderOf(m).slotSize]
  }

  function SlotsOf(m: seq<byte>): (slots: seq<SlotRecord>)
    requires WellFormed(m)
    ensures |slots| == HeaderOf(m).slotCount
    ensures forall i :: 0 <= i < |slots| ==> slots[i] == SlotMemory.DecodeSlot(SlotBytes(m, i))
  {
    seq(HeaderOf(m).slotCount, i requires 0 <= i < HeaderOf(m).slotCount => SlotMemory.DecodeSlot(SlotBytes(m, i)))
  }

  function RingOf(m: seq<byte>): (r: Ring)
    requires WellFormed(m)
    ensures Usable(r)
  {
    var h := HeaderOf(m);
    Ring(h.slotSize - SlotMemory.METADATA_SIZE, h.producerIdx, h.consumerIdx, h.completed, SlotsOf(m))
  }

  /** A header that differs in its counters only. */
  predicate SameLayout(h: HeaderRecord, h': HeaderRecord) {
    h' == h.(producerIdx := h'.producerIdx, consumerIdx := h'.consumerIdx,
             completed := h'.completed, activeProducers := h'.activeProducers)
  }

  /** Region m' is m except for header counters and the bytes of slot x; -1 means no slot. */
  ghost predicate KeptExcept(m: seq<byte>, m': seq<byte>, x: int) {
    && WellFormed(m) && WellFormed(m') && |m'| == |m|
    && SameLayout(HeaderOf(m), HeaderOf(m'))
    && (forall j :: 0 <= j < HeaderOf(m).slotCount && j != x ==> SlotBytes(m', j) == SlotBytes(m, j))
  }

  lemma KeptOnAndOn(m: seq<byte>, m1: seq<byte>, m2: seq<byte>, x: int, y: int)
    requires KeptExcept(m, m1, x) && KeptExcept(m1, m2, y) && (x == -1 || x == y)
    ensures KeptExcept(m, m2, y)
  {
    forall j | 0 <= j < HeaderOf(m).slotCount && j != y
      ensures SlotBytes(m2, j) == SlotBytes(m, j)
    {
      assert SlotBytes(m1, j) == SlotBytes(m, j);
      assert SlotBytes(m2, j) == SlotBytes(m1, j);
    }
  }

  lemma KeptSame(m: seq<byte>)
    requires WellFormed(m)
    ensures KeptExcept(m, m, -1)
  {
  }

  lemma KeptThenCounted(m: seq<byte>, m1: seq<byte>, m2: seq<byte>, x: int)
    requires KeptExcept(m, m1, x) && KeptExcept(m1, m2, -1)
    ensures KeptExcept(m, m2, x)
  {
    forall j | 0 <= j < HeaderOf(m).slotCount && j != x
      ensures SlotBytes(m2, j) == SlotBytes(m, j)
    {
      assert SlotBytes(m1, j) == SlotBytes(m, j);
      assert SlotBytes(m2, j) == SlotBytes(m1, j);
    }
  }

  /** Changing counters in the header leaves every slot alone. */
  lemma HeaderChanged(m: seq<byte>, m': seq<byte>)
    requires WellFormed(m) && |m'| == |m| && m'[HEADER_SIZE..] == m[HEADER_SIZE..]
    requires SameLayout(HeaderOf(m), HeaderOf(m'))
    requires HeaderOf(m').producerIdx < HeaderOf(m).slotCount && HeaderOf(m').consumerIdx < HeaderOf(m).slotCount
    ensures WellFormed(m')
    ensures forall i :: 0 <= i < HeaderOf(m).slotCount ==> SlotBytes(m', i) == SlotBytes(m, i)
    ensures RingOf(m') == RingOf(m).(producerIdx := HeaderOf(m').producerIdx,
                                     consumerIdx := HeaderOf(m').consumerIdx,
                                     completed := HeaderOf(m').completed)
  {
    assert WellFormed(m');
    hide DecodeHeader, SlotMemory.DecodeSlot, SlotCount, Validates;
    var h := HeaderOf(m);
    forall i | 0 <= i < h.slotCount
      ensures SlotBytes(m', i) == SlotBytes(m, i)
    {
      SlotFits(h, |m|, i);
      SameTailSameSlice(m, m', SlotStart(i, h.slotSize), SlotStart(i, h.slotSize) + h.slotSize);
    }
    SameSlots(m, m');
  }

  lemma SameTailSameSlice(m: seq<byte>, m': seq<byte>, lo: nat, hi: nat)
    requires |m'| == |m| && HEADER_SIZE <= lo <= hi <= |m| && m'[HEADER_SIZE..] == m[HEADER_SIZE..]
    ensures m'[lo..hi] == m[lo..hi]
  {
    assert m[lo..hi] == m[HEADER_SIZE..][lo - HEADER_SIZE..hi - HEADER_SIZE];
    assert m'[lo..hi] == m'[HEADER_SIZE..][lo - HEADER_SIZE..hi - HEADER_SIZE];
  }

  lemma SameSlots(m: seq<byte>, m': seq<byte>)
    requires WellFormed(m) && WellFormed(m') && HeaderOf(m').slotCount == HeaderOf(m).slotCount
    requires forall i :: 0 <= i < HeaderOf(m).slotCount ==> SlotBytes(m', i) == SlotBytes(m, i)
    ensures SlotsOf(m') == SlotsOf(m)
  {
    hide DecodeHeader, SlotMemory.DecodeSlot, SlotCount, SlotStart;
  }

  /** Changing bytes of slot i leaves the header and every other slot alone. */
  lemma SlotChanged(m: seq<byte>, m': seq<byte>, i: nat)
    requires WellFormed(m) && |m'| == |m| && i < HeaderOf(m).slotCount
    requires var off := SlotStart(i, HeaderOf(m).slotSize);
             && off + HeaderOf(m).slotSize <= |m|
             && m'[..off] == m[..off]
             && m'[off + HeaderOf(m).slotSize..] == m[off + HeaderOf(m).slotSize..]
    ensures WellFormed(m') && HeaderOf(m') == HeaderOf(m)
    ensures forall j :: 0 <= j < HeaderOf(m).slotCount && j != i ==> SlotBytes(m', j) == SlotBytes(m, j)
    ensures RingOf(m') == RingOf(m).(slots := RingOf(m).slots[i := SlotMemory.DecodeSlot(SlotBytes(m', i))])
  {
    var h := HeaderOf(m);
    var off := SlotStart(i, h.slotSize);
    assert m'[..HEADER_SIZE] == m'[..off][..HEADER_SIZE] == m[..HEADER_SIZE];
    assert WellFormed(m') && HeaderOf(m') == h;
    hide DecodeHeader, SlotMemory.DecodeSlot, Validates, SlotStart, SlotCount;
    forall j | 0 <= j < h.slotCount && j != i
      ensures SlotBytes(m', j) == SlotBytes(m, j)
    {
      SlotFits(h, |m|, j);
      OtherSlotUnchanged(m, m', i, j, h.slotSize);
    }
    OneSlotDiffers(m, m', i);
  }

  lemma OneSlotDiffers(m: seq<byte>, m': seq<byte>, i: nat)
    requires WellFormed(m) && WellFormed(m') && HeaderOf(m').slotCount == HeaderOf(m).slotCount
    requires i < HeaderOf(m).slotCount
    requires forall j :: 0 <= j < HeaderOf(m).slotCount && j != i ==> SlotBytes(m', j) == SlotBytes(m, j)
    ensures SlotsOf(m') == SlotsOf(m)[i := SlotMemory.DecodeSlot(SlotBytes(m', i))]
  {
    hide DecodeHeader, SlotMemory.DecodeSlot, SlotCount, SlotStart;
  }

  lemma OtherSlotUnchanged(m: seq<byte>, m': seq<byte>, i: nat, j: nat, slotSize: nat)
    requires |m'| == |m| && i != j
    requires SlotStart(i, slotSize) + slotSize <= |m| && SlotStart(j, slotSize) + slotSize <= |m|
    requires m'[..SlotStart(i, slotSize)] == m[..SlotStart(i, slotSize)]
    requires m'[SlotStart(i, slotSize) + slotSize..] == m[SlotStart(i, slotSize) + slotSize..]
    ensures m'[SlotStart(j, slotSize)..SlotStart(j, slotSize) + slotSize] ==
            m[SlotStart(j, slotSize)..SlotStart(j, slotSize) + slotSize]
  {
    var lo := SlotStart(i, slotSize);
    var hi := lo + slotSize;
    var off := SlotStart(j, slotSize);
    if j < i {
      SlotsFollowEachOther(j, i, slotSize);
      assert m[off..off + slotSize] == m[..lo][off..off + slotSize];
      assert m'[off..off + slotSize] == m'[..lo][off..off + slotSize];
    } else {
      SlotsFollowEachOther(i, j, slotSize);
      assert m[off..off + slotSize] == m[hi..][off - hi..off - hi + slotSize];
      assert m'[off..off + slotSize] == m'[hi..][off - hi..off - hi + slotSize];
    }
  }

  predicate IsReset(s: SlotRecord) {
    s == SlotRecord(Empty, NoOperation, 0, NIL_ID, 0, s.data)
  }

  /** A ring of n reset slots with cap payload bytes each and all counters zero. */
  predicate FreshRing(r: Ring, n: nat, cap: nat) {
    && r.cap == cap && r.producerIdx == r.consumerIdx == r.completed == 0
    && |r.slots| == n
    && (forall i :: 0 <= i < n ==> IsReset(r.slots[i]))
  }

  /** Every payload byte is zero. */
  predicate BlankPayload(r: Ring) {
    forall i :: 0 <= i < |r.slots| ==> AllZero(r.slots[i].data)
  }

  predicate AllZero(data: seq<byte>) {
    forall k :: 0 <= k < |data| ==> data[k] == 0
  }

  lemma ZeroRegionHasBlankPayload(m: seq<byte>)
    requires WellFormed(m) && AllZero(m[HEADER_SIZE..])
    ensures BlankPayload(RingOf(m))
  {
    hide DecodeHeader, Validates, SlotCount;
    forall i | 0 <= i < HeaderOf(m).slotCount
      ensures AllZero(SlotsOf(m)[i].data)
    {
      SlotFits(HeaderOf(m), |m|, i);
      var off := SlotStart(i, HeaderOf(m).slotSize);
      assert SlotBytes(m, i) == m[HEADER_SIZE..][off - HEADER_SIZE..off - HEADER_SIZE + HeaderOf(m).slotSize];
    }
  }

  /** The slot holds what a call of `write` was given. */
  predicate CarriesCall(s: SlotRecord, kind: OperationKind, data: seq<byte>, id: seq<byte>, now: nat) {
    && s.status == Ready && s.kind == kind && s.size == |data| <= |s.data|
    && s.id == id && s.timestamp == now && s.data[..|data|] == data
  }

  // ---------- handles ----------

  class RingBuffer {
    const mem: array<byte>
    const header: RingHeader
    const size: nat
    const slotSize: nat
    var isProducer: bool

    /** The handle's mapping holds a ring and the handle knows its slot size. */
    ghost predicate Attached()
      reads mem
      ensures Attached() ==> WellFormed(mem[..])
    {
      && header.mem == mem
      && WellFormed(mem[..])
      && slotSize == HeaderOf(mem[..]).slotSize
    }

    /** `create`, on options that `RingHeader::new` and `get_slot` do not panic on. The file is truncated
        and extended first, so the mapping starts out as zeros. */
    constructor Create(size: nat, slotSize: nat, now: nat)
      requires HEADER_SIZE <= size < U64_MODULUS && 0 < slotSize < U64_MODULUS && now < U64_MODULUS
      requires SlotCount(size, slotSize) > 0 ==> slotSize >= SlotMemory.METADATA_SIZE
      ensures fresh(mem) && mem.Length == size && this.size == size && this.slotSize == slotSize && isProducer
      ensures Validates(HeaderOf(mem[..])) <==> SlotCount(size, slotSize) > 0
      ensures SlotCount(size, slotSize) > 0 ==>
                && Attached() && HeaderOf(mem[..]).activeProducers == 1
                && FreshRing(RingOf(mem[..]), SlotCount(size, slotSize), slotSize - SlotMemory.METADATA_SIZE)
                && BlankPayload(RingOf(mem[..]))
    {
      this.mem := new byte[size](_ => 0);
      this.header := RingHeader(this.mem);
      this.size := size;
      this.slotSize := slotSize;
      this.isProducer := true;
      new;
      InitHeader(now);
      hide DecodeHeader, SlotMemory.DecodeSlot, BlankPayload;
      var n := SlotCount(size, slotSize);
      if n > 0 {
        assert mem[..][HEADER_SIZE..] == mem[HEADER_SIZE..];
        ZeroRegionHasBlankPayload(mem[..]);
        ResetAll(n);
      }
    }

    /** The header of a new ring, with its creator registered as a producer. */
    method InitHeader(now: nat)
      requires HEADER_SIZE <= size < U64_MODULUS && 0 < slotSize < U64_MODULUS && now < U64_MODULUS
      requires mem.Length == size && header.mem == mem
      modifies mem
      ensures mem[HEADER_SIZE..] == old(mem[HEADER_SIZE..])
      ensures HeaderOf(mem[..]) == HeaderRecord(MAGIC, VERSION, size, slotSize, SlotCount(size, slotSize), 0, 0, 1, 0, now, 0)
    {
      header.Init(size, slotSize, now);
      header.RegisterProducer();
      assert mem[..HEADER_SIZE] == mem[..][..HEADER_SIZE];
    }

    /** The loop of `create` over all slots. */
    method ResetAll(n: nat)
      requires Attached() && n == HeaderOf(mem[..]).slotCount
      requires HeaderOf(mem[..]).producerIdx == HeaderOf(mem[..]).consumerIdx == HeaderOf(mem[..]).completed == 0
      requires BlankPayload(RingOf(mem[..]))
      modifies mem
      ensures Attached() && HeaderOf(mem[..]) == old(HeaderOf(mem[..]))
      ensures BlankPayload(RingOf(mem[..]))
      ensures FreshRing(RingOf(mem[..]), n, slotSize - SlotMemory.METADATA_SIZE)
    {
      hide DecodeHeader, SlotMemory.DecodeSlot, SlotCount, Validates, KeptExcept;
      ghost var h := HeaderOf(mem[..]);
      for i := 0 to n
        invariant Attached() && HeaderOf(mem[..]) == h && BlankPayload(RingOf(mem[..]))
        invariant forall j :: 0 <= j < i ==> IsReset(RingOf(mem[..]).slots[j])
      {
        ResetAt(i);
      }
    }

    /** A handle on an existing region, taking sizes from its header. */
    constructor Attach(mem: array<byte>)
      requires HEADER_SIZE <= mem.Length < U64_MODULUS
      ensures this.mem == mem && header.mem == mem && !isProducer
      ensures size == HeaderOf(mem[..]).size && slotSize == HeaderOf(mem[..]).slotSize
    {
      this.mem := mem;
      this.header := RingHeader(mem);
      var h := DecodeHeader(mem[..HEADER_SIZE]);
      this.size := h.size;
      this.slotSize := h.slotSize;
      this.isProducer := false;
      new;
      assert mem[..HEADER_SIZE] == mem[..][..HEADER_SIZE];
    }

    /** `open`: fails exactly when the header does not validate. Options that do not match are reported
        and then ignored in favour of what the header says. */
    static method Open(mem: array<byte>, expectedSize: nat, expectedSlotSize: nat)
      returns (handle: RingBuffer?, warned: bool)
      requires HEADER_SIZE <= mem.Length < U64_MODULUS
      ensures handle == null <==> !Validates(HeaderOf(mem[..]))
      ensures handle != null ==>
                && fresh(handle) && handle.mem == mem && !handle.isProducer
                && handle.size == HeaderOf(mem[..]).size && handle.slotSize == HeaderOf(mem[..]).slotSize
                && (warned <==> handle.size != expectedSize || handle.slotSize != expectedSlotSize)
                && (WellFormed(mem[..]) ==> handle.Attached())
    {
      assert mem[..HEADER_SIZE] == mem[..][..HEADER_SIZE];
      var header := RingHeader(mem);
      var valid := header.Validate();
      if !valid {
        return null, false;
      }
      var h := new RingBuffer.Attach(mem);
      return h, h.size != expectedSize || h.slotSize != expectedSlotSize;
    }

    /** `get_slot`, its bounds assertion being the precondition. */
    method GetSlot(idx: nat) returns (slot: SlotMemory.Slot)
      requires Attached() && idx < |RingOf(mem[..]).slots|
      ensures slot.mem == mem && slot.base == SlotStart(idx, slotSize)
      ensures slot.dataSize == slotSize - SlotMemory.METADATA_SIZE
      ensures slot.Valid() && slot.View() == RingOf(mem[..]).slots[idx]
    {
      SlotFits(HeaderOf(mem[..]), mem.Length, idx);
      slot := SlotMemory.Slot(mem, SlotStart(idx, slotSize), slotSize - SlotMemory.METADATA_SIZE);
      assert mem[slot.base..slot.End()] == SlotBytes(mem[..], idx);
    }

    /** The contents were m, then operations kept to slot idx: the ring changed in that slot only. */
    lemma OneSlotChanged(m: seq<byte>, slot: SlotMemory.Slot, idx: nat)
      requires WellFormed(m) && |m| == mem.Length && header.mem == mem
      requires idx < |RingOf(m).slots| && slotSize == HeaderOf(m).slotSize
      requires slot.mem == mem && slot.base == SlotStart(idx, slotSize)
      requires slot.dataSize == slotSize - SlotMemory.METADATA_SIZE
      requires slot.Valid() && slot.Outside() == (m[..slot.base], m[slot.End()..])
      ensures Attached() && KeptExcept(m, mem[..], idx) && HeaderOf(mem[..]) == HeaderOf(m)
      ensures RingOf(mem[..]) == RingOf(m).(slots := RingOf(m).slots[idx := slot.View()])
    {
      hide DecodeHeader, SlotMemory.DecodeSlot, SlotCount, Validates;
      var m' := mem[..];
      SlotFits(HeaderOf(m), |m|, idx);
      assert m'[..slot.base] == mem[..slot.base];
      assert m'[slot.End()..] == mem[slot.End()..];
      SlotChanged(m, m', idx);
      assert mem[slot.base..slot.End()] == SlotBytes(m', idx);
    }

    /** The contents were m, then header counters moved: the ring changed in those only. */
    lemma CountersChanged(m: seq<byte>)
      requires WellFormed(m) && |m| == mem.Length && header.mem == mem && header.Valid()
      requires slotSize == HeaderOf(m).slotSize
      requires header.Outside() == m[HEADER_SIZE..]
      requires SameLayout(HeaderOf(m), header.View())
      requires header.View().producerIdx < HeaderOf(m).slotCount
      requires header.View().consumerIdx < HeaderOf(m).slotCount
      ensures Attached() && KeptExcept(m, mem[..], -1)
      ensures RingOf(mem[..]) == RingOf(m).(producerIdx := header.View().producerIdx,
                                            consumerIdx := header.View().consumerIdx,
                                            completed := header.View().completed)
    {
      var m' := mem[..];
      assert m'[HEADER_SIZE..] == mem[HEADER_SIZE..];
      assert m'[..HEADER_SIZE] == mem[..HEADER_SIZE];
      HeaderChanged(m, m');
    }

    /** `next_producer_idx` as the ring sees it. */
    method ClaimForProducer() returns (x: nat)
      requires Attached()
      modifies mem
      ensures Attached() && KeptExcept(old(mem[..]), mem[..], -1)
      ensures x == RingOf(old(mem[..])).producerIdx
      ensures RingOf(mem[..]) ==
              RingOf(old(mem[..])).(producerIdx := (x + 1) % |RingOf(old(mem[..])).slots|)
    {
      var spurious: nat := *;
      ghost var m := mem[..];
      assert m[..HEADER_SIZE] == mem[..HEADER_SIZE] && m[HEADER_SIZE..] == mem[HEADER_SIZE..];
      x := header.NextProducerIdx(spurious);
      CountersChanged(m);
    }

    /** `next_consumer_idx` as the ring sees it. */
    method ClaimForConsumer() returns (x: nat)
      requires Attached()
      modifies mem
      ensures Attached() && KeptExcept(old(mem[..]), mem[..], -1)
      ensures x == RingOf(old(mem[..])).consumerIdx
      ensures RingOf(mem[..]) ==
              RingOf(old(mem[..])).(consumerIdx := (x + 1) % |RingOf(old(mem[..])).slots|)
    {
      var spurious: nat := *;
      ghost var m := mem[..];
      assert m[..HEADER_SIZE] == mem[..HEADER_SIZE] && m[HEADER_SIZE..] == mem[HEADER_SIZE..];
      x := header.NextConsumerIdx(spurious);
      CountersChanged(m);
    }

    /** `increment_completed` as the ring sees it. */
    method CountDelivery()
      requires Attached()
      modifies mem
      ensures Attached() && KeptExcept(old(mem[..]), mem[..], -1)
      ensures RingOf(mem[..]) ==
              RingOf(old(mem[..])).(completed := (RingOf(old(mem[..])).completed + 1) % U64_MODULUS)
    {
      ghost var m := mem[..];
      assert m[..HEADER_SIZE] == mem[..HEADER_SIZE] && m[HEADER_SIZE..] == mem[HEADER_SIZE..];
      assert WellFormed(m) && RingOf(m).completed == HeaderOf(m).completed;
      hide DecodeHeader, SlotMemory.DecodeSlot, SlotCount, SlotsOf, Validates, SlotBytes, KeptExcept, RingOf;
      header.IncrementCompleted();
      CountersChanged(m);
    }

    /** The two indices, as loaded from the header. */
    method LoadIndices() returns (p: nat, c: nat)
      requires Attached()
      ensures p == RingOf(mem[..]).producerIdx && c == RingOf(mem[..]).consumerIdx
    {
      assert mem[..HEADER_SIZE] == mem[..][..HEADER_SIZE];
      p := header.LoadWord(PRODUCER_WORD);
      c := header.LoadWord(CONSUMER_WORD);
    }

    method ResetAt(x: nat)
      requires Attached() && x < |RingOf(mem[..]).slots|
      modifies mem
      ensures HeaderOf(mem[..]) == HeaderOf(old(mem[..]))
      ensures Attached() && KeptExcept(old(mem[..]), mem[..], x)
      ensures RingOf(mem[..]) ==
              RingOf(old(mem[..])).(slots := RingOf(old(mem[..])).slots[x := ResetSlot(RingOf(old(mem[..])).slots[x])])
    {
      ghost var m := mem[..];
      var slot := GetSlot(x);
      assert m[..slot.base] == mem[..slot.base] && m[slot.End()..] == mem[slot.End()..];
      slot.Reset();
      OneSlotChanged(m, slot, x);
    }

    /** One round of the loop in `wait_for_slot`. The status is loaded twice, as in the source. */
    method TryOnce() returns (claimed: Option<nat>)
      requires Attached()
      modifies mem
      ensures Attached() && KeptExcept(old(mem[..]), mem[..], if claimed.Some? then claimed.value else -1)
      ensures (RingOf(mem[..]), claimed) == Attempt(RingOf(old(mem[..])))
    {
      hide KeptExcept, WellFormed, RingOf, SameLayout, HeaderOf, SlotMemory.DecodeSlot, DecodeHeader, Attached;
      ghost var m := mem[..];
      var p, c := LoadIndices();
      var slotCount := LoadSlotCount();
      if AvailableSlots(p, c, slotCount) > 0 {
        var x := ClaimForProducer();
        ghost var m1 := mem[..];
        var slot := GetSlot(x);
        var first := slot.Status();
        var second := slot.Status();
        if first == Empty || second == Complete {
          ResetAt(x);
          KeptOnAndOn(m, m1, mem[..], -1, x);
          return Some(x);
        }
      }
      claimed := None;
    }

    method LoadSlotCount() returns (n: nat)
      requires Attached()
      ensures n == |RingOf(mem[..]).slots|
    {
      assert mem[..HEADER_SIZE] == mem[..][..HEADER_SIZE];
      n := header.LoadWord(SLOT_COUNT_WORD);
    }

    /** `wait_for_slot`: up to eleven attempts, each of which uses up one producer index. */
    method WaitForSlot() returns (claimed: Option<nat>)
      requires Attached()
      modifies mem
      ensures Attached() && KeptExcept(old(mem[..]), mem[..], if claimed.Some? then claimed.value else -1)
      ensures (RingOf(mem[..]), claimed) == SequentialRing.WaitForSlot(RingOf(old(mem[..])), 0)
    {
      hide KeptExcept, WellFormed, RingOf, Attempt, HeaderOf, DecodeHeader, Attached;
      ghost var m := mem[..];
      KeptSame(m);
      var attempt := 0;
      while true
        invariant Attached() && KeptExcept(m, mem[..], -1)
        invariant attempt <= MAX_ATTEMPTS
        invariant SequentialRing.WaitForSlot(RingOf(mem[..]), attempt) == SequentialRing.WaitForSlot(RingOf(m), 0)
        decreases MAX_ATTEMPTS - attempt
      {
        ghost var m1 := mem[..];
        claimed := TryOnce();
        KeptOnAndOn(m, m1, mem[..], -1, if claimed.Some? then claimed.value else -1);
        if claimed.Some? {
          return;
        }
        attempt := attempt + 1;
        if attempt > MAX_ATTEMPTS {
          return;
        }
      }
    }

    /** `max_payload_size`. */
    method MaxPayloadSize() returns (n: nat)
      requires Attached()
      ensures n == RingOf(mem[..]).cap
    {
      n := slotSize - SlotMemory.METADATA_SIZE;
    }

    /** The stores of `write` into the slot it has claimed. */
    method StoreAt(x: nat, kind: OperationKind, data: seq<byte>, id: seq<byte>, now: nat)
      requires Attached() && x < |RingOf(mem[..]).slots|
      requires |data| <= RingOf(mem[..]).cap && |id| == 16 && now < U64_MODULUS
      modifies mem
      ensures Attached() && KeptExcept(old(mem[..]), mem[..], x)
      ensures RingOf(mem[..]) ==
              RingOf(old(mem[..])).(slots := RingOf(old(mem[..])).slots[x :=
                StoredSlot(RingOf(old(mem[..])).slots[x], Message(kind, data), id, now)])
    {
      ghost var m := mem[..];
      var slot := GetSlot(x);
      assert m[..slot.base] == mem[..slot.base] && m[slot.End()..] == mem[slot.End()..];
      slot.SetOperation(kind);
      slot.SetId(id);
      var ok := slot.WriteData(data, now);
      OneSlotChanged(m, slot, x);
    }

    /** `write`, with the id and the clock reading as inputs. */
    method Write(kind: OperationKind, data: seq<byte>, id: seq<byte>, now: nat) returns (result: WriteResult)
      requires Attached() && |id| == 16 && now < U64_MODULUS
      modifies mem
      ensures Attached() && KeptExcept(old(mem[..]), mem[..], if result.Wrote? then result.slot else -1)
      ensures (RingOf(mem[..]), result) ==
              SequentialRing.Write(RingOf(old(mem[..])), Message(kind, data), id, now)
      ensures result.Wrote? ==>
                && result.slot < |RingOf(mem[..]).slots|
                && CarriesCall(RingOf(mem[..]).slots[result.slot], kind, data, id, now)
    {
      SequentialSlots.WrittenSlot(RingOf(mem[..]), Message(kind, data), id, now);
      hide KeptExcept, WellFormed, RingOf, SequentialRing.WaitForSlot, HeaderOf, DecodeHeader, Attached;
      ghost var m := mem[..];
      var max := MaxPayloadSize();
      if |data| > max {
        KeptSame(m);
        return TooLarge;
      }
      var claimed := WaitForSlot();
      match claimed
      case None =>
        result := Full;
      case Some(x) =>
        ghost var m1 := mem[..];
        StoreAt(x, kind, data, id, now);
        KeptOnAndOn(m, m1, mem[..], x, x);
        result := Wrote(x);
    }

    /** What the getters report about the slot that a `write` returned: the call's kind, size, id and time. */
    method WriteAndInspect(kind: OperationKind, data: seq<byte>, id: seq<byte>, now: nat)
      returns (result: WriteResult, status: SlotStatus, storedKind: OperationKind, size: nat, storedId: seq<byte>, time: nat)
      requires Attached() && |id| == 16 && now < U64_MODULUS
      modifies mem
      ensures Attached()
      ensures result.Wrote? ==>
                && status == Ready && storedKind == kind && size == |data| && storedId == id && time == now
    {
      status, storedKind, size, storedId, time := Empty, NoOperation, 0, [], 0;
      result := Write(kind, data, id, now);
      if result.Wrote? {
        var slot := GetSlot(result.slot);
        status := slot.Status();
        storedKind := slot.Operation();
        size := slot.Size();
        storedId := slot.Id();
        time := slot.Timestamp();
      }
    }

    /** The slot of a `read` that has claimed index x: take the message if there is one, else reset. */
    method TakeAt(x: nat) returns (message: Option<Message>)
      requires Attached() && x < |RingOf(mem[..]).slots|
      modifies mem
      ensures Attached() && KeptExcept(old(mem[..]), mem[..], x)
      ensures var r, s := RingOf(old(mem[..])), RingOf(old(mem[..])).slots[x];
              if s.status.Ready? && s.size <= r.cap then
                && message == Some(Message(s.kind, s.data[..s.size]))
                && RingOf(mem[..]) == r.(slots := r.slots[x := s.(status := Complete)])
              else
                && message == None
                && RingOf(mem[..]) == r.(slots := r.slots[x := ResetSlot(s)])
    {
      ghost var m := mem[..];
      var slot := GetSlot(x);
      assert m[..slot.base] == mem[..slot.base] && m[slot.End()..] == mem[slot.End()..];
      var status := slot.Status();
      if status == Ready {
        var kind := slot.Operation();
        var data := slot.ReadData();
        if data.Some? {
          OneSlotChanged(m, slot, x);
          return Some(Message(kind, data.value));
        }
      }
      slot.Reset();
      OneSlotChanged(m, slot, x);
      message := None;
    }

    /** `read`. The completed counter moves only when a message is returned. */
    method Read() returns (message: Option<Message>)
      requires Attached()
      modifies mem
      ensures Attached()
      ensures KeptExcept(old(mem[..]), mem[..],
                         if RingOf(old(mem[..])).producerIdx == RingOf(old(mem[..])).consumerIdx then -1
                         else RingOf(old(mem[..])).consumerIdx)
      ensures (RingOf(mem[..]), message) == SequentialRing.Read(RingOf(old(mem[..])))
    {
      hide KeptExcept, WellFormed, RingOf, HeaderOf, DecodeHeader, Attached;
      ghost var m := mem[..];
      var p, c := LoadIndices();
      if p == c {
        KeptSame(m);
        return None;
      }
      var x := ClaimForConsumer();
      ghost var m1 := mem[..];
      message := TakeAt(x);
      ghost var m2 := mem[..];
      KeptOnAndOn(m, m1, m2, -1, x);
      if message.Some? {
        CountDelivery();
        KeptThenCounted(m, m2, mem[..], x);
      }
    }
  }
}
