/** The 192-byte header at the start of the mapped region. */
module HeaderMemory {
  import opened Common
  import opened Bytes

  /** Size of the header: 148 bytes of fields and padding, rounded up to a multiple of 64. */
  const HEADER_SIZE: nat := 192

  const MAGIC: nat := 0x45_4C_47_41_54_45_52_42
  const VERSION: nat := 1

  // Positions of the 8-byte fields, in words from the start of the header.
  const MAGIC_WORD: nat := 0
  const VERSION_WORD: nat := 1
  const SIZE_WORD: nat := 2
  const SLOT_SIZE_WORD: nat := 3
  const SLOT_COUNT_WORD: nat := 4
  const PRODUCER_WORD: nat := 5
  const CONSUMER_WORD: nat := 6
  const ACTIVE_WORD: nat := 7
  const COMPLETED_WORD: nat := 8
  const CREATED_WORD: nat := 9
  const NODE_OFFSET: nat := 80

  datatype HeaderRecord = HeaderRecord(
    magic: nat,
    version: nat,
    size: nat,
    slotSize: nat,
    slotCount: nat,
    producerIdx: nat,
    consumerIdx: nat,
    activeProducers: nat,
    completed: nat,
    createdAt: nat,
    numaNode: nat)

  function Word(h: seq<byte>, k: nat): (v: nat)
    requires |h| == HEADER_SIZE && k <= CREATED_WORD
    ensures v < Pow256(8)
  {
    FromLE(h[8 * k..8 * k + 8])
  }

  function DecodeHeader(h: seq<byte>): HeaderRecord
    requires |h| == HEADER_SIZE
  {
    HeaderRecord(Word(h, MAGIC_WORD), Word(h, VERSION_WORD), Word(h, SIZE_WORD), Word(h, SLOT_SIZE_WORD),
                 Word(h, SLOT_COUNT_WORD), Word(h, PRODUCER_WORD), Word(h, CONSUMER_WORD),
                 Word(h, ACTIVE_WORD), Word(h, COMPLETED_WORD), Word(h, CREATED_WORD),
                 FromLE(h[NODE_OFFSET..NODE_OFFSET + 4]))
  }

  /** The offsets are those of a `repr(C, align(64))` structure with ten 8-byte fields, a 4-byte node number
      and 64 bytes of padding, in the order of the declaration. */
  lemma HeaderLayout()
    ensures MAGIC_WORD == 0 && VERSION_WORD == MAGIC_WORD + 1 && SIZE_WORD == VERSION_WORD + 1
    ensures SLOT_SIZE_WORD == SIZE_WORD + 1 && SLOT_COUNT_WORD == SLOT_SIZE_WORD + 1
    ensures PRODUCER_WORD == SLOT_COUNT_WORD + 1 && CONSUMER_WORD == PRODUCER_WORD + 1
    ensures ACTIVE_WORD == CONSUMER_WORD + 1 && COMPLETED_WORD == ACTIVE_WORD + 1
    ensures CREATED_WORD == COMPLETED_WORD + 1
    ensures FieldAt(NODE_OFFSET, 8 * (CREATED_WORD + 1), 4)
    ensures FieldAt(HEADER_SIZE, NODE_OFFSET + 4 + 64, 64)
  {
  }

  /** A valid header starts with the magic number, least significant byte first, and version 1. */
  lemma ValidHeaderStartsWith(h: seq<byte>)
    requires |h| == 192
    ensures Validates(DecodeHeader(h)) ==>
              && h[0..8] == [0x42, 0x52, 0x45, 0x54, 0x41, 0x47, 0x4C, 0x45]
              && h[8..16] == [1, 0, 0, 0, 0, 0, 0, 0]
  {
    MagicBytes(h[0..8]);
    VersionBytes(h[8..16]);
    hide FromLE;
  }

  lemma MagicBytes(b: seq<byte>)
    requires |b| == 8
    ensures FromLE(b) == MAGIC ==> b == [0x42, 0x52, 0x45, 0x54, 0x41, 0x47, 0x4C, 0x45]
  {
    hide FromLE;
    var magic: seq<byte> := [0x42, 0x52, 0x45, 0x54, 0x41, 0x47, 0x4C, 0x45];
    EightBytes(magic);
    FourBytes(magic[..4]);
    FourBytes(magic[4..]);
    if FromLE(b) == MAGIC { SameNumberSameBytes(b, magic); }
  }

  lemma VersionBytes(b: seq<byte>)
    requires |b| == 8
    ensures FromLE(b) == VERSION ==> b == [1, 0, 0, 0, 0, 0, 0, 0]
  {
    hide FromLE;
    var version: seq<byte> := [1, 0, 0, 0, 0, 0, 0, 0];
    EightBytes(version);
    FourBytes(version[..4]);
    FourBytes(version[4..]);
    if FromLE(b) == VERSION { SameNumberSameBytes(b, version); }
  }

  /** Which bytes hold which field. */
  lemma HeaderBytesMean(h: seq<byte>)
    requires |h| == 192
    ensures DecodeHeader(h).size == FromLE(h[16..24]) && DecodeHeader(h).slotSize == FromLE(h[24..32])
    ensures DecodeHeader(h).slotCount == FromLE(h[32..40])
    ensures DecodeHeader(h).producerIdx == FromLE(h[40..48]) && DecodeHeader(h).consumerIdx == FromLE(h[48..56])
    ensures DecodeHeader(h).activeProducers == FromLE(h[56..64]) && DecodeHeader(h).completed == FromLE(h[64..72])
    ensures DecodeHeader(h).createdAt == FromLE(h[72..80]) && DecodeHeader(h).numaNode == FromLE(h[80..84])
  {
    hide FromLE;
  }

  // ---------- how many slots fit ----------

  /** The slot count that `new` computes. */
  function SlotCount(size: nat, slotSize: nat): nat
    requires HEADER_SIZE <= size && slotSize > 0
  {
    (size - HEADER_SIZE) / slotSize
  }

  /** Offset of slot i. */
  function SlotStart(i: nat, slotSize: nat): (off: nat)
    ensures off >= HEADER_SIZE
  {
    HEADER_SIZE + i * slotSize
  }

  lemma ProductIsMonotone(a: nat, b: nat, c: nat)
    requires a <= b
    ensures a * c <= b * c
  {
    assert b * c == a * c + (b - a) * c;
  }

  lemma SlotCountBounds(size: nat, slotSize: nat)
    requires HEADER_SIZE <= size && slotSize > 0
    ensures SlotStart(SlotCount(size, slotSize), slotSize) <= size
    ensures size < SlotStart(SlotCount(size, slotSize) + 1, slotSize)
    ensures SlotCount(size, slotSize) <= size
  {
    var room, n := size - HEADER_SIZE, SlotCount(size, slotSize);
    assert room == slotSize * n + room % slotSize;
    assert (n + 1) * slotSize == n * slotSize + slotSize;
    ProductIsMonotone(1, slotSize, n);
  }

  /** Consecutive slots do not overlap and keep their order. */
  lemma SlotsFollowEachOther(i: nat, j: nat, slotSize: nat)
    requires i < j
    ensures SlotStart(i, slotSize) + slotSize <= SlotStart(j, slotSize)
  {
    ProductIsMonotone(i + 1, j, slotSize);
    assert (i + 1) * slotSize == i * slotSize + slotSize;
  }

  /** The slots lie inside the region, behind the header, apart from each other; not one more would
      fit; and they are cache-line aligned whenever the slot size is. */
  lemma LayoutBound(size: nat, slotSize: nat, i: nat, j: nat)
    requires HEADER_SIZE <= size && slotSize > 0
    requires i < SlotCount(size, slotSize) && j < SlotCount(size, slotSize) && i != j
    ensures HEADER_SIZE <= SlotStart(i, slotSize) && SlotStart(i, slotSize) + slotSize <= size
    ensures SlotStart(i, slotSize) + slotSize <= SlotStart(j, slotSize)
         || SlotStart(j, slotSize) + slotSize <= SlotStart(i, slotSize)
    ensures size < SlotStart(SlotCount(size, slotSize), slotSize) + slotSize
    ensures slotSize % 64 == 0 ==> SlotStart(i, slotSize) % 64 == 0
  {
    var n := SlotCount(size, slotSize);
    SlotCountBounds(size, slotSize);
    SlotsFollowEachOther(i, n, slotSize);
    if i < j { SlotsFollowEachOther(i, j, slotSize); } else { SlotsFollowEachOther(j, i, slotSize); }
    assert (n + 1) * slotSize == n * slotSize + slotSize;
    if slotSize % 64 == 0 { AlignedProduct(i, slotSize / 64); }
  }

  lemma AlignedProduct(i: nat, lines: nat)
    ensures (HEADER_SIZE + i * (64 * lines)) % 64 == 0
  {
    assert HEADER_SIZE + i * (64 * lines) == 64 * (3 + i * lines);
  }

  /** `validate`. */
  predicate Validates(h: HeaderRecord) {
    h.magic == MAGIC && h.version == VERSION && h.size > HEADER_SIZE && h.slotSize > 0 && h.slotCount > 0
  }

  /** Field k of a header. */
  function Field(r: HeaderRecord, k: nat): nat
    requires k <= CREATED_WORD
  {
    match k
    case 0 => r.magic
    case 1 => r.version
    case 2 => r.size
    case 3 => r.slotSize
    case 4 => r.slotCount
    case 5 => r.producerIdx
    case 6 => r.consumerIdx
    case 7 => r.activeProducers
    case 8 => r.completed
    case _ => r.createdAt
  }

  /** A header with field k replaced. */
  function WithField(r: HeaderRecord, k: nat, v: nat): HeaderRecord
    requires k <= CREATED_WORD
  {
    match k
    case 0 => r.(magic := v)
    case 1 => r.(version := v)
    case 2 => r.(size := v)
    case 3 => r.(slotSize := v)
    case 4 => r.(slotCount := v)
    case 5 => r.(producerIdx := v)
    case 6 => r.(consumerIdx := v)
    case 7 => r.(activeProducers := v)
    case 8 => r.(completed := v)
    case _ => r.(createdAt := v)
  }

  lemma FieldIsWord(h: seq<byte>, k: nat)
    requires |h| == HEADER_SIZE && k <= CREATED_WORD
    ensures Field(DecodeHeader(h), k) == Word(h, k)
  {
  }

  /** Storing one word changes that field only. */
  lemma FieldStored(h: seq<byte>, k: nat, v: nat)
    requires |h| == HEADER_SIZE && k <= CREATED_WORD && v < U64_MODULUS
    ensures DecodeHeader(Splice(h, 8 * k, ToLE(v, 8))) == WithField(DecodeHeader(h), k, v)
  {
    var h' := Splice(h, 8 * k, ToLE(v, 8));
    WordSizes();
    FromToLE(v, 8);
    SpliceReadsBack(h, 8 * k, ToLE(v, 8));
    forall j | 0 <= j <= CREATED_WORD && j != k
      ensures Word(h', j) == Word(h, j)
    {
      SpliceLeavesAlone(h, 8 * k, ToLE(v, 8), 8 * j, 8 * j + 8);
    }
    SpliceLeavesAlone(h, 8 * k, ToLE(v, 8), NODE_OFFSET, NODE_OFFSET + 4);
    assert Word(h', k) == v;
  }

  /** One store to a counter: the producer and consumer index, the registered producers, the deliveries. */
  datatype CounterStore = CounterStore(word: nat, value: nat)

  predicate IsCounterStore(c: CounterStore) {
    PRODUCER_WORD <= c.word <= COMPLETED_WORD && c.value < U64_MODULUS
  }

  function AfterStores(h: seq<byte>, stores: seq<CounterStore>): (h': seq<byte>)
    requires |h| == HEADER_SIZE && forall i :: 0 <= i < |stores| ==> IsCounterStore(stores[i])
    ensures |h'| == HEADER_SIZE
  {
    if |stores| == 0 then h
    else
      var last := stores[|stores| - 1];
      assert IsCounterStore(last);
      Splice(AfterStores(h, stores[..|stores| - 1]), 8 * last.word, ToLE(last.value, 8))
  }

  /** The five fields that `validate` looks at. */
  predicate SameIdentity(a: HeaderRecord, b: HeaderRecord) {
    && a.magic == b.magic && a.version == b.version && a.size == b.size
    && a.slotSize == b.slotSize && a.slotCount == b.slotCount
  }

  lemma OneCounterKeepsIdentity(h: seq<byte>, c: CounterStore)
    requires |h| == HEADER_SIZE && IsCounterStore(c)
    ensures SameIdentity(DecodeHeader(Splice(h, 8 * c.word, ToLE(c.value, 8))), DecodeHeader(h))
  {
    hide DecodeHeader, Splice, ToLE;
    FieldStored(h, c.word, c.value);
  }

  lemma {:induction false} CountersKeepIdentity(h: seq<byte>, stores: seq<CounterStore>)
    requires |h| == HEADER_SIZE && forall i :: 0 <= i < |stores| ==> IsCounterStore(stores[i])
    ensures SameIdentity(DecodeHeader(AfterStores(h, stores)), DecodeHeader(h))
  {
    if |stores| > 0 {
      var n := |stores| - 1;
      CountersKeepIdentity(h, stores[..n]);
      hide DecodeHeader, Splice, ToLE, IsCounterStore;
      OneCounterKeepsIdentity(AfterStores(h, stores[..n]), stores[n]);
    }
  }

  /** A header written by `new` validates, then and after any stores to its counters, iff one slot fits behind it. */
  lemma NewHeaderValidates(h: seq<byte>, size: nat, slotSize: nat, now: nat, stores: seq<CounterStore>)
    requires |h| == HEADER_SIZE <= size && slotSize > 0
    requires DecodeHeader(h) ==
             HeaderRecord(MAGIC, VERSION, size, slotSize, SlotCount(size, slotSize), 0, 0, 0, 0, now, 0)
    requires forall i :: 0 <= i < |stores| ==> IsCounterStore(stores[i])
    ensures Validates(DecodeHeader(AfterStores(h, stores))) <==> HEADER_SIZE + slotSize <= size
  {
    hide DecodeHeader, AfterStores;
    CountersKeepIdentity(h, stores);
    SlotCountBounds(size, slotSize);
    if SlotCount(size, slotSize) > 0 {
      ProductIsMonotone(1, SlotCount(size, slotSize), slotSize);
    }
  }

  /** Which single stored words spoil a valid header: any other magic or version, a size that leaves no
      room, a slot size or slot count of 0; no counter ever does. */
  lemma StoredWordKeepsValidity(h: seq<byte>, k: nat, v: nat)
    requires |h| == HEADER_SIZE && k <= CREATED_WORD && v < U64_MODULUS
    requires Validates(DecodeHeader(h))
    ensures Validates(DecodeHeader(Splice(h, 8 * k, ToLE(v, 8)))) <==>
            match k
            case 0 => v == MAGIC
            case 1 => v == VERSION
            case 2 => v > HEADER_SIZE
            case 3 => v > 0
            case 4 => v > 0
            case _ => true
  {
    hide DecodeHeader, Splice;
    FieldStored(h, k, v);
  }

  /** The zeroed node number and padding. */
  lemma TailCleared(h: seq<byte>, zeros: seq<byte>)
    requires |h| == HEADER_SIZE && |zeros| == 68 && zeros[..4] == [0, 0, 0, 0]
    ensures DecodeHeader(Splice(h, NODE_OFFSET, zeros)) == DecodeHeader(h).(numaNode := 0)
  {
    var h' := Splice(h, NODE_OFFSET, zeros);
    forall j | 0 <= j <= CREATED_WORD
      ensures Word(h', j) == Word(h, j)
    {
      SpliceLeavesAlone(h, NODE_OFFSET, zeros, 8 * j, 8 * j + 8);
    }
    assert h'[NODE_OFFSET..NODE_OFFSET + 4] == [0, 0, 0, 0];
    FromToLE(0, 4);
    assert FromLE([0, 0, 0, 0]) == 0;
  }

  /** Pointer to the header: the start of the mapped region. */
  datatype RingHeader = RingHeader(mem: array<byte>) {

    predicate Valid() {
      HEADER_SIZE <= mem.Length < U64_MODULUS
    }

    ghost function View(): HeaderRecord
      requires Valid()
      reads mem
    {
      DecodeHeader(mem[..HEADER_SIZE])
    }

    /** Everything after the header. */
    ghost function Outside(): seq<byte>
      requires Valid()
      reads mem
    {
      mem[HEADER_SIZE..]
    }

    method LoadWord(k: nat) returns (v: nat)
      requires Valid() && k <= CREATED_WORD
      ensures v == Field(View(), k) && v < U64_MODULUS
    {
      v := Word(mem[..HEADER_SIZE], k);
      FieldIsWord(mem[..HEADER_SIZE], k);
      WordSizes();
    }

    method SaveWord(k: nat, v: nat)
      requires Valid() && k <= CREATED_WORD && v < U64_MODULUS
      modifies mem
      ensures View() == WithField(old(View()), k, v)
      ensures Outside() == old(Outside())
    {
      ghost var before := mem[..];
      ghost var h := mem[..HEADER_SIZE];
      StoreBytes(mem, 8 * k, ToLE(v, 8));
      SpliceInside(before, 8 * k, ToLE(v, 8), 0, HEADER_SIZE);
      assert before[0..HEADER_SIZE] == h;
      FieldStored(h, k, v);
    }

    /** `RingHeader::new` written over the start of the region. */
    method Init(size: nat, slotSize: nat, now: nat)
      requires Valid() && HEADER_SIZE <= size < U64_MODULUS && 0 < slotSize < U64_MODULUS && now < U64_MODULUS
      modifies mem
      ensures View() == HeaderRecord(MAGIC, VERSION, size, slotSize, SlotCount(size, slotSize), 0, 0, 0, 0, now, 0)
      ensures Outside() == old(Outside())
    {
      var slotCount := SlotCount(size, slotSize);
      SlotCountBounds(size, slotSize);
      InitFields(size, slotSize, slotCount, now);
    }

    method InitFields(size: nat, slotSize: nat, slotCount: nat, now: nat)
      requires Valid() && size < U64_MODULUS && slotSize < U64_MODULUS && slotCount < U64_MODULUS && now < U64_MODULUS
      modifies mem
      ensures View() == HeaderRecord(MAGIC, VERSION, size, slotSize, slotCount, 0, 0, 0, 0, now, 0)
      ensures Outside() == old(Outside())
    {
      InitLayout(size, slotSize, slotCount);
      InitCounters();
      SaveWord(CREATED_WORD, now);
      ClearTail();
    }

    method InitLayout(size: nat, slotSize: nat, slotCount: nat)
      requires Valid() && size < U64_MODULUS && slotSize < U64_MODULUS && slotCount < U64_MODULUS
      modifies mem
      ensures View() == old(View()).(magic := MAGIC, version := VERSION, size := size,
                                     slotSize := slotSize, slotCount := slotCount)
      ensures Outside() == old(Outside())
    {
      hide DecodeHeader;
      SaveWord(MAGIC_WORD, MAGIC);
      SaveWord(VERSION_WORD, VERSION);
      SaveWord(SIZE_WORD, size);
      SaveWord(SLOT_SIZE_WORD, slotSize);
      SaveWord(SLOT_COUNT_WORD, slotCount);
    }

    method InitCounters()
      requires Valid()
      modifies mem
      ensures View() == old(View()).(producerIdx := 0, consumerIdx := 0, activeProducers := 0, completed := 0)
      ensures Outside() == old(Outside())
    {
      hide DecodeHeader;
      SaveWord(PRODUCER_WORD, 0);
      SaveWord(CONSUMER_WORD, 0);
      SaveWord(ACTIVE_WORD, 0);
      SaveWord(COMPLETED_WORD, 0);
    }

    /** NUMA node 0 and the zeroed padding. */
    method ClearTail()
      requires Valid()
      modifies mem
      ensures View() == old(View()).(numaNode := 0)
      ensures Outside() == old(Outside())
    {
      ghost var before := mem[..];
      ghost var h := mem[..HEADER_SIZE];
      var zeros := seq(68, _ => 0);
      StoreBytes(mem, NODE_OFFSET, zeros);
      SpliceInside(before, NODE_OFFSET, zeros, 0, HEADER_SIZE);
      assert before[0..HEADER_SIZE] == h;
      TailCleared(h, zeros);
    }

    method Validate() returns (ok: bool)
      requires Valid()
      ensures ok == Validates(View())
    {
      hide DecodeHeader;
      var magic := LoadWord(MAGIC_WORD);
      if magic != MAGIC { return false; }
      var version := LoadWord(VERSION_WORD);
      if version != VERSION { return false; }
      var size := LoadWord(SIZE_WORD);
      if size <= HEADER_SIZE { return false; }
      var slotSize := LoadWord(SLOT_SIZE_WORD);
      if slotSize == 0 { return false; }
      var slotCount := LoadWord(SLOT_COUNT_WORD);
      return slotCount > 0;
    }

    /** The retry loop of `next_producer_idx` and `next_consumer_idx`. With nobody else running, the
        compare-exchange can only fail spuriously; it may do so any number of times. */
    method NextIndex(k: nat, spurious: nat) returns (current: nat)
      requires Valid() && k <= CREATED_WORD && k != SLOT_COUNT_WORD
      requires 0 < View().slotCount
      modifies mem
      ensures current == Field(old(View()), k)
      ensures View() == WithField(old(View()), k, (current + 1) % old(View()).slotCount)
      ensures Outside() == old(Outside())
    {
      hide DecodeHeader, WithField;
      current := LoadWord(k);
      var slotCount := LoadWord(SLOT_COUNT_WORD);
      var failures := spurious;
      while failures > 0
        invariant current == Field(View(), k)
        invariant mem[..] == old(mem[..])
      {
        current := LoadWord(k);
        failures := failures - 1;
      }
      assert mem[..HEADER_SIZE] == mem[..][..HEADER_SIZE] && mem[HEADER_SIZE..] == mem[..][HEADER_SIZE..];
      SaveWord(k, (current + 1) % slotCount);
    }

    /** `next_producer_idx`: returns the old index and moves it one place on, modulo the slot count. */
    method NextProducerIdx(spurious: nat) returns (current: nat)
      requires Valid() && 0 < View().slotCount
      modifies mem
      ensures current == old(View()).producerIdx
      ensures View() == old(View()).(producerIdx := (current + 1) % old(View()).slotCount)
      ensures Outside() == old(Outside())
    {
      current := NextIndex(PRODUCER_WORD, spurious);
    }

    method NextConsumerIdx(spurious: nat) returns (current: nat)
      requires Valid() && 0 < View().slotCount
      modifies mem
      ensures current == old(View()).consumerIdx
      ensures View() == old(View()).(consumerIdx := (current + 1) % old(View()).slotCount)
      ensures Outside() == old(Outside())
    {
      current := NextIndex(CONSUMER_WORD, spurious);
    }

    method IncrementCompleted()
      requires Valid()
      modifies mem
      ensures View() == old(View()).(completed := (old(View()).completed + 1) % U64_MODULUS)
      ensures Outside() == old(Outside())
    {
      hide DecodeHeader;
      var v := LoadWord(COMPLETED_WORD);
      SaveWord(COMPLETED_WORD, (v + 1) % U64_MODULUS);
    }

    method RegisterProducer()
      requires Valid()
      modifies mem
      ensures View() == old(View()).(activeProducers := (old(View()).activeProducers + 1) % U64_MODULUS)
      ensures Outside() == old(Outside())
    {
      hide DecodeHeader;
      var v := LoadWord(ACTIVE_WORD);
      SaveWord(ACTIVE_WORD, (v + 1) % U64_MODULUS);
    }
  }
}
