/** A slot of the mapped region: 64 bytes of metadata, then the payload area. */
module SlotMemory {
  import opened Common
  import opened Bytes
  import opened SequentialRing

  /** Size of the slot metadata, padded to a cache line. */
  const METADATA_SIZE: nat := 64

  // Offsets of the metadata fields from the start of the slot.
  const STATUS: nat := 0
  const OPERATION: nat := 4
  const SIZE: nat := 8
  const ID: nat := 16
  const TIMESTAMP: nat := 32

  // ---------- encodings ----------

  function EncodeStatus(s: SlotStatus): nat {
    match s
    case Empty => 0
    case Writing => 1
    case Ready => 2
    case Reading => 3
    case Complete => 4
  }

  /** Unknown status words count as Empty. */
  function DecodeStatus(w: nat): SlotStatus {
    match w
    case 1 => Writing
    case 2 => Ready
    case 3 => Reading
    case 4 => Complete
    case _ => Empty
  }

  function EncodeKind(k: OperationKind): nat {
    match k
    case NoOperation => 0
    case DiskWrite => 1
    case DiskRead => 2
    case NetworkSend => 3
    case NetworkReceive => 4
    case NetworkClose => 5
    case Custom => 100
  }

  /** Unknown operation words count as no operation. */
  function DecodeKind(w: nat): OperationKind {
    match w
    case 1 => DiskWrite
    case 2 => DiskRead
    case 3 => NetworkSend
    case 4 => NetworkReceive
    case 5 => NetworkClose
    case 100 => Custom
    case _ => NoOperation
  }

  /** One of the four words of an id, as `id()` turns it into bytes. */
  function IdWord(words: seq<byte>, j: nat): (s: seq<byte>)
    requires |words| == 16 && j < 4
    ensures |s| == 4
  {
    ToBE(FromLE(words[4 * j..4 * j + 4]), 4)
  }

  /** The id that four natively stored words denote. */
  function DecodeId(words: seq<byte>): (id: seq<byte>)
    requires |words| == 16
    ensures |id| == 16
  {
    IdWord(words, 0) + IdWord(words, 1) + IdWord(words, 2) + IdWord(words, 3)
  }

  /** The j-th word as `set_id` stores it. */
  function StoredWord(id: seq<byte>, j: nat): (s: seq<byte>)
    requires |id| == 16 && j < 4
    ensures |s| == 4
  {
    ToLE(FromBE(id[4 * j..4 * j + 4]), 4)
  }

  function EncodeId(id: seq<byte>): (words: seq<byte>)
    requires |id| == 16
    ensures |words| == 16
  {
    StoredWord(id, 0) + StoredWord(id, 1) + StoredWord(id, 2) + StoredWord(id, 3)
  }

  lemma WordOfEncodedId(id: seq<byte>, j: nat)
    requires |id| == 16 && j < 4
    ensures IdWord(EncodeId(id), j) == id[4 * j..4 * j + 4]
  {
    hide FromLE, ToLE, FromBE, ToBE, Reverse;
    assert EncodeId(id)[4 * j..4 * j + 4] == StoredWord(id, j);
    WordRoundTrip(id[4 * j..4 * j + 4]);
  }

  /** The 16 bytes of an id survive being stored as four big-endian words. */
  lemma IdRoundTrip(id: seq<byte>)
    requires |id| == 16
    ensures DecodeId(EncodeId(id)) == id
  {
    hide EncodeId, IdWord;
    WordOfEncodedId(id, 0);
    WordOfEncodedId(id, 1);
    WordOfEncodedId(id, 2);
    WordOfEncodedId(id, 3);
    assert id[0..4] + id[4..8] + id[8..12] + id[12..16] == id;
  }

  /** What the getters report about the bytes of a slot. */
  function DecodeSlot(s: seq<byte>): (r: SlotRecord)
    requires |s| >= METADATA_SIZE
    ensures |r.data| == |s| - METADATA_SIZE
  {
    SlotRecord(
      DecodeStatus(FromLE(s[STATUS..STATUS + 4])),
      DecodeKind(FromLE(s[OPERATION..OPERATION + 4])),
      FromLE(s[SIZE..SIZE + 8]),
      DecodeId(s[ID..ID + 16]),
      FromLE(s[TIMESTAMP..TIMESTAMP + 8]),
      s[METADATA_SIZE..])
  }

  // ---------- the bytes of a slot ----------

  /** The offsets are those of a `repr(C, align(64))` structure with a 4-byte status, a 4-byte operation, an
      8-byte size, four 4-byte id words, an 8-byte timestamp and two reserved 4-byte words. */
  lemma MetadataLayout()
    ensures STATUS == 0
    ensures FieldAt(OPERATION, STATUS + 4, 4)
    ensures FieldAt(SIZE, OPERATION + 4, 8)
    ensures FieldAt(ID, SIZE + 8, 4)
    ensures FieldAt(TIMESTAMP, ID + 4 * 4, 8)
    ensures FieldAt(METADATA_SIZE, TIMESTAMP + 8 + 2 * 4, 64)
  {
  }

  /** Which bytes stand for which status, kind, size, id, time and payload. */
  lemma SlotBytesMean(s: seq<byte>)
    requires |s| >= 64
    ensures DecodeSlot(s).status == Writing <==> s[0..4] == [1, 0, 0, 0]
    ensures DecodeSlot(s).status == Ready <==> s[0..4] == [2, 0, 0, 0]
    ensures DecodeSlot(s).status == Reading <==> s[0..4] == [3, 0, 0, 0]
    ensures DecodeSlot(s).status == Complete <==> s[0..4] == [4, 0, 0, 0]
    ensures DecodeSlot(s).kind == DiskWrite <==> s[4..8] == [1, 0, 0, 0]
    ensures DecodeSlot(s).kind == DiskRead <==> s[4..8] == [2, 0, 0, 0]
    ensures DecodeSlot(s).kind == NetworkSend <==> s[4..8] == [3, 0, 0, 0]
    ensures DecodeSlot(s).kind == NetworkReceive <==> s[4..8] == [4, 0, 0, 0]
    ensures DecodeSlot(s).kind == NetworkClose <==> s[4..8] == [5, 0, 0, 0]
    ensures DecodeSlot(s).kind == Custom <==> s[4..8] == [100, 0, 0, 0]
    ensures DecodeSlot(s).size == FromLE(s[8..12]) + 0x1_0000_0000 * FromLE(s[12..16])
    ensures DecodeSlot(s).id == Reverse(s[16..20]) + Reverse(s[20..24]) + Reverse(s[24..28]) + Reverse(s[28..32])
    ensures DecodeSlot(s).timestamp == FromLE(s[32..36]) + 0x1_0000_0000 * FromLE(s[36..40])
    ensures DecodeSlot(s).data == s[64..]
  {
    hide DecodeStatus, DecodeKind, FromLE, DecodeId, Reverse;
    StatusBytesMean(s[0..4]);
    KindBytesMean(s[4..8]);
    NumberBytesMean(s, 8);
    NumberBytesMean(s, 32);
    IdBytesMean(s, s[16..32]);
  }

  lemma StatusBytesMean(b: seq<byte>)
    requires |b| == 4
    ensures DecodeStatus(FromLE(b)) == Writing <==> b == [1, 0, 0, 0]
    ensures DecodeStatus(FromLE(b)) == Ready <==> b == [2, 0, 0, 0]
    ensures DecodeStatus(FromLE(b)) == Reading <==> b == [3, 0, 0, 0]
    ensures DecodeStatus(FromLE(b)) == Complete <==> b == [4, 0, 0, 0]
  {
    SmallWord(b, 1);
    SmallWord(b, 2);
    SmallWord(b, 3);
    SmallWord(b, 4);
  }

  lemma KindBytesMean(b: seq<byte>)
    requires |b| == 4
    ensures DecodeKind(FromLE(b)) == DiskWrite <==> b == [1, 0, 0, 0]
    ensures DecodeKind(FromLE(b)) == DiskRead <==> b == [2, 0, 0, 0]
    ensures DecodeKind(FromLE(b)) == NetworkSend <==> b == [3, 0, 0, 0]
    ensures DecodeKind(FromLE(b)) == NetworkReceive <==> b == [4, 0, 0, 0]
    ensures DecodeKind(FromLE(b)) == NetworkClose <==> b == [5, 0, 0, 0]
    ensures DecodeKind(FromLE(b)) == Custom <==> b == [100, 0, 0, 0]
  {
    SmallWord(b, 1);
    SmallWord(b, 2);
    SmallWord(b, 3);
    SmallWord(b, 4);
    SmallWord(b, 5);
    SmallWord(b, 100);
  }

  /** The bytes of an id stand in each of the four native words in reverse. */
  lemma IdBytesMean(s: seq<byte>, words: seq<byte>)
    requires |s| >= 64 && words == s[16..32]
    ensures DecodeId(words) == Reverse(s[16..20]) + Reverse(s[20..24]) + Reverse(s[24..28]) + Reverse(s[28..32])
  {
    SliceOfSlice(s, 0, 4);
    SliceOfSlice(s, 4, 8);
    SliceOfSlice(s, 8, 12);
    SliceOfSlice(s, 12, 16);
    IdWordReverses(words, 0);
    IdWordReverses(words, 1);
    IdWordReverses(words, 2);
    IdWordReverses(words, 3);
    hide IdWord, Reverse;
  }

  lemma NumberBytesMean(s: seq<byte>, off: nat)
    requires off + 8 <= |s|
    ensures FromLE(s[off..off + 8]) == FromLE(s[off..off + 4]) + 0x1_0000_0000 * FromLE(s[off + 4..off + 8])
  {
    var b := s[off..off + 8];
    EightBytes(b);
    assert b[..4] == s[off..off + 4] && b[4..] == s[off + 4..off + 8];
  }

  lemma SliceOfSlice(s: seq<byte>, lo: nat, hi: nat)
    requires |s| >= 64 && lo <= hi <= 16
    ensures s[16..32][lo..hi] == s[16 + lo..16 + hi]
  {
    var words := s[16..32];
    assert forall k :: lo <= k < hi ==> words[k] == s[16 + k];
    assert words[lo..hi] == s[16 + lo..16 + hi];
  }

  lemma IdWordReverses(words: seq<byte>, j: nat)
    requires |words| == 16 && j < 4
    ensures IdWord(words, j) == Reverse(words[4 * j..4 * j + 4])
  {
    ToFromLE(words[4 * j..4 * j + 4]);
  }

  /** The four bytes that `set_status` stores. */
  lemma StatusOnTheWire()
    ensures ToLE(EncodeStatus(Empty), 4) == [0, 0, 0, 0]
    ensures ToLE(EncodeStatus(Writing), 4) == [1, 0, 0, 0]
    ensures ToLE(EncodeStatus(Ready), 4) == [2, 0, 0, 0]
    ensures ToLE(EncodeStatus(Reading), 4) == [3, 0, 0, 0]
    ensures ToLE(EncodeStatus(Complete), 4) == [4, 0, 0, 0]
  {
    SmallWord([0, 0, 0, 0], 0);
    SmallWord([1, 0, 0, 0], 1);
    SmallWord([2, 0, 0, 0], 2);
    SmallWord([3, 0, 0, 0], 3);
    SmallWord([4, 0, 0, 0], 4);
  }

  /** The four bytes that `set_operation` stores. */
  lemma KindOnTheWire()
    ensures ToLE(EncodeKind(NoOperation), 4) == [0, 0, 0, 0]
    ensures ToLE(EncodeKind(DiskWrite), 4) == [1, 0, 0, 0]
    ensures ToLE(EncodeKind(DiskRead), 4) == [2, 0, 0, 0]
    ensures ToLE(EncodeKind(NetworkSend), 4) == [3, 0, 0, 0]
    ensures ToLE(EncodeKind(NetworkReceive), 4) == [4, 0, 0, 0]
    ensures ToLE(EncodeKind(NetworkClose), 4) == [5, 0, 0, 0]
    ensures ToLE(EncodeKind(Custom), 4) == [100, 0, 0, 0]
  {
    SmallWord([0, 0, 0, 0], 0);
    SmallWord([1, 0, 0, 0], 1);
    SmallWord([2, 0, 0, 0], 2);
    SmallWord([3, 0, 0, 0], 3);
    SmallWord([4, 0, 0, 0], 4);
    SmallWord([5, 0, 0, 0], 5);
    SmallWord([100, 0, 0, 0], 100);
  }

  // ---------- stores seen through the getters ----------

  lemma StatusStored(s: seq<byte>, st: SlotStatus)
    requires |s| >= METADATA_SIZE
    ensures DecodeSlot(Splice(s, STATUS, ToLE(EncodeStatus(st), 4))) == DecodeSlot(s).(status := st)
  {
    var b := ToLE(EncodeStatus(st), 4);
    WordSizes();
    FromToLE(EncodeStatus(st), 4);
    SpliceReadsBack(s, STATUS, b);
    SpliceLeavesAlone(s, STATUS, b, OPERATION, OPERATION + 4);
    SpliceLeavesAlone(s, STATUS, b, SIZE, SIZE + 8);
    SpliceLeavesAlone(s, STATUS, b, ID, ID + 16);
    SpliceLeavesAlone(s, STATUS, b, TIMESTAMP, TIMESTAMP + 8);
    SpliceLeavesAlone(s, STATUS, b, METADATA_SIZE, |s|);
  }

  lemma KindStored(s: seq<byte>, k: OperationKind)
    requires |s| >= METADATA_SIZE
    ensures DecodeSlot(Splice(s, OPERATION, ToLE(EncodeKind(k), 4))) == DecodeSlot(s).(kind := k)
  {
    var b := ToLE(EncodeKind(k), 4);
    WordSizes();
    FromToLE(EncodeKind(k), 4);
    SpliceReadsBack(s, OPERATION, b);
    SpliceLeavesAlone(s, OPERATION, b, STATUS, STATUS + 4);
    SpliceLeavesAlone(s, OPERATION, b, SIZE, SIZE + 8);
    SpliceLeavesAlone(s, OPERATION, b, ID, ID + 16);
    SpliceLeavesAlone(s, OPERATION, b, TIMESTAMP, TIMESTAMP + 8);
    SpliceLeavesAlone(s, OPERATION, b, METADATA_SIZE, |s|);
  }

  lemma SizeStored(s: seq<byte>, v: nat)
    requires |s| >= METADATA_SIZE && v < U64_MODULUS
    ensures DecodeSlot(Splice(s, SIZE, ToLE(v, 8))) == DecodeSlot(s).(size := v)
  {
    var b := ToLE(v, 8);
    WordSizes();
    FromToLE(v, 8);
    SpliceReadsBack(s, SIZE, b);
    SpliceLeavesAlone(s, SIZE, b, STATUS, STATUS + 4);
    SpliceLeavesAlone(s, SIZE, b, OPERATION, OPERATION + 4);
    SpliceLeavesAlone(s, SIZE, b, ID, ID + 16);
    SpliceLeavesAlone(s, SIZE, b, TIMESTAMP, TIMESTAMP + 8);
    SpliceLeavesAlone(s, SIZE, b, METADATA_SIZE, |s|);
  }

  lemma TimestampStored(s: seq<byte>, v: nat)
    requires |s| >= METADATA_SIZE && v < U64_MODULUS
    ensures DecodeSlot(Splice(s, TIMESTAMP, ToLE(v, 8))) == DecodeSlot(s).(timestamp := v)
  {
    var b := ToLE(v, 8);
    WordSizes();
    FromToLE(v, 8);
    SpliceReadsBack(s, TIMESTAMP, b);
    SpliceLeavesAlone(s, TIMESTAMP, b, STATUS, STATUS + 4);
    SpliceLeavesAlone(s, TIMESTAMP, b, OPERATION, OPERATION + 4);
    SpliceLeavesAlone(s, TIMESTAMP, b, SIZE, SIZE + 8);
    SpliceLeavesAlone(s, TIMESTAMP, b, ID, ID + 16);
    SpliceLeavesAlone(s, TIMESTAMP, b, METADATA_SIZE, |s|);
  }

  /** The four stores of `set_id`, one after the other. */
  lemma IdStored(s: seq<byte>, id: seq<byte>)
    requires |s| >= METADATA_SIZE && |id| == 16
    ensures var s0 := Splice(s, ID, StoredWord(id, 0));
            var s1 := Splice(s0, ID + 4, StoredWord(id, 1));
            var s2 := Splice(s1, ID + 8, StoredWord(id, 2));
            var s3 := Splice(s2, ID + 12, StoredWord(id, 3));
            s3 == Splice(s, ID, EncodeId(id)) && DecodeSlot(s3) == DecodeSlot(s).(id := id)
  {
    var b := EncodeId(id);
    var s0 := Splice(s, ID, StoredWord(id, 0));
    var s1 := Splice(s0, ID + 4, StoredWord(id, 1));
    var s2 := Splice(s1, ID + 8, StoredWord(id, 2));
    SpliceTwice(s, ID, StoredWord(id, 0), StoredWord(id, 1));
    SpliceTwice(s, ID, StoredWord(id, 0) + StoredWord(id, 1), StoredWord(id, 2));
    SpliceTwice(s, ID, StoredWord(id, 0) + StoredWord(id, 1) + StoredWord(id, 2), StoredWord(id, 3));
    IdRoundTrip(id);
    SpliceReadsBack(s, ID, b);
    SpliceLeavesAlone(s, ID, b, STATUS, STATUS + 4);
    SpliceLeavesAlone(s, ID, b, OPERATION, OPERATION + 4);
    SpliceLeavesAlone(s, ID, b, SIZE, SIZE + 8);
    SpliceLeavesAlone(s, ID, b, TIMESTAMP, TIMESTAMP + 8);
    SpliceLeavesAlone(s, ID, b, METADATA_SIZE, |s|);
  }

  lemma PayloadStored(s: seq<byte>, data: seq<byte>)
    requires METADATA_SIZE + |data| <= |s|
    ensures DecodeSlot(Splice(s, METADATA_SIZE, data)) ==
            DecodeSlot(s).(data := data + DecodeSlot(s).data[|data|..])
  {
    SpliceLeavesAlone(s, METADATA_SIZE, data, STATUS, STATUS + 4);
    SpliceLeavesAlone(s, METADATA_SIZE, data, OPERATION, OPERATION + 4);
    SpliceLeavesAlone(s, METADATA_SIZE, data, SIZE, SIZE + 8);
    SpliceLeavesAlone(s, METADATA_SIZE, data, ID, ID + 16);
    SpliceLeavesAlone(s, METADATA_SIZE, data, TIMESTAMP, TIMESTAMP + 8);
    assert Splice(s, METADATA_SIZE, data)[METADATA_SIZE..] == data + s[METADATA_SIZE..][|data|..];
  }

  // ---------- the slot itself ----------

  /** Pointers into the mapped region, as `Slot::from_ptr` computes them. */
  datatype Slot = Slot(mem: array<byte>, base: nat, dataSize: nat) {

    ghost predicate Valid() {
      base + METADATA_SIZE + dataSize <= mem.Length < U64_MODULUS
    }

    function End(): nat {
      base + METADATA_SIZE + dataSize
    }

    ghost function View(): SlotRecord
      requires Valid()
      reads mem
    {
      DecodeSlot(mem[base..End()])
    }

    /** All bytes before and after the slot. */
    ghost function Outside(): (seq<byte>, seq<byte>)
      requires Valid()
      reads mem
    {
      (mem[..base], mem[End()..])
    }

    /** A store into this slot. */
    method Store(off: nat, b: seq<byte>)
      requires Valid() && off + |b| <= METADATA_SIZE + dataSize
      modifies mem
      ensures mem[base..End()] == Splice(old(mem[base..End()]), off, b)
      ensures Outside() == old(Outside())
    {
      ghost var before := mem[..];
      StoreBytes(mem, base + off, b);
      SpliceInside(before, base + off, b, base, End());
      assert before[base..End()] == old(mem[base..End()]);
    }

    method Status() returns (s: SlotStatus)
      requires Valid()
      ensures s == View().status
    {
      s := DecodeStatus(FromLE(mem[base..End()][STATUS..STATUS + 4]));
    }

    method SetStatus(s: SlotStatus)
      requires Valid()
      modifies mem
      ensures View() == old(View()).(status := s) && Outside() == old(Outside())
    {
      StatusStored(mem[base..End()], s);
      Store(STATUS, ToLE(EncodeStatus(s), 4));
    }

    method Operation() returns (k: OperationKind)
      requires Valid()
      ensures k == View().kind
    {
      k := DecodeKind(FromLE(mem[base..End()][OPERATION..OPERATION + 4]));
    }

    method SetOperation(k: OperationKind)
      requires Valid()
      modifies mem
      ensures View() == old(View()).(kind := k) && Outside() == old(Outside())
    {
      KindStored(mem[base..End()], k);
      Store(OPERATION, ToLE(EncodeKind(k), 4));
    }

    method Size() returns (v: nat)
      requires Valid()
      ensures v == View().size
    {
      v := FromLE(mem[base..End()][SIZE..SIZE + 8]);
    }

    method SetSize(v: nat)
      requires Valid() && v < U64_MODULUS
      modifies mem
      ensures View() == old(View()).(size := v) && Outside() == old(Outside())
    {
      SizeStored(mem[base..End()], v);
      Store(SIZE, ToLE(v, 8));
    }

    /** `id()`: the four words, each turned into big-endian bytes. */
    method Id() returns (id: seq<byte>)
      requires Valid()
      ensures id == View().id
    {
      var words := mem[base..End()][ID..ID + 16];
      id := IdWord(words, 0) + IdWord(words, 1) + IdWord(words, 2) + IdWord(words, 3);
    }

    method SetId(id: seq<byte>)
      requires Valid() && |id| == 16
      modifies mem
      ensures View() == old(View()).(id := id) && Outside() == old(Outside())
    {
      IdStored(mem[base..End()], id);
      Store(ID, StoredWord(id, 0));
      Store(ID + 4, StoredWord(id, 1));
      Store(ID + 8, StoredWord(id, 2));
      Store(ID + 12, StoredWord(id, 3));
    }

    method SetTimestamp(v: nat)
      requires Valid() && v < U64_MODULUS
      modifies mem
      ensures View() == old(View()).(timestamp := v) && Outside() == old(Outside())
    {
      TimestampStored(mem[base..End()], v);
      Store(TIMESTAMP, ToLE(v, 8));
    }

    method Timestamp() returns (v: nat)
      requires Valid()
      ensures v == View().timestamp
    {
      v := FromLE(mem[base..End()][TIMESTAMP..TIMESTAMP + 8]);
    }

    method CopyIn(data: seq<byte>)
      requires Valid() && |data| <= dataSize
      modifies mem
      ensures View() == old(View()).(data := data + old(View()).data[|data|..]) && Outside() == old(Outside())
    {
      PayloadStored(mem[base..End()], data);
      Store(METADATA_SIZE, data);
    }

    /** `write_data`: rejects oversized data untouched; otherwise Writing, size, timestamp, bytes, Ready. */
    method WriteData(data: seq<byte>, now: nat) returns (ok: bool)
      requires Valid() && now < U64_MODULUS
      modifies mem
      ensures ok == (|data| <= dataSize)
      ensures Outside() == old(Outside())
      ensures ok ==> View() == old(View()).(status := Ready, size := |data|, timestamp := now,
                                            data := data + old(View()).data[|data|..])
      ensures !ok ==> mem[..] == old(mem[..])
    {
      if |data| > dataSize {
        return false;
      }
      SetStatus(Writing);
      SetSize(|data|);
      SetTimestamp(now);
      CopyIn(data);
      SetStatus(Ready);
      ok := true;
    }

    /** `read_data`: only a Ready slot with a plausible size is read; it ends Complete. */
    method ReadData() returns (r: Option<seq<byte>>)
      requires Valid()
      modifies mem
      ensures Outside() == old(Outside())
      ensures r == (if old(View()).status.Ready? && old(View()).size <= dataSize
                    then Some(old(View()).data[..old(View()).size]) else None)
      ensures View() == if old(View()).status.Ready? then old(View()).(status := Complete) else old(View())
    {
      var status := Status();
      if status != Ready {
        return None;
      }
      SetStatus(Reading);
      var size := Size();
      if size > dataSize {
        SetStatus(Complete);
        return None;
      }
      var buffer := mem[base..End()][METADATA_SIZE..][..size];
      SetStatus(Complete);
      r := Some(buffer);
    }

    /** `reset`: back to an empty slot; the payload bytes stay. */
    method Reset()
      requires Valid()
      modifies mem
      ensures View() == SlotRecord(Empty, NoOperation, 0, NIL_ID, 0, old(View()).data) && Outside() == old(Outside())
    {
      SetStatus(Empty);
      SetOperation(NoOperation);
      SetSize(0);
      SetId(NIL_ID);
      SetTimestamp(0);
    }
  }

  /** Writing a kind, an id and a payload into a slot and reading the slot back. Kind, id and bytes
      come back unchanged, the slot ends Complete, and no byte outside it was touched. */
  method SlotRoundTrip(slot: Slot, m: Message, id: seq<byte>, now: nat)
    returns (kind: OperationKind, readId: seq<byte>, data: Option<seq<byte>>)
    requires slot.Valid() && |m.data| <= slot.dataSize && |id| == 16 && now < U64_MODULUS
    modifies slot.mem
    ensures kind == m.kind && readId == id && data == Some(m.data)
    ensures slot.View().status == Complete && slot.Outside() == old(slot.Outside())
  {
    slot.SetOperation(m.kind);
    slot.SetId(id);
    var ok := slot.WriteData(m.data, now);
    kind := slot.Operation();
    readId := slot.Id();
    data := slot.ReadData();
  }
}
