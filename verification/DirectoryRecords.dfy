/**
 Directory records of 32 bytes: where their fields lie, how they are read and
 how they are set within the buffer of a sector.
 */
module DirectoryRecords {
  import opened Types
  import opened FatTable
  import opened FatVolume

  type Record = r: seq<byte> | |r| == 32 witness seq(32, _ => 0)

  type Name = n: seq<byte> | |n| == 11 witness seq(11, _ => 0)

  // ----- the fields

  function NameOf(r: Record): Name { r[..11] }

  function AttributeOf(r: Record): byte { r[11] }

  predicate IsLongName(r: Record) { AttributeOf(r) % 16 == 15 }

  /** As a file takes it from its record: two halves, the higher one first. */
  function FirstClusterOf(r: Record): nat {
    Unpack16(r[20], r[21]) * 0x1_0000 + Unpack16(r[26], r[27])
  }

  function SizeOf(r: Record): nat { Unpack32(r[28], r[29], r[30], r[31]) }

  /** First cluster of a record as a search gives it; never 0, as that would mean "not found". */
  function FoundCluster(r: Record): (c: nat)
    ensures c != 0
  {
    var c := FirstClusterOf(r);
    if c == 0 then 1 else c
  }

  /** Record c of a sector. */
  function RecordIn(s: Sector, c: nat): Record
    requires c < 16
  {
    s[32 * c..32 * c + 32]
  }

  // ----- setting them

  /** The record with bytes stored from `at` on. */
  function Poked(r: Record, at: nat, x: seq<byte>): Record
    requires at + |x| <= 32
  {
    r[..at] + x + r[at + |x|..]
  }

  function WithFirstCluster(r: Record, c: nat): Record {
    Poked(Poked(r, 20, Little16(c / 0x1_0000)), 26, Little16(c))
  }

  function WithSize(r: Record, n: nat): Record { Poked(r, 28, Little32(n)) }

  /** The fields in the order in which a record lists them. */
  datatype FileRecord = FileRecord(
    fileName: Name, attribute: byte, ntReserved: byte, milliSecTimeStamp: byte,
    createdTime: nat, createdDate: nat, accessDate: nat, firstClusterHigh: nat,
    writeTime: nat, writeDate: nat, firstClusterLow: nat, fileSize: nat)

  function Encoded(f: FileRecord): Record {
    f.fileName + [f.attribute, f.ntReserved, f.milliSecTimeStamp]
      + Little16(f.createdTime) + Little16(f.createdDate) + Little16(f.accessDate) + Little16(f.firstClusterHigh)
      + Little16(f.writeTime) + Little16(f.writeDate) + Little16(f.firstClusterLow) + Little32(f.fileSize)
  }

  datatype Stamp = Stamp(time: nat, date: nat)

  /** An empty file of that name. */
  function DefaultEntry(name: Name, stamp: Stamp): Record {
    Encoded(FileRecord(name, 0, 0, 0, stamp.time, stamp.date, stamp.date, 0, stamp.time, stamp.date, 0, 0))
  }

  /** A record as deleting a file leaves it. */
  function MarkedDeleted(r: Record): Record { r[0 := 0xE5] }

  /** Every place read or written is that of a field in the list. */
  lemma EncodedFields(f: FileRecord)
    requires f.firstClusterHigh < 0x1_0000 && f.firstClusterLow < 0x1_0000 && f.fileSize < TWO_TO_THE_32
    ensures NameOf(Encoded(f)) == f.fileName && AttributeOf(Encoded(f)) == f.attribute && SizeOf(Encoded(f)) == f.fileSize
    ensures FirstClusterOf(Encoded(f)) == f.firstClusterHigh * 0x1_0000 + f.firstClusterLow
    ensures DefaultEntry(f.fileName, Stamp(f.writeTime, f.writeDate)) ==
      Encoded(f.(attribute := 0, ntReserved := 0, milliSecTimeStamp := 0, createdTime := f.writeTime, createdDate := f.writeDate,
                 accessDate := f.writeDate, firstClusterHigh := 0, firstClusterLow := 0, fileSize := 0))
  {
    hide Encoded, Unpack16, Unpack32, Little16, Little32;
    EncodedBytes(f);
    LittleReadsBack(f.fileSize);
    Little16ReadsBack(f.firstClusterHigh);
    Little16ReadsBack(f.firstClusterLow);
  }

  lemma EncodedBytes(f: FileRecord)
    ensures var r, high, low, size := Encoded(f), Little16(f.firstClusterHigh), Little16(f.firstClusterLow), Little32(f.fileSize);
      && NameOf(r) == f.fileName && AttributeOf(r) == f.attribute && r[20] == high[0] && r[21] == high[1]
      && r[26] == low[0] && r[27] == low[1] && r[28] == size[0] && r[29] == size[1] && r[30] == size[2] && r[31] == size[3]
  {
    hide Little16, Little32;
    assert NameOf(Encoded(f)) == f.fileName;
  }

  lemma PokedAt(r: Record, at: nat, x: seq<byte>, i: nat)
    requires at + |x| <= 32 && i < 32
    ensures Poked(r, at, x)[i] == if at <= i < at + |x| then x[i - at] else r[i]
  {}

  /** Every byte outside the two halves stays, and the halves read as the number set. */
  lemma FirstClusterReadsBack(r: Record, c: nat)
    requires c < TWO_TO_THE_32
    ensures FirstClusterOf(WithFirstCluster(r, c)) == c
    ensures FoundCluster(WithFirstCluster(r, c)) == c <==> c != 0
    ensures forall i | 0 <= i < 32 && i !in {20, 21, 26, 27} :: WithFirstCluster(r, c)[i] == r[i]
  {
    var h := c / 0x1_0000;
    assert h % 256 + 256 * (h / 256 % 256) == h;
    assert c % 256 + 256 * (c / 256 % 256) == c % 0x1_0000;
  }

  /** The size reads back, and every other byte stays. */
  lemma SizeReadsBack(r: Record, n: nat)
    requires n < TWO_TO_THE_32
    ensures SizeOf(WithSize(r, n)) == n
    ensures forall i | 0 <= i < 28 :: WithSize(r, n)[i] == r[i]
  {
    LittleReadsBack(n);
  }

  /** Name, attribute, first cluster and size are set independently of each other. */
  lemma FieldsAreApart(r: Record, c: nat, n: nat)
    requires c < TWO_TO_THE_32 && n < TWO_TO_THE_32
    ensures var r1 := WithFirstCluster(r, c); NameOf(r1) == NameOf(r) && AttributeOf(r1) == AttributeOf(r) && SizeOf(r1) == SizeOf(r)
    ensures var r2 := WithSize(r, n); NameOf(r2) == NameOf(r) && AttributeOf(r2) == AttributeOf(r) && FirstClusterOf(r2) == FirstClusterOf(r)
  {
    hide Unpack16, Unpack32;
    FirstClusterReadsBack(r, c);
    SizeReadsBack(r, n);
  }

  lemma DefaultIsEmptyFile(name: Name, stamp: Stamp)
    ensures var r := DefaultEntry(name, stamp); NameOf(r) == name && AttributeOf(r) == 0 && !IsLongName(r) && FirstClusterOf(r) == 0 && SizeOf(r) == 0
  {}

  // ----- within the buffer of a sector

  lemma OverwrittenRecord(s: Sector, o: nat, rec: Record, c: nat)
    requires o < 16 && c < 16
    ensures RecordIn(Overwritten(s, 32 * o, rec), c) == if c == o then rec else RecordIn(s, c)
  {
    var lhs, rhs := RecordIn(Overwritten(s, 32 * o, rec), c), if c == o then rec else RecordIn(s, c);
    forall i | 0 <= i < 32 ensures lhs[i] == rhs[i] {
      OverwrittenAt(s, 32 * o, rec, 32 * c + i);
    }
  }

  /** Storing the two halves of the first cluster in a buffer sets that field of one record. */
  lemma FirstClusterStored(s: Sector, o: nat, c: nat)
    requires o < 16
    ensures var s1 := Overwritten(s, 32 * o + 20, Little16(c / 0x1_0000));
      Overwritten(s1, 32 * o + 26, Little16(c)) == Overwritten(s, 32 * o, WithFirstCluster(RecordIn(s, o), c))
  {
    hide Little16, WithFirstCluster;
    var s1 := Overwritten(s, 32 * o + 20, Little16(c / 0x1_0000));
    var r := WithFirstCluster(RecordIn(s, o), c);
    var lhs, rhs := Overwritten(s1, 32 * o + 26, Little16(c)), Overwritten(s, 32 * o, r);
    forall i: nat | i < 512 ensures lhs[i] == rhs[i] {
      OverwrittenAt(s, 32 * o + 20, Little16(c / 0x1_0000), i);
      OverwrittenAt(s1, 32 * o + 26, Little16(c), i);
      OverwrittenAt(s, 32 * o, r, i);
      if 32 * o <= i < 32 * o + 32 { FirstClusterBytes(RecordIn(s, o), c, i - 32 * o); }
    }
  }

  lemma FirstClusterBytes(r: Record, c: nat, i: nat)
    requires i < 32
    ensures WithFirstCluster(r, c)[i] ==
      if 20 <= i < 22 then Little16(c / 0x1_0000)[i - 20] else if 26 <= i < 28 then Little16(c)[i - 26] else r[i]
  {}

  /** Storing the size in a buffer sets that field of one record. */
  lemma SizeStored(s: Sector, o: nat, n: nat)
    requires o < 16
    ensures Overwritten(s, 32 * o + 28, Little32(n)) == Overwritten(s, 32 * o, WithSize(RecordIn(s, o), n))
  {}

  /** Record o reads as being of that size, and no other byte of the sector is changed. */
  predicate SizeRecorded(was: Sector, now: Sector, o: nat, n: nat)
    requires o < 16
  {
    SizeOf(RecordIn(now, o)) == n && forall i | 0 <= i < 512 && !(32 * o + 28 <= i < 32 * o + 32) :: now[i] == was[i]
  }

  lemma StoredIsRecorded(was: Sector, o: nat, n: nat)
    requires o < 16 && n < TWO_TO_THE_32
    ensures SizeRecorded(was, Overwritten(was, 32 * o + 28, Little32(n)), o, n)
  {
    LittleReadsBack(n);
  }

  /** So the record keeps its name, its attribute and its first cluster, and the other records keep everything. */
  lemma RecordedKeeps(was: Sector, now: Sector, o: nat, n: nat)
    requires o < 16 && SizeRecorded(was, now, o, n)
    ensures var r, r' := RecordIn(was, o), RecordIn(now, o);
      NameOf(r') == NameOf(r) && AttributeOf(r') == AttributeOf(r) && FirstClusterOf(r') == FirstClusterOf(r)
    ensures forall c | 0 <= c < 16 && c != o :: RecordIn(now, c) == RecordIn(was, c)
  {
    hide Unpack16, Unpack32;
    var r, r' := RecordIn(was, o), RecordIn(now, o);
    forall i | 0 <= i < 28 ensures r'[i] == r[i] {
      assert now[32 * o + i] == was[32 * o + i];
    }
    forall c: nat | c < 16 && c != o ensures RecordIn(now, c) == RecordIn(was, c) {
      assert forall i | 32 * c <= i < 32 * c + 32 :: now[i] == was[i];
    }
  }
}
