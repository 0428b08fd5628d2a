/**
 The allocation table as it lies on disc: entries of 12, 16 or 32 bits packed
 into the sectors that follow the reserved area.
 */
module FatTable {
  import opened Types

  datatype FatType = FAT12 | FAT16 | FAT32

  /** The mounted geometry: the volume id fields and the counts derived from them. */
  datatype FileSystem = FileSystem(
    kind: FatType,
    sectorsPerCluster: nat,
    reservedSectorCount: nat,
    numberOfFats: nat,
    rootEntryCount: nat,
    fatSectorCount: nat,
    dataClusterCount: nat)

  // ----- the position of an entry, as fat.c computes it

  /** Index, within the table, of the sector holding the (first byte of the) entry of cluster c. */
  function SectorIndex(kind: FatType, c: nat): nat {
    match kind
    case FAT12 => c * 3 / 1024
    case FAT16 => c / 256
    case FAT32 => c / 128
  }

  /** Sector of the entry of cluster c, or 0 when the table is too short for it. */
  function SectorAddress(fs: FileSystem, c: nat): nat {
    var res := SectorIndex(fs.kind, c);
    if res >= fs.fatSectorCount then 0 else fs.reservedSectorCount + res
  }

  /** Byte offset of a FAT12 entry within its sector. */
  function Fat12Offset(c: nat): (offset: nat)
    ensures offset < 512
  {
    (c % 1024 * 3 / 2) % 512
  }

  // ----- end-of-chain markers

  function EocMarker(kind: FatType): nat {
    match kind
    case FAT12 => 0xFFF
    case FAT16 => 0xFFFF
    case FAT32 => 0x0FFF_FFFF
  }

  function LeastEoc(kind: FatType): nat {
    match kind
    case FAT12 => 0xFF8
    case FAT16 => 0xFFF8
    case FAT32 => 0x0FFF_FFF8
  }

  predicate IsEoc(kind: FatType, v: nat) {
    match kind
    case FAT12 => v >= 0xFF8
    case FAT16 => v >= 0xFFF8
    case FAT32 => v % 0x1000_0000 >= 0x0FFF_FFF8
  }

  /** The marker given is the highest value of an entry's 12, 16 or 28 bits, and it and the seven below it end a chain. */
  lemma EndMarkers(kind: FatType, v: nat)
    requires match kind case FAT12 => v < 0x1000 case FAT16 => v < 0x1_0000 case FAT32 => v < 0x1_0000_0000
    ensures var value := if kind == FAT32 then v % 0x1000_0000 else v;
      value <= EocMarker(kind) && (IsEoc(kind, v) <==> value + 7 >= EocMarker(kind))
    ensures LeastEoc(kind) + 7 == EocMarker(kind)
  {}

  // ----- the reference: a byte array with packed little-endian entries

  /** First byte of the entry of cluster c, counted from the start of the table. */
  function EntryOffset(kind: FatType, c: nat): nat {
    match kind
    case FAT12 => c + c / 2
    case FAT16 => 2 * c
    case FAT32 => 4 * c
  }

  /** A table of the given length has room for the entry of cluster c. */
  predicate Fits(kind: FatType, length: nat, c: nat) {
    EntryOffset(kind, c) + (if kind == FAT32 then 4 else 2) <= length
  }

  function Unpack12(odd: bool, b0: byte, b1: byte): nat {
    if odd then b0 / 16 + 16 * b1 else b0 + 256 * (b1 % 16)
  }

  /** The first byte once a 12-bit value is packed into it; the neighbour's nibble stays. */
  function PackFirst12(odd: bool, b0: byte, v: nat): byte {
    if odd then b0 % 16 + 16 * (v % 16) else v % 256
  }

  /** The second byte once a 12-bit value is packed into it. */
  function PackSecond12(odd: bool, b1: byte, v: nat): byte {
    if odd then v / 16 % 256 else v / 256 % 16 + 16 * (b1 / 16)
  }

  function Unpack16(b0: byte, b1: byte): nat { b0 + 256 * b1 }

  function Unpack32(b0: byte, b1: byte, b2: byte, b3: byte): nat {
    b0 + 256 * b1 + 0x1_0000 * b2 + 0x100_0000 * b3
  }

  /** Little-endian bytes of the low 16 and 32 bits. */
  function Little16(v: nat): (r: seq<byte>)
    ensures |r| == 2
  { [v % 256, v / 256 % 256] }

  function Little32(v: nat): (r: seq<byte>)
    ensures |r| == 4
  { [v % 256, v / 256 % 256, v / 0x1_0000 % 256, v / 0x100_0000 % 256] }

  /** The value of the entry of cluster c. */
  function Entry(kind: FatType, bytes: seq<byte>, c: nat): nat
    requires Fits(kind, |bytes|, c)
  {
    var k := EntryOffset(kind, c);
    match kind
    case FAT12 => Unpack12(c % 2 == 1, bytes[k], bytes[k + 1])
    case FAT16 => Unpack16(bytes[k], bytes[k + 1])
    case FAT32 => Unpack32(bytes[k], bytes[k + 1], bytes[k + 2], bytes[k + 3])
  }

  /** What an entry keeps of a value: its low 12, 16 or 32 bits. */
  function Stored(kind: FatType, v: nat): nat {
    match kind
    case FAT12 => v % 0x1000
    case FAT16 => v % 0x1_0000
    case FAT32 => v % 0x1_0000_0000
  }

  /** The table after the entry of cluster c is overwritten. */
  function WithEntry(kind: FatType, bytes: seq<byte>, c: nat, v: nat): (r: seq<byte>)
    requires Fits(kind, |bytes|, c)
    ensures |r| == |bytes|
  {
    var k := EntryOffset(kind, c);
    match kind
    case FAT12 =>
      bytes[k := PackFirst12(c % 2 == 1, bytes[k], v)][k + 1 := PackSecond12(c % 2 == 1, bytes[k + 1], v)]
    case FAT16 =>
      bytes[k := v % 256][k + 1 := v / 256 % 256]
    case FAT32 =>
      bytes[k := v % 256][k + 1 := v / 256 % 256][k + 2 := v / 0x1_0000 % 256][k + 3 := v / 0x100_0000 % 256]
  }

  // ----- the packed table behaves as a map

  lemma Nibbles(lo: nat, hi: nat)
    requires lo < 16
    ensures (lo + 16 * hi) % 16 == lo && (lo + 16 * hi) / 16 == hi
  {}

  lemma LowTwelve(lo: nat, hi: nat)
    requires lo < 0x1000
    ensures (lo + 0x1000 * hi) % 0x1000 == lo
  {}

  lemma LowTwelveBits(v: nat)
    ensures v % 16 + 16 * (v / 16 % 256) == v % 0x1000
    ensures v % 256 + 256 * (v / 256 % 16) == v % 0x1000
  {
    var b, c := v / 16, v / 256;
    assert v == v % 16 + 16 * (b % 256 + 256 * (b / 256));
    LowTwelve(v % 16 + 16 * (b % 256), b / 256);
    assert v == v % 256 + 256 * (c % 16 + 16 * (c / 16));
    LowTwelve(v % 256 + 256 * (c % 16), c / 16);
  }

  /** Reading back a packed 12-bit value, and the neighbours that share a byte with it. */
  lemma Pack12Laws(odd: bool, b0: byte, b1: byte, v: nat, x: byte)
    ensures var p0, p1 := PackFirst12(odd, b0, v), PackSecond12(odd, b1, v);
            && Unpack12(odd, p0, p1) == v % 0x1000
            && (odd ==> Unpack12(false, x, p0) == Unpack12(false, x, b0))
            && (!odd ==> Unpack12(true, p1, x) == Unpack12(true, b1, x))
  {
    LowTwelveBits(v);
    if odd {
      Nibbles(b0 % 16, v % 16);
    } else {
      Nibbles(v / 256 % 16, b1 / 16);
    }
  }

  lemma Unpack32Stored(v: nat)
    ensures Unpack32(v % 256, v / 256 % 256, v / 0x1_0000 % 256, v / 0x100_0000 % 256) == v % 0x1_0000_0000
  {
    var q := v / 256;
    var r := q / 256;
    var t := r / 256;
    assert v / 0x1_0000 == r && v / 0x100_0000 == t;
    LowBytes(v % 256 + 256 * (q % 256) + 0x1_0000 * (r % 256) + 0x100_0000 * (t % 256), t / 256);
  }

  lemma LowBytes(lo: nat, hi: nat)
    requires lo < 0x1_0000_0000
    ensures (lo + 0x1_0000_0000 * hi) % 0x1_0000_0000 == lo
  {}

  lemma LittleReadsBack(v: nat)
    requires v < TWO_TO_THE_32
    ensures Unpack32(Little32(v)[0], Little32(v)[1], Little32(v)[2], Little32(v)[3]) == v
  {
    hide Unpack32;
    Unpack32Stored(v);
    assert v % TWO_TO_THE_32 == v;
  }

  lemma Little16ReadsBack(v: nat)
    requires v < 0x1_0000
    ensures Unpack16(Little16(v)[0], Little16(v)[1]) == v
  {}

  /** Writing the entry of c leaves exactly the bits of every other entry alone. */
  lemma SetThenGet(kind: FatType, bytes: seq<byte>, c: nat, v: nat, d: nat)
    requires Fits(kind, |bytes|, c) && Fits(kind, |bytes|, d)
    ensures Entry(kind, WithEntry(kind, bytes, c, v), d) == if d == c then Stored(kind, v) else Entry(kind, bytes, d)
  {
    var k, j := EntryOffset(kind, c), EntryOffset(kind, d);
    match kind
    case FAT12 =>
      var odd := c % 2 == 1;
      if d == c {
        Pack12Laws(odd, bytes[k], bytes[k + 1], v, 0);
      } else if d == c + 1 {
        Pack12Laws(odd, bytes[k], bytes[k + 1], v, bytes[j + 1]);
      } else if d == c - 1 {
        Pack12Laws(odd, bytes[k], bytes[k + 1], v, bytes[j]);
      } else {
        assert j + 1 < k || k + 1 < j;
      }
    case FAT16 =>
      assert v % 256 + 256 * (v / 256 % 256) == v % 0x1_0000;
    case FAT32 =>
      Unpack32Stored(v);
  }

  // ----- the table within the disc

  predicate OnDisc(fs: FileSystem, disc: seq<Sector>) {
    fs.reservedSectorCount > 0 && fs.reservedSectorCount + fs.fatSectorCount <= |disc|
  }

  /** The table has an entry for every cluster, and cluster numbers are no end-of-chain markers. */
  predicate CoversClusters(fs: FileSystem) {
    && fs.dataClusterCount > 1
    && fs.dataClusterCount + 2 < LeastEoc(fs.kind)
    && Fits(fs.kind, 512 * fs.fatSectorCount, fs.dataClusterCount + 1)
  }

  predicate IsTableSector(fs: FileSystem, s: nat) {
    fs.reservedSectorCount <= s < fs.reservedSectorCount + fs.fatSectorCount
  }

  /** The table as one run of bytes: its sectors one behind the other. */
  function TableBytes(fs: FileSystem, disc: seq<Sector>): (bytes: seq<byte>)
    requires OnDisc(fs, disc)
    ensures |bytes| == 512 * fs.fatSectorCount
  {
    Concat(disc, fs.reservedSectorCount, fs.fatSectorCount)
  }

  function Concat(disc: seq<Sector>, start: nat, n: nat): (bytes: seq<byte>)
    requires start + n <= |disc|
    ensures |bytes| == 512 * n
  {
    if n == 0 then [] else Concat(disc, start, n - 1) + disc[start + n - 1]
  }

  function Poke(disc: seq<Sector>, s: nat, offset: nat, b: byte): (r: seq<Sector>)
    requires s < |disc| && offset < 512
    ensures |r| == |disc|
  {
    disc[s := disc[s][offset := b]]
  }

  lemma {:induction false} ConcatAt(disc: seq<Sector>, start: nat, n: nat, i: nat, offset: nat)
    requires start + n <= |disc| && i < n && offset < 512
    ensures Concat(disc, start, n)[512 * i + offset] == disc[start + i][offset]
  {
    if i < n - 1 { ConcatAt(disc, start, n - 1, i, offset); }
  }

  lemma {:induction false} ConcatPoke(disc: seq<Sector>, start: nat, n: nat, s: nat, offset: nat, b: byte)
    requires start + n <= |disc| && start <= s < |disc| && offset < 512
    ensures Concat(Poke(disc, s, offset, b), start, n)
         == if s < start + n then Concat(disc, start, n)[512 * (s - start) + offset := b] else Concat(disc, start, n)
  {
    if n > 0 { ConcatPoke(disc, start, n - 1, s, offset, b); }
  }

  lemma {:induction false} ConcatFrame(disc: seq<Sector>, disc': seq<Sector>, start: nat, n: nat)
    requires start + n <= |disc| && start + n <= |disc'|
    requires forall s | start <= s < start + n :: disc[s] == disc'[s]
    ensures Concat(disc, start, n) == Concat(disc', start, n)
  {
    if n > 0 { ConcatFrame(disc, disc', start, n - 1); }
  }

  /** The sector and offset formulas of fat.c together are the packed byte offset floor(3c/2). */
  lemma Fat12Position(c: nat)
    ensures SectorIndex(FAT12, c) == EntryOffset(FAT12, c) / 512
    ensures Fat12Offset(c) == EntryOffset(FAT12, c) % 512
  {
    var q, r := c / 1024, c % 1024;
    var t := r + r / 2;
    assert r * 3 / 2 == t;
    assert c + c / 2 == 512 * (3 * q) + t;
    var u, w := t / 512, t % 512;
    assert c + c / 2 == 512 * (3 * q + u) + w;
    assert (c + c / 2) / 512 == 3 * q + u;
    assert 1024 * u <= r * 3 < 1024 * (u + 1);
    assert c * 3 == 1024 * (3 * q + u) + (r * 3 - 1024 * u);
    assert c * 3 / 1024 == 3 * q + u;
  }

  // ----- the table as a sequence of entries

  function Table(kind: FatType, bytes: seq<byte>, entries: nat): (tab: seq<nat>)
    requires entries > 0 ==> Fits(kind, |bytes|, entries - 1)
    ensures |tab| == entries
  {
    seq(entries, (c: nat) requires c < entries => Entry(kind, bytes, c))
  }

  /** Overwriting a packed entry overwrites one element of the sequence. */
  lemma TableUpdate(kind: FatType, bytes: seq<byte>, entries: nat, c: nat, v: nat)
    requires c < entries && Fits(kind, |bytes|, entries - 1)
    ensures Fits(kind, |bytes|, c)
    ensures Table(kind, WithEntry(kind, bytes, c, v), entries) == Table(kind, bytes, entries)[c := Stored(kind, v)]
  {
    forall d | 0 <= d < entries
      ensures Table(kind, WithEntry(kind, bytes, c, v), entries)[d]
           == Table(kind, bytes, entries)[c := Stored(kind, v)][d]
    {
      SetThenGet(kind, bytes, c, v, d);
    }
  }
}
