/** What reading and writing through a cluster chain do to its bytes and to the file's size. */
module Transfers {
  import opened Types
  import opened FatTable
  import opened Chains
  import opened Allocation
  import opened Geometry
  import opened FatVolume
  import opened FileBytes
  import opened RequiredClusters

  /** Bytes a read transfers: the request, cut at the end of the file by a 32-bit comparison. */
  function ReadSize(fileSize: nat, offset: nat, size: nat): nat {
    if offset >= fileSize then 0
    else if Add32(offset, size) > fileSize && size != 0 then fileSize - offset
    else size
  }

  /** The cut is the intended one exactly when the sum does not wrap around to within the file. */
  lemma ReadSizeExact(fileSize: nat, offset: nat, size: nat)
    requires fileSize < TWO_TO_THE_32 && offset < TWO_TO_THE_32 && size < TWO_TO_THE_32
    ensures ReadSize(fileSize, offset, size) == (if offset >= fileSize then 0 else Min(size, fileSize - offset)) <==>
            offset >= fileSize || offset + size < TWO_TO_THE_32 || (offset + size) % TWO_TO_THE_32 > fileSize
  {}

  /** A read whose end wraps around to within the file is not cut. */
  lemma WrappedReadIsNotCut()
    ensures ReadSize(10, 5, 0xFFFF_FFFD) == 0xFFFF_FFFD
  {}

  // ----- positions: byte j of a transfer is at Add32(offset, j)

  /** All n positions from the offset on lie within the text; behind the last 32-bit position comes the first. */
  predicate WithinReach(offset: nat, n: nat, length: nat) {
    length >= TWO_TO_THE_32 || offset + n <= length
  }

  /** The n bytes from the offset on. */
  function Around(text: seq<byte>, offset: nat, n: nat): (bytes: seq<byte>)
    requires n > 0 ==> WithinReach(offset, n, |text|)
    ensures |bytes| == n
  {
    seq(n, (j: nat) requires j < n => text[Add32(offset, j)])
  }

  /** The text with bytes laid over it from the offset on. */
  function Laid(text: seq<byte>, offset: nat, bytes: seq<byte>): (text': seq<byte>)
    ensures |text'| == |text|
  {
    seq(|text|, (p: nat) requires p < |text| =>
      if p < TWO_TO_THE_32 && Sub32(p, offset) < |bytes| then bytes[Sub32(p, offset)] else text[p])
  }

  /** Without a wrap, these are a slice and an overlay. */
  lemma AroundIsSlice(text: seq<byte>, offset: nat, n: nat)
    requires offset + n <= |text| && offset + n <= TWO_TO_THE_32
    ensures WithinReach(offset, n, |text|) && Around(text, offset, n) == text[offset..offset + n]
  {}

  lemma PositionOf(offset: nat, done: nat, i: nat)
    requires Add32(offset, done) + i < TWO_TO_THE_32
    ensures Add32(offset, done + i) == Add32(offset, done) + i
  {
    var q := (offset + done) / TWO_TO_THE_32;
    assert offset + done + i == TWO_TO_THE_32 * q + (Add32(offset, done) + i);
  }

  /** Which byte of a transfer is at a position. */
  lemma IndexOf(offset: nat, p: nat, j: nat)
    requires offset < TWO_TO_THE_32 && p < TWO_TO_THE_32 && j < TWO_TO_THE_32
    ensures Sub32(p, offset) == j <==> p == Add32(offset, j)
  {}

  /** The bytes of a further round. */
  lemma AroundMore(text: seq<byte>, offset: nat, done: nat, n: nat)
    requires offset < TWO_TO_THE_32 && n > 0 && (done > 0 ==> WithinReach(offset, done, |text|))
    requires var p := Add32(offset, done); p % 512 + n <= 512 && p + n <= |text|
    ensures WithinReach(offset, done + n, |text|)
    ensures Around(text, offset, done + n) == Around(text, offset, done) + text[Add32(offset, done)..Add32(offset, done) + n]
  {
    var p := Add32(offset, done);
    StaysBelow32(p, n);
    var lhs, rhs := Around(text, offset, done + n), Around(text, offset, done) + text[p..p + n];
    forall j | 0 <= j < done + n ensures lhs[j] == rhs[j] {
      if j >= done { PositionOf(offset, done, j - done); }
    }
  }

  lemma StaysBelow32(p: nat, n: nat)
    requires p < TWO_TO_THE_32 && p % 512 + n <= 512
    ensures p + n <= TWO_TO_THE_32
  {}

  /** Bytes that one round of the transfer loops moves: up to the end of the sector. */
  function RoundSize(position: nat, left: nat): nat {
    if position % 512 != 0 || left < 512 then
      if 512 - position % 512 >= left then left else 512 - position % 512
    else 512
  }

  lemma RoundFits(position: nat, left: nat)
    requires left > 0
    ensures 0 < RoundSize(position, left) <= left && position % 512 + RoundSize(position, left) <= 512
  {}

  lemma SameSector(position: nat, i: nat)
    requires position % 512 + i < 512
    ensures (position + i) / 512 == position / 512 && (position + i) % 512 == position % 512 + i
  {}

  /** The bytes of one round all come from the sector of the first. */
  lemma RoundBytes(fs: FileSystem, disc: seq<Sector>, ch: seq<nat>, position: nat, n: nat)
    requires OnVolume(fs, |disc|, ch) && position / 512 < |ch| * fs.sectorsPerCluster && position % 512 + n <= 512
    ensures position + n <= Capacity(fs, ch)
    ensures Quot(position / 512, fs.sectorsPerCluster) < |ch| && IsCluster(fs, ch[Quot(position / 512, fs.sectorsPerCluster)])
    ensures SectorOf(fs, ch, position / 512) < |disc|
    ensures Content(fs, disc, ch, Capacity(fs, ch))[position..position + n]
         == disc[SectorOf(fs, ch, position / 512)][position % 512..position % 512 + n]
  {
    hide Quot, Rem, ClusterToSector;
    RoundStaysInChain(position, n, |ch|, fs.sectorsPerCluster);
    SectorWithin(fs, |disc|, ch, position / 512);
    var text := Content(fs, disc, ch, Capacity(fs, ch));
    var s, b := disc[SectorOf(fs, ch, position / 512)], position % 512;
    var lhs, rhs := text[position..position + n], s[b..b + n];
    forall i | 0 <= i < n ensures lhs[i] == rhs[i] {
      SameSector(position, i);
    }
  }

  /** A shorter reading of the same chain is a prefix of a longer one. */
  lemma ContentPrefix(fs: FileSystem, disc: seq<Sector>, ch: seq<nat>, size: nat, longer: nat)
    requires size <= longer
    ensures Content(fs, disc, ch, size) == Content(fs, disc, ch, longer)[..size]
  {}

  /** A round that starts within the chain ends within it. */
  lemma RoundStaysInChain(position: nat, n: nat, clusters: nat, spc: nat)
    requires position / 512 < clusters * spc && position % 512 + n <= 512
    ensures position + n <= clusters * (512 * spc)
  {
    assert clusters * (512 * spc) == 512 * (clusters * spc);
  }

  /** A buffer whose front has been overwritten by the given bytes. */
  ghost predicate Delivered(buf: seq<byte>, was: seq<byte>, bytes: seq<byte>) {
    |bytes| <= |was| && buf == bytes + was[|bytes|..]
  }

  lemma DeliverMore(buf: seq<byte>, was: seq<byte>, bytes: seq<byte>, more: seq<byte>, buf': seq<byte>)
    requires |bytes| + |more| <= |was| && Delivered(buf, was, bytes)
    requires buf' == buf[..|bytes|] + more + buf[|bytes| + |more|..]
    ensures Delivered(buf', was, bytes + more)
  {
    assert buf[..|bytes|] == bytes;
    assert buf[|bytes| + |more|..] == was[|bytes| + |more|..];
  }

  /** A text that ends where the next byte would be has been read from the offset on. */
  lemma UpToTheEnd(text: seq<byte>, offset: nat, done: nat)
    requires offset < TWO_TO_THE_32 && (done > 0 ==> WithinReach(offset, done, |text|)) && Add32(offset, done) >= |text|
    ensures forall n | n > done :: !WithinReach(offset, n, |text|)
    ensures Around(text, offset, done) == text[Min(offset, |text|)..]
  {
    assert Add32(offset, done) == offset + done || done == 0;
  }

  /** A further round of a read. */
  lemma ReadMore(text: seq<byte>, offset: nat, done: nat, n: nat, buf: seq<byte>, was: seq<byte>, buf': seq<byte>)
    requires offset < TWO_TO_THE_32 && n > 0 && (done > 0 ==> WithinReach(offset, done, |text|)) && done + n <= |was| == |buf|
    requires var p := Add32(offset, done);
      p % 512 + n <= 512 && p + n <= |text| && buf' == buf[..done] + text[p..p + n] + buf[done + n..]
    requires Delivered(buf, was, Around(text, offset, done))
    ensures WithinReach(offset, done + n, |text|) && Delivered(buf', was, Around(text, offset, done + n))
  {
    hide Around, Delivered;
    var p := Add32(offset, done);
    AroundMore(text, offset, done, n);
    DeliverMore(buf, was, Around(text, offset, done), text[p..p + n], buf');
  }

  /** A text with some bytes of it overwritten from the offset on. */
  ghost predicate Written(text: seq<byte>, text': seq<byte>, offset: nat, bytes: seq<byte>) {
    (bytes != [] ==> WithinReach(offset, |bytes|, |text|)) && text' == Laid(text, offset, bytes)
  }

  /** Bytes a write gets done before its chain ends. */
  function WriteSize(offset: nat, size: nat, capacity: nat): nat {
    if WithinReach(offset, size, capacity) then size else if offset < capacity then capacity - offset else 0
  }

  lemma WriteMore(text: seq<byte>, text1: seq<byte>, text2: seq<byte>, offset: nat, data: seq<byte>, done: nat, n: nat)
    requires done + n <= |data| < TWO_TO_THE_32 && n > 0 && offset < TWO_TO_THE_32
    requires var p := Add32(offset, done);
      && p % 512 + n <= 512 && p + n <= |text| == |text1|
      && text2 == text1[..p] + data[done..done + n] + text1[p + n..]
    requires Written(text, text1, offset, data[..done])
    ensures Written(text, text2, offset, data[..done + n])
  {
    var p := Add32(offset, done);
    StaysBelow32(p, n);
    var laid := Laid(text, offset, data[..done + n]);
    forall x | 0 <= x < |text| ensures text2[x] == laid[x] {
      LaidMore(text, offset, data, done, n, x);
    }
    ReachMore(offset, done, n, |text|);
  }

  lemma ReachMore(offset: nat, done: nat, n: nat, length: nat)
    requires offset < TWO_TO_THE_32 && (done > 0 ==> WithinReach(offset, done, length)) && Add32(offset, done) + n <= length
    ensures WithinReach(offset, done + n, length)
  {}

  lemma LaidMore(text: seq<byte>, offset: nat, data: seq<byte>, done: nat, n: nat, x: nat)
    requires done + n <= |data| < TWO_TO_THE_32 && offset < TWO_TO_THE_32 && x < |text|
    requires Add32(offset, done) + n <= TWO_TO_THE_32
    ensures var p := Add32(offset, done);
      Laid(text, offset, data[..done + n])[x] ==
        if p <= x < p + n then data[done..done + n][x - p] else Laid(text, offset, data[..done])[x]
  {
    var p := Add32(offset, done);
    if p <= x < p + n {
      PositionOf(offset, done, x - p);
      IndexOf(offset, x, done + (x - p));
    } else if x < TWO_TO_THE_32 {
      var j := Sub32(x, offset);
      if done <= j < done + n {
        IndexOf(offset, x, j);
        LaterPosition(offset, done, j - done, n);
      }
    }
  }

  lemma LaterPosition(offset: nat, done: nat, i: nat, n: nat)
    requires i < n && Add32(offset, done) + n <= TWO_TO_THE_32
    ensures Add32(offset, done + i) == Add32(offset, done) + i
  {
    PositionOf(offset, done, i);
  }

  /** Storing a round's bytes in the sector that the round has found overwrites them in the text. */
  lemma StoreInText(fs: FileSystem, disc: seq<Sector>, ch: seq<nat>, position: nat, bytes: seq<byte>)
    requires OnVolume(fs, |disc|, ch) && position / 512 < |ch| * fs.sectorsPerCluster && position % 512 + |bytes| <= 512
    ensures Quot(position / 512, fs.sectorsPerCluster) < |ch| && IsCluster(fs, ch[Quot(position / 512, fs.sectorsPerCluster)])
    ensures SectorOf(fs, ch, position / 512) < |disc|
    ensures var s, text := SectorOf(fs, ch, position / 512), Content(fs, disc, ch, Capacity(fs, ch));
      && position + |bytes| <= |text|
      && Content(fs, disc[s := Overwritten(disc[s], position % 512, bytes)], ch, Capacity(fs, ch))
         == text[..position] + bytes + text[position + |bytes|..]
  {
    hide Quot, Rem, ClusterToSector;
    RoundStaysInChain(position, |bytes|, |ch|, fs.sectorsPerCluster);
    SectorWithin(fs, |disc|, ch, position / 512);
    var s, text := SectorOf(fs, ch, position / 512), Content(fs, disc, ch, Capacity(fs, ch));
    var disc' := disc[s := Overwritten(disc[s], position % 512, bytes)];
    var lhs, rhs := Content(fs, disc', ch, Capacity(fs, ch)), text[..position] + bytes + text[position + |bytes|..];
    forall p: nat | p < |lhs| ensures lhs[p] == rhs[p] {
      StoreInChain(fs, disc, ch, position / 512, position % 512, bytes, p);
    }
  }

  /** Bytes written within a file's reach make the file the old one with the data laid over it. */
  lemma WriteIsSplice(text: seq<byte>, text': seq<byte>, fileSize: nat, offset: nat, data: seq<byte>)
    requires offset <= fileSize <= |text| && offset + |data| <= |text| && offset + |data| <= TWO_TO_THE_32
    requires Written(text, text', offset, data)
    ensures text'[..Max(fileSize, offset + |data|)] == Splice(text[..fileSize], offset, data)
  {}

  /** With the missing clusters added, the chain reaches the end of the write. */
  lemma CoverReaches(fs: FileSystem, ch: seq<nat>, ps: seq<nat>, end: nat, need: nat)
    requires IsLeastCover(need, end, |ch|, ClusterSize(fs)) && |ps| == need
    ensures end <= Capacity(fs, ch + ps)
  {}

  /** There is room for a write exactly when the clusters missing are not more than the free ones. */
  lemma RoomMeansEnoughFree(end: nat, hc: nat, free: nat, cs: nat, need: nat)
    requires IsLeastCover(need, end, hc, cs)
    ensures need <= free <==> end <= (hc + free) * cs
  {
    if need <= free {
      MultiplesOrdered(hc + need, hc + free, cs);
    } else {
      MultiplesOrdered(hc + free, hc + need - 1, cs);
    }
  }

  /** The size recorded after r of `size` bytes were written at the offset, itself cut at the old size; 32 bits. */
  function NewSize(fileSize: nat, offset: nat, size: nat, r: nat): nat {
    var room := fileSize - Min(offset, fileSize);
    if r < size then Add32(fileSize, r)
    else if r > room then Add32(fileSize, r - room)
    else fileSize
  }

  /** The recorded size covers the bytes of a complete write exactly when it starts within the file and ends within 32 bits. */
  lemma SizeCoversWriteExactly(fileSize: nat, offset: nat, size: nat)
    requires 0 < size < TWO_TO_THE_32 && fileSize < TWO_TO_THE_32 && offset < TWO_TO_THE_32
    ensures offset + size <= NewSize(fileSize, offset, size, size) <==> offset <= fileSize && offset + size < TWO_TO_THE_32
  {}

  /** One byte written behind a gap: it is at position 20 of a file whose size is then 11. */
  lemma WriteBehindGapIsNotCovered()
    ensures NewSize(10, 20, 1, 1) == 11
  {}

  /**
   The size recorded is right exactly when the chain reaches to the end of the
   write and that is within 32 bits, or the write starts at the end of the file
   in a chain it can run out of.
   */
  lemma CutShortSizeExactly(fileSize: nat, offset: nat, size: nat, capacity: nat)
    requires 0 < size < TWO_TO_THE_32 && offset <= fileSize <= capacity && fileSize < TWO_TO_THE_32
    ensures var r := WriteSize(offset, size, capacity);
      NewSize(fileSize, offset, size, r) == Max(fileSize, offset + r) <==>
        (offset + size <= capacity && offset + size < TWO_TO_THE_32) || (offset == fileSize && capacity < TWO_TO_THE_32)
  {}

  /** What a write does to the chain's bytes and the size, once its clusters were granted or refused. */
  ghost predicate WriteOutcome(text: seq<byte>, text': seq<byte>, fileSize: nat, fileSize': nat,
                               offset: nat, data: seq<byte>, granted: bool, r: nat) {
    if granted then
      && r == WriteSize(offset, |data|, |text|)
      && Written(text, text', offset, data[..r])
      && fileSize' == NewSize(fileSize, offset, |data|, r)
    else
      r == 0 && text' == text && fileSize' == fileSize
  }

  /** Clusters are granted when none is missing or the allocation reports success. */
  predicate Granted(tab: seq<nat>, last: nat, need: nat)
    requires 2 <= last < |tab|
  {
    need == 0 || AllocCode(tab, last, need) == 0
  }

  /** A shortage that the 16-bit count or the chain's own end hides: the allocation reports success. */
  predicate ShortageHidden(tab: seq<nat>, last: nat, need: nat)
    requires 2 <= last < |tab|
  {
    var free := CountFree(tab, 2, |tab| - 1);
    need > free &&
    if MeetsOwnEnd(tab, last) then need == free + 1 || (free + 1) % 0x1_0000 == 0 else free % 0x1_0000 == 0
  }

  /**
   Before the call: a write within the file records the right size unless a
   shortage of clusters is hidden from it and it starts before the file's end.
   */
  lemma RecordedSizeExactly(fs: FileSystem, tab: seq<nat>, ch: seq<nat>, need: nat, fileSize: nat, offset: nat, size: nat)
    requires fs.sectorsPerCluster > 0 && IsChain(fs.kind, tab, ch)
    requires 0 < size && offset <= fileSize <= Capacity(fs, ch) < TWO_TO_THE_32
    requires fileSize + ClusterSize(fs) <= TWO_TO_THE_32 && offset + size + ClusterSize(fs) <= TWO_TO_THE_32
    requires need == RequiredFor(fileSize, offset, size, |ch|, ClusterSize(fs))
    ensures var last := ch[|ch| - 1];
      var granted, capacity := Granted(tab, last, need), Capacity(fs, ch + Picks(tab, last, need));
      var r := if granted then WriteSize(offset, size, capacity) else 0;
      var size' := if granted then NewSize(fileSize, offset, size, r) else fileSize;
      size' == Max(fileSize, offset + r) <==> offset == fileSize || !ShortageHidden(tab, last, need)
  {
    var last, cs := ch[|ch| - 1], ClusterSize(fs);
    var free, ps := CountFree(tab, 2, |tab| - 1), Picks(tab, last, need);
    RequiredIsLeastCover(fileSize, offset, size, |ch|, cs);
    RoomMeansEnoughFree(offset + size, |ch|, free, cs, need);
    ChainIsUsed(fs.kind, tab, ch);
    AllocGrowth(tab, last, need);
    AllocCodeIsHonest(tab, last, need);
    GrownCapacity(fs, ch, ps);
    if need <= free { CoverReaches(fs, ch, ps, offset + size, need); }
    CutShortSizeExactly(fileSize, offset, size, Capacity(fs, ch + ps));
  }

  lemma GrownCapacity(fs: FileSystem, ch: seq<nat>, ps: seq<nat>)
    ensures Capacity(fs, ch + ps) == (|ch| + |ps|) * ClusterSize(fs) >= Capacity(fs, ch)
  {
    MultiplesOrdered(|ch|, |ch| + |ps|, ClusterSize(fs));
  }

  /** On a full volume, overwriting two clusters with one byte more than they hold doubles the recorded size. */
  lemma CutShortWriteDoublesSize()
    ensures var tab := [0xFFF8, 0xFFFF, 3, 0xFFFF, 0xFFFF];
      && IsChain(FAT16, tab, [2, 3]) && RequiredFor(1024, 0, 1025, 2, 512) == 1
      && Granted(tab, 3, 1) && Picks(tab, 3, 1) == []
      && WriteSize(0, 1025, 1024) == 1024 && NewSize(1024, 0, 1025, 1024) == 2048
  {}

  /** Four bytes at the end of the largest file there can be: two wrap to its beginning, and its size becomes 2. */
  lemma LargestFileWraps(text: seq<byte>, data: seq<byte>)
    requires |text| == TWO_TO_THE_32 && |data| == 4
    ensures WriteSize(0xFFFF_FFFE, 4, |text|) == 4 && NewSize(0xFFFF_FFFF, 0xFFFF_FFFE, 4, 4) == 2
    ensures Laid(text, 0xFFFF_FFFE, data)[0] == data[2] && Laid(text, 0xFFFF_FFFE, data)[1] == data[3]
  {}

  /** The bytes of the old chain are the first bytes of the longer one. */
  lemma ExtendedContent(fs: FileSystem, disc: seq<Sector>, ch: seq<nat>, ps: seq<nat>, size: nat)
    requires fs.sectorsPerCluster > 0 && size <= Capacity(fs, ch)
    ensures size <= Capacity(fs, ch + ps)
    ensures Content(fs, disc, ch, size) == Content(fs, disc, ch + ps, Capacity(fs, ch + ps))[..size]
  {
    hide Quot, Rem, ClusterToSector;
    MultiplesOrdered(|ch|, |ch + ps|, ClusterSize(fs));
    forall p: nat | p < size ensures ByteOf(fs, disc, ch, p) == ByteOf(fs, disc, ch + ps, p) {
      SeekRange(p, |ch|, fs.sectorsPerCluster);
    }
  }

  /**
   A write that starts within the file and for whose bytes the chain and the
   free clusters have room is carried out in full: the file becomes the old one
   with the data laid over it.
   */
  lemma WriteWithRoom(fs: FileSystem, tab: seq<nat>, ch: seq<nat>, need: nat, text: seq<byte>, text': seq<byte>,
                      fileSize: nat, fileSize': nat, offset: nat, data: seq<byte>, r: nat)
    requires fs.sectorsPerCluster > 0 && IsChain(fs.kind, tab, ch)
    requires fileSize <= Capacity(fs, ch) < TWO_TO_THE_32 && fileSize + ClusterSize(fs) <= TWO_TO_THE_32
    requires offset <= fileSize && offset + |data| + ClusterSize(fs) <= TWO_TO_THE_32
    requires offset + |data| <= (|ch| + CountFree(tab, 2, |tab| - 1)) * ClusterSize(fs)
    requires need == RequiredFor(fileSize, offset, |data|, |ch|, ClusterSize(fs))
    requires |text| == Capacity(fs, ch + Picks(tab, ch[|ch| - 1], need)) && fileSize <= |text|
    requires WriteOutcome(text, text', fileSize, fileSize', offset, data, Granted(tab, ch[|ch| - 1], need), r)
    ensures r == |data| && fileSize' == Max(fileSize, offset + |data|)
    ensures fileSize' <= |text'| == |text| && text'[..fileSize'] == Splice(text[..fileSize], offset, data)
    ensures Claimed(tab, ch[|ch| - 1], need) == need == |Picks(tab, ch[|ch| - 1], need)|
  {
    hide RequiredFor, IsLeastCover, CountFree, Picks, Claimed, Granted, IsChain, Laid, Splice, WriteSize, NewSize, WithinReach;
    ChainLast(fs.kind, tab, ch);
    var last, end, cs, free := ch[|ch| - 1], offset + |data|, ClusterSize(fs), CountFree(tab, 2, |tab| - 1);
    RequiredIsLeastCover(fileSize, offset, |data|, |ch|, cs);
    RoomMeansEnoughFree(end, |ch|, free, cs, need);
    MetInFull(tab, last, need);
    CoverReaches(fs, ch, Picks(tab, last, need), end, need);
    assert data[..|data|] == data;
    assert offset + |data| <= |text|;
    FullWrite(fileSize, offset, |data|, |text|);
    WriteIsSplice(text, text', fileSize, offset, data);
  }

  lemma FullWrite(fileSize: nat, offset: nat, size: nat, capacity: nat)
    requires offset <= fileSize < TWO_TO_THE_32 && offset + size < TWO_TO_THE_32 && offset + size <= capacity
    ensures WriteSize(offset, size, capacity) == size && NewSize(fileSize, offset, size, size) == Max(fileSize, offset + size)
  {}

  lemma ChainLast(kind: FatType, tab: seq<nat>, ch: seq<nat>)
    requires IsChain(kind, tab, ch)
    ensures |ch| > 0 && 2 <= ch[|ch| - 1] < |tab| && tab[ch[|ch| - 1]] != 0
  {
    ChainIsUsed(kind, tab, ch);
  }

  lemma MetInFull(tab: seq<nat>, last: nat, n: nat)
    requires 2 <= last < |tab| && tab[last] != 0
    ensures n <= CountFree(tab, 2, |tab| - 1) ==> |Picks(tab, last, n)| == n == Claimed(tab, last, n) && Granted(tab, last, n)
  {
    ScanLength(tab, last);
  }

  /** The same, said of the discs before and after. */
  lemma FittingWrite(fs: FileSystem, tab: seq<nat>, ch: seq<nat>, need: nat, disc: seq<Sector>, disc': seq<Sector>,
                     size: nat, size': nat, offset: nat, data: seq<byte>, r: nat)
    requires fs.sectorsPerCluster > 0 && IsChain(fs.kind, tab, ch)
    requires size <= Capacity(fs, ch) < TWO_TO_THE_32 && size + ClusterSize(fs) <= TWO_TO_THE_32
    requires offset <= size && offset + |data| + ClusterSize(fs) <= TWO_TO_THE_32
    requires offset + |data| <= (|ch| + CountFree(tab, 2, |tab| - 1)) * ClusterSize(fs)
    requires need == RequiredFor(size, offset, |data|, |ch|, ClusterSize(fs))
    requires var grown := ch + Picks(tab, ch[|ch| - 1], need);
      WriteOutcome(Content(fs, disc, grown, Capacity(fs, grown)), Content(fs, disc', grown, Capacity(fs, grown)),
                   size, size', offset, data, Granted(tab, ch[|ch| - 1], need), r)
    ensures r == |data| && size' == Max(size, offset + |data|)
    ensures var grown := ch + Picks(tab, ch[|ch| - 1], need);
      size' <= Capacity(fs, grown) && Content(fs, disc', grown, size') == Splice(Content(fs, disc, ch, size), offset, data)
    ensures Claimed(tab, ch[|ch| - 1], need) == need == |Picks(tab, ch[|ch| - 1], need)|
  {
    hide Content, WriteOutcome, RequiredFor, Granted, Claimed, CountFree, Splice;
    var ps := Picks(tab, ch[|ch| - 1], need);
    var grown := ch + ps;
    ExtendedContent(fs, disc, ch, ps, size);
    WriteWithRoom(fs, tab, ch, need, Content(fs, disc, grown, Capacity(fs, grown)),
                  Content(fs, disc', grown, Capacity(fs, grown)), size, size', offset, data, r);
    ContentPrefix(fs, disc', grown, size', Capacity(fs, grown));
  }

  /** A sector outside the chain says nothing about its bytes. */
  lemma UnrelatedSector(fs: FileSystem, disc: seq<Sector>, disc': seq<Sector>, ch: seq<nat>, s: nat)
    requires OnVolume(fs, |disc|, ch) && |disc'| == |disc| && !InChain(fs, ch, s)
    requires forall t | 0 <= t < |disc| && t != s :: disc'[t] == disc[t]
    ensures Content(fs, disc', ch, Capacity(fs, ch)) == Content(fs, disc, ch, Capacity(fs, ch))
  {
    hide Quot, Rem, ClusterToSector, InChain;
    forall p: nat | p < Capacity(fs, ch) ensures ByteOf(fs, disc', ch, p) == ByteOf(fs, disc, ch, p) {
      SeekRange(p, |ch|, fs.sectorsPerCluster);
      SectorOfIsInChain(fs, ch, p / 512);
    }
  }

  /** Neither does a sector of the table. */
  lemma ContentIgnoresTable(fs: FileSystem, disc: seq<Sector>, disc': seq<Sector>, tab: seq<nat>, ch: seq<nat>)
    requires DataOnDisc(fs, |disc|) && |disc'| == |disc| && |tab| == fs.dataClusterCount + 2 && IsChain(fs.kind, tab, ch)
    requires forall t | 0 <= t < |disc| && !IsTableSector(fs, t) :: disc'[t] == disc[t]
    ensures Content(fs, disc', ch, Capacity(fs, ch)) == Content(fs, disc, ch, Capacity(fs, ch))
  {
    ChainOnVolume(fs, |disc|, tab, ch);
    forall p: nat | p < Capacity(fs, ch) ensures ByteOf(fs, disc', ch, p) == ByteOf(fs, disc, ch, p) {
      SeekRange(p, |ch|, fs.sectorsPerCluster);
      SectorWithin(fs, |disc|, ch, p / 512);
    }
  }

  /**
   n bytes of the text from the offset on are delivered; when the text ends
   before them, those up to its end are, and 0 is returned.
   */
  ghost predicate ReadFrom(text: seq<byte>, offset: nat, n: nat, was: seq<byte>, buf: seq<byte>, r: nat) {
    if n == 0 then r == 0 && buf == was
    else if WithinReach(offset, n, |text|) then r == n && Delivered(buf, was, Around(text, offset, n))
    else r == 0 && Delivered(buf, was, text[Min(offset, |text|)..])
  }

  /** A read that starts within the file and does not wrap delivers exactly the file's bytes from there on. */
  lemma ReadIsSlice(text: seq<byte>, fileSize: nat, offset: nat, size: nat, was: seq<byte>, buf: seq<byte>, r: nat)
    requires offset <= fileSize <= |text| && fileSize < TWO_TO_THE_32 && offset + size < TWO_TO_THE_32 && size <= |was|
    requires ReadFrom(text, offset, ReadSize(fileSize, offset, size), was, buf, r)
    ensures r == Min(size, fileSize - offset)
    ensures Delivered(buf, was, text[..fileSize][offset..offset + r])
  {
    ReadSizeExact(fileSize, offset, size);
    var n := Min(size, fileSize - offset);
    AroundIsSlice(text, offset, n);
    assert text[..fileSize][offset..offset + n] == text[offset..offset + n];
  }

  /** What a write that fits has laid down is what a read of the same place then delivers. */
  lemma SpliceReadsBack(was: seq<byte>, offset: nat, data: seq<byte>)
    requires offset <= |was|
    ensures offset + |data| <= |Splice(was, offset, data)|
    ensures Splice(was, offset, data)[offset..offset + |data|] == data
  {}

  lemma SeekRange(position: nat, clusters: nat, spc: nat)
    requires spc > 0
    ensures Quot(position / 512, spc) < clusters <==> position < clusters * (512 * spc)
    ensures position < clusters * (512 * spc) ==> position / 512 < clusters * spc
  {
    var q, i := position / 512, Quot(position / 512, spc);
    assert clusters * (512 * spc) == 512 * (clusters * spc);
    Recompose(q, spc);
    if i < clusters {
      NextMultiple(i, clusters, spc);
    } else {
      MultiplesOrdered(clusters, i, spc);
    }
  }
}
