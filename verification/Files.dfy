/** Reading and writing files through their cluster chains. */
module Files {
  import opened Types
  import opened FatTable
  import opened Chains
  import opened Allocation
  import opened Geometry
  import opened FatVolume
  import opened FileBytes
  import opened DirectoryRecords
  import opened RequiredClusters
  import opened Transfers
  import FileRuns

  /** Clusters allocated ahead of need, as configured. */
  const CLUSTER_PREALLOC_FILE := 0

  /** No cluster belongs to both chains. */
  ghost predicate Apart(a: seq<nat>, b: seq<nat>) {
    forall i, j | 0 <= i < |a| && 0 <= j < |b| :: a[i] != b[j]
  }

  /** The count of clusters stays right: none is missing, or there is none to add. */
  predicate CountKept(tab: seq<nat>, need: nat)
    requires |tab| > 2
  {
    var free := CountFree(tab, 2, |tab| - 1);
    need <= free || free == 0
  }

  lemma NothingNeeded(kind: FatType, tab: seq<nat>, ch: seq<nat>)
    requires IsChain(kind, tab, ch)
    ensures |ch| > 0 && 2 <= ch[|ch| - 1] < |tab|
    ensures var last := ch[|ch| - 1];
      && AllocTable(kind, tab, last, 0) == tab && ch + Picks(tab, last, 0) == ch
      && Granted(tab, last, 0) && CountKept(tab, 0)
  {}

  lemma EnoughIsKept(fs: FileSystem, tab: seq<nat>, ch: seq<nat>, need: nat, fileSize: nat, offset: nat, size: nat)
    requires fs.sectorsPerCluster > 0 && IsChain(fs.kind, tab, ch) && |tab| > 2
    requires fileSize <= Capacity(fs, ch) < TWO_TO_THE_32 && fileSize + ClusterSize(fs) <= TWO_TO_THE_32
    requires offset + size + ClusterSize(fs) <= TWO_TO_THE_32
    requires offset + size <= (|ch| + CountFree(tab, 2, |tab| - 1)) * ClusterSize(fs)
    requires need == RequiredFor(fileSize, offset, size, |ch|, ClusterSize(fs))
    ensures CountKept(tab, need)
  {
    hide RequiredFor, CountFree;
    RequiredIsLeastCover(fileSize, offset, size, |ch|, ClusterSize(fs));
    RoomMeansEnoughFree(offset + size, |ch|, CountFree(tab, 2, |tab| - 1), ClusterSize(fs), need);
  }

  /** The record's sector lies in no cluster of the chain and in no free cluster. */
  ghost predicate SectorApart(fs: FileSystem, tab: seq<nat>, ch: seq<nat>, s: nat) {
    forall c | 2 <= c < |tab| && LiesIn(fs, c, s) :: c !in ch && tab[c] != 0
  }

  lemma EntryStaysApart(fs: FileSystem, tab: seq<nat>, ch: seq<nat>, need: nat, s: nat)
    requires IsChain(fs.kind, tab, ch) && SectorApart(fs, tab, ch, s)
    ensures SectorApart(fs, AllocTable(fs.kind, tab, ch[|ch| - 1], need), ch + Picks(tab, ch[|ch| - 1], need), s)
  {
    var last := ch[|ch| - 1];
    AllocIsChain(fs.kind, tab, ch, need);
    ChainIsUsed(fs.kind, tab, ch);
    ScanMembers(tab, last);
    hide LiesIn, AllocTable;
    forall c | 2 <= c < |tab| && LiesIn(fs, c, s)
      ensures c !in ch + Picks(tab, last, need) && AllocTable(fs.kind, tab, last, need)[c] != 0
    {
      assert last in ch;
    }
  }

  /** A write that fits, as whole runs see it. */
  lemma FitIsWrote(fs: FileSystem, tab: seq<nat>, disc: seq<Sector>, ch: seq<nat>, size: nat, need: nat,
                   disc': seq<Sector>, size': nat, offset: nat, data: seq<byte>)
    requires IsChain(fs.kind, tab, ch) && offset <= size && size' == Max(size, offset + |data|) && |disc'| == |disc|
    requires var grown := ch + Picks(tab, ch[|ch| - 1], need);
      && size' <= Capacity(fs, grown) && Content(fs, disc', grown, size') == Splice(Content(fs, disc, ch, size), offset, data)
      && forall t | 0 <= t < |disc| && !IsTableSector(fs, t) && !InChain(fs, grown, t) :: disc'[t] == disc[t]
    ensures |ch| > 0 && 2 <= ch[|ch| - 1] < |tab|
    ensures FileRuns.Wrote(fs, tab, disc, FileRuns.FileState(ch, size), need, AllocTable(fs.kind, tab, ch[|ch| - 1], need), disc',
                           FileRuns.FileState(ch + Picks(tab, ch[|ch| - 1], need), size'), offset, data)
  {
    hide Content, AllocTable, Picks, InChain, Splice;
  }

  /** A cluster in use stays in use, so a sector apart from the free clusters stays so. */
  lemma OtherEntriesStay(fs: FileSystem, tab: seq<nat>, ch: seq<nat>, need: nat)
    requires IsChain(fs.kind, tab, ch)
    ensures var tab' := AllocTable(fs.kind, tab, ch[|ch| - 1], need);
      forall other, s | SectorApart(fs, tab, other, s) :: SectorApart(fs, tab', other, s)
  {
    hide LiesIn, AllocTable;
    var last := ch[|ch| - 1];
    var grown, tab' := ch + Picks(tab, last, need), AllocTable(fs.kind, tab, last, need);
    AllocIsChain(fs.kind, tab, ch, need);
    ChainIsUsed(fs.kind, tab', grown);
    assert last in grown;
    assert forall c | 2 <= c < |tab| && tab[c] != 0 :: tab'[c] != 0;
  }

  /** The chain of another file after an allocation. */
  lemma OtherChainStays(kind: FatType, tab: seq<nat>, ch: seq<nat>, need: nat, other: seq<nat>)
    requires IsChain(kind, tab, ch) && IsChain(kind, tab, other) && Apart(ch, other)
    ensures IsChain(kind, AllocTable(kind, tab, ch[|ch| - 1], need), other)
    ensures Apart(ch + Picks(tab, ch[|ch| - 1], need), other)
  {
    var last, ps := ch[|ch| - 1], Picks(tab, ch[|ch| - 1], need);
    AllocIsChain(kind, tab, ch, need);
    ChainIsUsed(kind, tab, ch);
    ChainIsUsed(kind, tab, other);
    ScanMembers(tab, last);
    forall c | c in other && 2 <= c < |tab| ensures c != last && c !in ps {
      var j :| 0 <= j < |other| && other[j] == c;
      assert ch[|ch| - 1] != other[j];
    }
    ChainFrame(kind, tab, AllocTable(kind, tab, last, need), other);
  }

  /** All other files after a write. */
  lemma OtherFilesStay(fs: FileSystem, tab: seq<nat>, ch: seq<nat>, need: nat, disc: seq<Sector>, disc': seq<Sector>, entry: nat)
    requires DataOnDisc(fs, |disc|) && |disc'| == |disc| && |tab| == fs.dataClusterCount + 2 && IsChain(fs.kind, tab, ch)
    requires var grown := ch + Picks(tab, ch[|ch| - 1], need);
      forall s | 0 <= s < |disc| && !IsTableSector(fs, s) && !InChain(fs, grown, s) && s != entry :: disc'[s] == disc[s]
    ensures var grown := ch + Picks(tab, ch[|ch| - 1], need);
      forall other | IsChain(fs.kind, tab, other) && Apart(ch, other) && !InChain(fs, other, entry) ::
        && IsChain(fs.kind, AllocTable(fs.kind, tab, ch[|ch| - 1], need), other) && Apart(grown, other)
        && Content(fs, disc', other, Capacity(fs, other)) == Content(fs, disc, other, Capacity(fs, other))
  {
    hide Content, InChain, AllocTable, Picks, Apart, IsChain;
    GrownOnVolume(fs, |disc|, tab, ch, need);
    var last, grown := ch[|ch| - 1], ch + Picks(tab, ch[|ch| - 1], need);
    forall other | IsChain(fs.kind, tab, other) && Apart(ch, other) && !InChain(fs, other, entry)
      ensures IsChain(fs.kind, AllocTable(fs.kind, tab, last, need), other) && Apart(grown, other)
      ensures Content(fs, disc', other, Capacity(fs, other)) == Content(fs, disc, other, Capacity(fs, other))
    {
      OtherChainStays(fs.kind, tab, ch, need, other);
      OtherContentStays(fs, tab, disc, disc', grown, other, entry);
    }
  }

  lemma GrownOnVolume(fs: FileSystem, sectors: nat, tab: seq<nat>, ch: seq<nat>, need: nat)
    requires DataOnDisc(fs, sectors) && |tab| == fs.dataClusterCount + 2 && IsChain(fs.kind, tab, ch)
    ensures |ch| > 0 && 2 <= ch[|ch| - 1] < |tab|
    ensures OnVolume(fs, sectors, ch + Picks(tab, ch[|ch| - 1], need))
  {
    AllocIsChain(fs.kind, tab, ch, need);
    ChainOnVolume(fs, sectors, AllocTable(fs.kind, tab, ch[|ch| - 1], need), ch + Picks(tab, ch[|ch| - 1], need));
  }

  lemma OtherContentStays(fs: FileSystem, tab: seq<nat>, disc: seq<Sector>, disc': seq<Sector>, grown: seq<nat>, other: seq<nat>, entry: nat)
    requires OnVolume(fs, |disc|, grown) && |disc'| == |disc| && |tab| == fs.dataClusterCount + 2
    requires IsChain(fs.kind, tab, other) && Apart(grown, other) && !InChain(fs, other, entry)
    requires forall s | 0 <= s < |disc| && !IsTableSector(fs, s) && !InChain(fs, grown, s) && s != entry :: disc'[s] == disc[s]
    ensures Content(fs, disc', other, Capacity(fs, other)) == Content(fs, disc, other, Capacity(fs, other))
  {
    hide Content, InChain;
    ChainOnVolume(fs, |disc|, tab, other);
    OtherChainUntouched(fs, disc, disc', grown, other, entry, Capacity(fs, other));
  }

  /** A read of the place where a splice lies delivers the data. */
  lemma SpliceIsRead(text: seq<byte>, was: seq<byte>, size: nat, offset: nat, data: seq<byte>, before: seq<byte>, buf: seq<byte>, r: nat)
    requires offset <= |was| && size == Max(|was|, offset + |data|) <= |text| && size < TWO_TO_THE_32
    requires text[..size] == Splice(was, offset, data)
    requires |before| >= |data| && ReadFrom(text, offset, ReadSize(size, offset, |data|), before, buf, r)
    ensures r == |data| && |buf| >= |data| && buf[..|data|] == data
  {
    hide Splice, ReadFrom;
    ReadIsSlice(text, size, offset, |data|, before, buf, r);
    SpliceReadsBack(was, offset, data);
    assert text[offset..offset + |data|] == text[..size][offset..offset + |data|];
  }

  class File {
    const vol: Volume
    const cache: ClusterChain
    var fileSize: nat
    var open: bool
    var writable: bool
    const locationSector: nat
    const locationOffset: nat

    constructor (vol: Volume, cache: ClusterChain, fileSize: nat, writable: bool, locationSector: nat, locationOffset: nat)
      ensures this.vol == vol && this.cache == cache && this.fileSize == fileSize
      ensures open && this.writable == writable && this.locationSector == locationSector && this.locationOffset == locationOffset
    {
      this.vol, this.cache, this.fileSize, open, this.writable := vol, cache, fileSize, true, writable;
      this.locationSector, this.locationOffset := locationSector, locationOffset;
    }

    /** An existing file: size and first cluster are those of its record. */
    constructor Fopen(vol: Volume, locationSector: nat, locationOffset: nat, writable: bool)
      requires locationOffset < 16 && locationSector < |vol.sectors|
      ensures this.vol == vol && open && this.writable == writable && fresh(cache)
      ensures this.locationSector == locationSector && this.locationOffset == locationOffset
      ensures fileSize == SizeOf(RecordIn(vol.sectors[locationSector], locationOffset))
      ensures cache.firstCluster == cache.discCluster == FirstClusterOf(RecordIn(vol.sectors[locationSector], locationOffset))
      ensures cache.logicCluster == cache.lastCluster == cache.linear == cache.clusterCount == 0
    {
      var rec := RecordIn(vol.sectors[locationSector], locationOffset);
      this.vol, fileSize, open, this.writable := vol, SizeOf(rec), true, writable;
      this.locationSector, this.locationOffset := locationSector, locationOffset;
      cache := new ClusterChain(FirstClusterOf(rec));
    }

    /** The chain and the cursor, whatever the size recorded for the file. */
    ghost predicate Backed(ch: seq<nat>)
      reads vol, cache
    {
      && vol.Valid() && DataOnDisc(vol.fs, |vol.sectors|)
      && IsChain(vol.fs.kind, vol.Tab(), ch) && cache.Tracks(ch)
    }

    /** The file's chain is ch, and long enough for its size. */
    ghost predicate Valid(ch: seq<nat>)
      reads this, vol, cache
    {
      Backed(ch) && fileSize <= Capacity(vol.fs, ch) && fileSize < TWO_TO_THE_32
    }

    ghost function Contents(ch: seq<nat>): seq<byte>
      reads this, vol
    {
      Content(vol.fs, vol.sectors, ch, fileSize)
    }

    /** The sector that holds byte `position` of the file, found through the cursor; 0 stands for the end of the chain. */
    method Seek(position: nat, ghost ch: seq<nat>) returns (found: bool, sector: nat)
      requires vol.Valid() && DataOnDisc(vol.fs, |vol.sectors|)
      requires IsChain(vol.fs.kind, vol.Tab(), ch) && cache.Tracks(ch)
      modifies cache
      ensures cache.Tracks(ch) && cache.clusterCount == old(cache.clusterCount)
      ensures found <==> position < Capacity(vol.fs, ch)
      ensures found ==>
        && Quot(position / 512, vol.fs.sectorsPerCluster) < |ch|
        && sector == SectorOf(vol.fs, ch, position / 512)
        && position / 512 < |ch| * vol.fs.sectorsPerCluster
    {
      var spc := vol.fs.sectorsPerCluster;
      DivTwice(position, spc);
      SeekRange(position, |ch|, spc);
      var cclus := position / (512 * spc);
      var csec := Rem(position / 512, spc);
      var r := vol.LogicToDiscCluster(cache, cclus, ch);
      if r != 0 {
        return false, 0;
      }
      return true, ClusterToSector(vol.fs, cache.discCluster) + csec;
    }

    /** One round of a read: bytes of one sector are copied to the caller's buffer. */
    method CopyOut(buf: array<byte>, done: nat, n: nat, sector: nat, from: nat)
      requires sector < |vol.sectors| && from + n <= 512 && done + n <= buf.Length
      modifies buf
      ensures buf[..] == old(buf[..done]) + vol.sectors[sector][from..from + n] + old(buf[done + n..])
    {
      forall i | 0 <= i < n {
        buf[done + i] := vol.sectors[sector][from + i];
      }
    }

    /** Everything the chain holds, the unused end of its last cluster included. */
    ghost function Text(ch: seq<nat>): (text: seq<byte>)
      reads vol
      ensures |text| == Capacity(vol.fs, ch)
    {
      Content(vol.fs, vol.sectors, ch, Capacity(vol.fs, ch))
    }

    /** Reads into the front of the caller's buffer; running off the chain gives 0. */
    method Fread(offset: nat, size: nat, buf: array<byte>, ghost ch: seq<nat>) returns (r: nat)
      requires Backed(ch) && buf.Length >= size
      requires fileSize < TWO_TO_THE_32 && offset < TWO_TO_THE_32 && size < TWO_TO_THE_32
      modifies cache, buf
      ensures Backed(ch) && cache.clusterCount == old(cache.clusterCount)
      ensures if open then ReadFrom(Text(ch), offset, ReadSize(fileSize, offset, size), old(buf[..]), buf[..], r)
              else r == 0 && buf[..] == old(buf[..])
    {
      hide Around, Delivered, Content, IsChain;
      if !open {
        return 0;
      }
      var left := ReadSize(fileSize, offset, size);
      if left > 0 {
        r := ReadLoop(offset, left, buf, ch);
      } else {
        r := 0;
      }
    }

    /** State of the read loop after `done` bytes. */
    ghost predicate Reading(offset: nat, done: nat, buf: array<byte>, ch: seq<nat>, was: seq<byte>)
      reads this, vol, cache, buf
    {
      && Backed(ch) && buf.Length == |was| && offset < TWO_TO_THE_32 && (done > 0 ==> WithinReach(offset, done, |Text(ch)|))
      && Delivered(buf[..], was, Around(Text(ch), offset, done))
    }

    method ReadLoop(offset: nat, n: nat, buf: array<byte>, ghost ch: seq<nat>) returns (r: nat)
      requires Backed(ch) && buf.Length >= n > 0 && offset < TWO_TO_THE_32
      modifies cache, buf
      ensures Backed(ch) && cache.clusterCount == old(cache.clusterCount)
      ensures ReadFrom(Text(ch), offset, n, old(buf[..]), buf[..], r)
    {
      hide Reading, ReadFrom, Text, Backed;
      ghost var was := buf[..];
      StartReading(offset, buf, ch);
      var left := n;
      r := 0;
      while left > 0
        invariant Reading(offset, r, buf, ch, was)
        invariant cache.clusterCount == old(cache.clusterCount) && r + left == n
      {
        var btr := ReadRound(offset, r, left, buf, ch, was);
        if btr == 0 {
          EndReading(offset, r, n, buf, ch, was);
          return 0;
        }
        r := r + btr;
        left := left - btr;
      }
      EndReading(offset, r, n, buf, ch, was);
    }

    lemma StartReading(offset: nat, buf: array<byte>, ch: seq<nat>)
      requires Backed(ch) && offset < TWO_TO_THE_32
      ensures Reading(offset, 0, buf, ch, buf[..])
    {
      assert Around(Text(ch), offset, 0) == [];
    }

    lemma EndReading(offset: nat, done: nat, n: nat, buf: array<byte>, ch: seq<nat>, was: seq<byte>)
      requires Reading(offset, done, buf, ch, was) && 0 < n
      requires done == n || (done < n && Add32(offset, done) >= |Text(ch)|)
      ensures Backed(ch)
      ensures ReadFrom(Text(ch), offset, n, was, buf[..], if done == n then n else 0)
    {
      hide Content, IsChain, DataOnDisc;
      if done < n {
        UpToTheEnd(Text(ch), offset, done);
      }
    }

    /** One round of the read loop: 0 when the chain ends. */
    method ReadRound(offset: nat, done: nat, left: nat, buf: array<byte>, ghost ch: seq<nat>, ghost was: seq<byte>) returns (btr: nat)
      requires Reading(offset, done, buf, ch, was) && left > 0 && done + left <= buf.Length
      modifies cache, buf
      ensures Reading(offset, done + btr, buf, ch, was)
      ensures cache.clusterCount == old(cache.clusterCount)
      ensures btr <= left && (btr == 0 ==> Add32(offset, done) >= |Text(ch)|)
    {
      hide Content, Delivered, Around, IsChain, DataOnDisc;
      ghost var before := buf[..];
      btr := CopyRound(Add32(offset, done), done, left, buf, ch);
      if btr > 0 {
        ReadMore(Text(ch), offset, done, btr, before, was, buf[..]);
      }
    }

    /** Up to the end of the sector that holds the position, bytes go to place `done` of the buffer. */
    method CopyRound(position: nat, done: nat, left: nat, buf: array<byte>, ghost ch: seq<nat>) returns (n: nat)
      requires Backed(ch) && left > 0 && done + left <= buf.Length
      modifies cache, buf
      ensures Backed(ch) && cache.clusterCount == old(cache.clusterCount)
      ensures n <= left && position % 512 + n <= 512 && (n == 0 <==> position >= |Text(ch)|)
      ensures if n == 0 then buf[..] == old(buf[..])
              else position + n <= |Text(ch)| && buf[..] == old(buf[..])[..done] + Text(ch)[position..position + n] + old(buf[..])[done + n..]
    {
      hide Content, IsChain, Quot, Rem, ClusterToSector, RoundSize, Capacity;
      RoundFits(position, left);
      ChainOnVolume(vol.fs, |vol.sectors|, vol.Tab(), ch);
      var found, sector := Seek(position, ch);
      if !found {
        return 0;
      }
      n := RoundSize(position, left);
      RoundBytes(vol.fs, vol.sectors, ch, position, n);
      CopyOut(buf, done, n, sector, position % 512);
    }

    // ----- writing

    /** Outside the table and the chain's clusters, the disc is as it was. */
    twostate predicate OthersKept(ch: seq<nat>)
      reads vol
    {
      && |vol.sectors| == |old(vol.sectors)|
      && forall s | 0 <= s < |vol.sectors| && !IsTableSector(vol.fs, s) && !InChain(vol.fs, ch, s) ::
           vol.sectors[s] == old(vol.sectors[s])
    }

    /** State of the write loop after `done` bytes. */
    ghost predicate Writing(offset: nat, done: nat, data: seq<byte>, ch: seq<nat>, text: seq<byte>)
      reads vol, cache
    {
      && Backed(ch) && done <= |data| < TWO_TO_THE_32 && offset < TWO_TO_THE_32 && |text| == |Text(ch)|
      && (done > 0 ==> WithinReach(offset, done, |text|))
      && Written(text, Text(ch), offset, data[..done])
    }

    /** One round of the write loop: 0 when the chain ends. */
    method WriteRound(offset: nat, done: nat, data: seq<byte>, ghost ch: seq<nat>, ghost text: seq<byte>) returns (btr: nat)
      requires Writing(offset, done, data, ch, text) && done < |data|
      modifies vol`sectors, cache
      ensures Backed(ch) && done + btr <= |data| && Writing(offset, done + btr, data, ch, text) && OthersKept(ch)
      ensures vol.Bytes() == old(vol.Bytes()) && cache.clusterCount == old(cache.clusterCount)
      ensures btr == 0 <==> Add32(offset, done) >= |text|
    {
      hide Content, Written, Capacity, Splice, InChain, Quot, Rem, ClusterToSector;
      var position := Add32(offset, done);
      RoundFits(position, |data| - done);
      ChainOnVolume(vol.fs, |vol.sectors|, vol.Tab(), ch);
      var found, sector := Seek(position, ch);
      if !found {
        return 0;
      }
      btr := RoundSize(position, |data| - done);
      var bytes := data[done..done + btr];
      ghost var before := Text(ch);
      SectorWithin(vol.fs, |vol.sectors|, ch, position / 512);
      SectorOfIsInChain(vol.fs, ch, position / 512);
      StoreInText(vol.fs, vol.sectors, ch, position, bytes);
      vol.StoreBytes(sector, position % 512, bytes);
      ReachMore(offset, done, btr, |text|);
      WriteMore(text, before, Text(ch), offset, data, done, btr);
    }

    method WriteLoop(offset: nat, data: seq<byte>, ghost ch: seq<nat>) returns (done: nat)
      requires Backed(ch) && offset < TWO_TO_THE_32 && |data| < TWO_TO_THE_32
      modifies vol`sectors, cache
      ensures Backed(ch) && OthersKept(ch) && vol.Bytes() == old(vol.Bytes())
      ensures cache.clusterCount == old(cache.clusterCount)
      ensures done == WriteSize(offset, |data|, |Text(ch)|)
      ensures Written(old(Text(ch)), Text(ch), offset, data[..done])
    {
      hide Writing, Written, Text, WriteSize, InChain, IsChain;
      ghost var text := Text(ch);
      done := 0;
      StartWriting(offset, data, ch);
      while done < |data|
        invariant Backed(ch) && done <= |data| && Writing(offset, done, data, ch, text) && OthersKept(ch)
        invariant vol.Bytes() == old(vol.Bytes()) && cache.clusterCount == old(cache.clusterCount)
      {
        var btr := WriteRound(offset, done, data, ch, text);
        if btr == 0 {
          EndWriting(offset, done, data, ch, text);
          return;
        }
        done := done + btr;
      }
      EndWriting(offset, done, data, ch, text);
    }

    lemma StartWriting(offset: nat, data: seq<byte>, ch: seq<nat>)
      requires Backed(ch) && offset < TWO_TO_THE_32 && |data| < TWO_TO_THE_32
      ensures |Text(ch)| == Capacity(vol.fs, ch) && Writing(offset, 0, data, ch, Text(ch))
    {
      hide Content;
      assert Laid(Text(ch), offset, []) == Text(ch);
    }

    lemma EndWriting(offset: nat, done: nat, data: seq<byte>, ch: seq<nat>, text: seq<byte>)
      requires Writing(offset, done, data, ch, text)
      requires done == |data| || (done < |data| && Add32(offset, done) >= |text|)
      ensures Backed(ch) && done <= |data| && |text| == |Text(ch)|
      ensures done == WriteSize(offset, |data|, |text|) && Written(text, Text(ch), offset, data[..done])
    {
      hide Written, Content, IsChain, DataOnDisc;
    }

    /** Clusters missing for a write; a count learned on the way is remembered. */
    method RequiredCluster(offset: nat, size: nat, ghost ch: seq<nat>) returns (need: nat)
      requires Backed(ch)
      modifies cache`clusterCount
      ensures Backed(ch) && cache.KnownCount(ch) == old(cache.KnownCount(ch)) && (need > 0 ==> cache.clusterCount != 0)
      ensures need == RequiredFor(fileSize, offset, size, old(cache.KnownCount(ch)), ClusterSize(vol.fs))
    {
      var cs := 512 * vol.fs.sectorsPerCluster;
      if Add32(offset, size) <= fileSize {
        return 0;
      }
      var hc := cache.clusterCount;
      if hc == 0 {
        hc := vol.CountClustersInChain(cache.firstCluster, ch);
        cache.clusterCount := hc;
      }
      if Add32(Sub32(size, fileSize), offset) > Mul32(Sub32(hc, Quot(Add32(fileSize, cs - 1), cs)), cs) {
        return Quot(Add32(Sub32(Add32(offset, size), Mul32(hc, cs)), cs - 1), cs);
      }
      return 0;
    }

    /** Clusters missing for the write are requested. */
    method Grow(offset: nat, size: nat, ghost ch: seq<nat>) returns (granted: bool)
      requires Backed(ch)
      modifies vol`sectors, vol`freeClusterCount, cache
      ensures var need := RequiredFor(fileSize, offset, size, old(cache.KnownCount(ch)), ClusterSize(vol.fs));
        var tab, last := old(vol.Tab()), ch[|ch| - 1];
        && Backed(ch + Picks(tab, last, need))
        && vol.Tab() == AllocTable(vol.fs.kind, tab, last, need)
        && vol.OnlyTableChanged()
        && granted == Granted(tab, last, need)
        && (old(cache.CountsRight(ch)) ==> (cache.CountsRight(ch + Picks(tab, last, need)) <==> CountKept(tab, need)))
    {
      hide RequiredFor, AllocTable, CountFree, Claimed, Table, TableBytes, ToInt16, Picks;
      ghost var tab, last := vol.Tab(), ch[|ch| - 1];
      var need := RequiredCluster(offset, size, ch);
      if need == 0 {
        NothingNeeded(vol.fs.kind, tab, ch);
        return true;
      }
      var r := vol.AllocClusterChain(cache, need + CLUSTER_PREALLOC_FILE, ch);
      AllocIsChain(vol.fs.kind, tab, ch, need);
      return r == 0;
    }

    /** The directory entry lies outside the table, the file's clusters and every free cluster. */
    ghost predicate EntryApart(ch: seq<nat>)
      reads vol
      requires vol.Valid()
    {
      && locationOffset < 16 && locationSector < |vol.sectors| && !IsTableSector(vol.fs, locationSector)
      && SectorApart(vol.fs, vol.Tab(), ch, locationSector)
    }

    /** The file's directory record. */
    ghost function DirEntry(): Record
      requires locationOffset < 16 && locationSector < |vol.sectors|
      reads vol
    {
      RecordIn(vol.sectors[locationSector], locationOffset)
    }

    /** The size is recorded in the directory record, and nothing else is changed. */
    method RecordSize(ghost ch: seq<nat>)
      requires Backed(ch) && locationOffset < 16 && locationSector < |vol.sectors| && fileSize < TWO_TO_THE_32
      requires !IsTableSector(vol.fs, locationSector) && !InChain(vol.fs, ch, locationSector)
      modifies vol`sectors
      ensures Backed(ch) && Text(ch) == old(Text(ch)) && vol.Bytes() == old(vol.Bytes())
      ensures |vol.sectors| == |old(vol.sectors)|
      ensures forall s | 0 <= s < |vol.sectors| && s != locationSector :: vol.sectors[s] == old(vol.sectors[s])
      ensures SizeRecorded(old(vol.sectors[locationSector]), vol.sectors[locationSector], locationOffset, fileSize)
    {
      hide SizeRecorded, Content, InChain;
      ghost var disc := vol.sectors;
      vol.StoreBytes(locationSector, 32 * locationOffset + 28, Little32(fileSize));
      StoredIsRecorded(disc[locationSector], locationOffset, fileSize);
      ChainOnVolume(vol.fs, |disc|, vol.Tab(), ch);
      UnrelatedSector(vol.fs, disc, vol.sectors, ch, locationSector);
    }

    /** Outside the table, the chain's clusters and the directory entry's sector, the disc is as it was. */
    twostate predicate OnlyFileChanged(ch: seq<nat>)
      reads vol
    {
      && |vol.sectors| == |old(vol.sectors)|
      && forall s | 0 <= s < |vol.sectors| && !IsTableSector(vol.fs, s) && !InChain(vol.fs, ch, s) && s != locationSector ::
           vol.sectors[s] == old(vol.sectors[s])
    }

    /** The chain a write works on. */
    ghost function GrownChain(ch: seq<nat>, offset: nat, size: nat): seq<nat>
      requires Backed(ch)
      reads this, vol, cache
    {
      ch + Picks(vol.Tab(), ch[|ch| - 1], Need(ch, offset, size))
    }

    ghost function Need(ch: seq<nat>, offset: nat, size: nat): nat
      requires vol.fs.sectorsPerCluster > 0
      reads this, cache
    {
      RequiredFor(fileSize, Min(offset, fileSize), size, cache.KnownCount(ch), ClusterSize(vol.fs))
    }

    /** The write fits: it starts within the file, stays within 32 bits, and the chain
        and the free clusters have room for it. */
    ghost predicate WriteFits(ch: seq<nat>, offset: nat, size: nat)
      reads this, vol, cache
    {
      var cs := ClusterSize(vol.fs);
      && Valid(ch) && cache.CountsRight(ch) && offset <= fileSize && Capacity(vol.fs, ch) < TWO_TO_THE_32
      && fileSize + cs <= TWO_TO_THE_32 && offset + size + cs <= TWO_TO_THE_32
      && offset + size <= (|ch| + CountFree(vol.Tab(), 2, |vol.Tab()| - 1)) * cs
    }

    /**
     Writing within the file where there is room lays the data over the file's
     bytes, and leaves the file ready for the next call. Other files keep their
     chains, their bytes and their distance, whatever comes of the write.
     */
    method Fwrite(offset: nat, data: seq<byte>, ghost ch: seq<nat>) returns (r: nat, ghost granted: bool)
      requires Backed(ch) && EntryApart(ch)
      requires fileSize < TWO_TO_THE_32 && offset < TWO_TO_THE_32 && |data| < TWO_TO_THE_32
      modifies this`fileSize, vol`sectors, vol`freeClusterCount, cache
      ensures !(open && writable) ==> r == 0 && fileSize == old(fileSize) && vol.sectors == old(vol.sectors)
      ensures open && writable ==> WroteTo(ch, offset, data, r, granted) && fileSize < TWO_TO_THE_32
      ensures open && writable ==>
        EntryApart(old(GrownChain(ch, offset, |data|))) && OtherFilesKept(ch, old(GrownChain(ch, offset, |data|)))
      ensures open && writable && old(WriteFits(ch, offset, |data|)) ==>
        && r == |data| && fileSize == Max(old(fileSize), offset + |data|)
        && vol.sectors[locationSector] == old(vol.sectors[locationSector])
        && Valid(old(GrownChain(ch, offset, |data|))) && cache.CountsRight(old(GrownChain(ch, offset, |data|)))
        && Contents(old(GrownChain(ch, offset, |data|))) == Splice(old(Contents(ch)), offset, data)
        && FileRuns.Wrote(vol.fs, old(vol.Tab()), old(vol.sectors), FileRuns.FileState(ch, old(fileSize)), old(Need(ch, offset, |data|)),
                          vol.Tab(), vol.sectors, FileRuns.FileState(old(GrownChain(ch, offset, |data|)), fileSize), offset, data)
    {
      hide Content, Written, IsChain, WriteOutcome, RequiredFor, Granted, Claimed, CountFree, Splice, AllocTable, Picks, InChain, LiesIn, Apart, CountKept, SectorApart, FileRuns.Wrote, SizeRecorded;
      ghost var fits, was := WriteFits(ch, offset, |data|), vol.sectors;
      ghost var size, tab, need := fileSize, vol.Tab(), Need(ch, offset, |data|);
      ghost var last, grown := ch[|ch| - 1], GrownChain(ch, offset, |data|);
      r, granted := WriteAt(offset, data, ch);
      if open && writable {
        EntryStaysApart(vol.fs, tab, ch, need, locationSector);
        OtherFilesStay(vol.fs, tab, ch, need, was, vol.sectors, locationSector);
        OtherEntriesStay(vol.fs, tab, ch, need);
        if fits {
          FittingWrite(vol.fs, tab, ch, need, was, vol.sectors, size, fileSize, offset, data, r);
          EnoughIsKept(vol.fs, tab, ch, need, size, offset, |data|);
          FitIsWrote(vol.fs, tab, was, ch, size, need, vol.sectors, fileSize, offset, data);
        }
      }
    }

    /** What a write leaves behind, whether or not there was room. */
    twostate predicate WroteTo(ch: seq<nat>, offset: nat, data: seq<byte>, r: nat, granted: bool)
      requires old(Backed(ch)) && old(EntryApart(ch))
      reads this, vol, cache
    {
      var ch', need, tab := old(GrownChain(ch, offset, |data|)), old(Need(ch, offset, |data|)), old(vol.Tab());
      && Backed(ch') && OnlyFileChanged(ch')
      && vol.Tab() == AllocTable(vol.fs.kind, tab, ch[|ch| - 1], need)
      && granted == Granted(tab, ch[|ch| - 1], need)
      && (if granted && r < |data| then SizeRecorded(old(vol.sectors[locationSector]), vol.sectors[locationSector], locationOffset, fileSize)
          else vol.sectors[locationSector] == old(vol.sectors[locationSector]))
      && WriteOutcome(old(Text(GrownChain(ch, offset, |data|))), Text(ch'), old(fileSize), fileSize, offset, data, granted, r)
      && (old(cache.CountsRight(ch)) ==> (cache.CountsRight(ch') <==> CountKept(tab, need)))
    }

    /** A chain of another file, whose clusters are not those of this one and hold not its record, is
        still a chain, has none of the clusters added, and holds the same bytes; and a record's sector
        that lay apart from a chain and the free clusters still does. */
    twostate predicate OtherFilesKept(ch: seq<nat>, grown: seq<nat>)
      requires old(vol.Valid()) && vol.Valid()
      reads this, vol
    {
      && (forall other | old(IsChain(vol.fs.kind, vol.Tab(), other)) && Apart(ch, other) && !InChain(vol.fs, other, locationSector) ::
            && IsChain(vol.fs.kind, vol.Tab(), other) && Apart(grown, other)
            && Content(vol.fs, vol.sectors, other, Capacity(vol.fs, other)) == old(Content(vol.fs, vol.sectors, other, Capacity(vol.fs, other))))
      && (forall other, s | old(SectorApart(vol.fs, vol.Tab(), other, s)) :: SectorApart(vol.fs, vol.Tab(), other, s))
    }

    /**
     Writes at the offset. Clusters are requested for the offset cut at the
     file's size, but the bytes go where the caller said.
     */
    method WriteAt(offset: nat, data: seq<byte>, ghost ch: seq<nat>) returns (r: nat, ghost granted: bool)
      requires Backed(ch) && EntryApart(ch)
      requires fileSize < TWO_TO_THE_32 && offset < TWO_TO_THE_32 && |data| < TWO_TO_THE_32
      modifies this`fileSize, vol`sectors, vol`freeClusterCount, cache
      ensures !(open && writable) ==> r == 0 && fileSize == old(fileSize) && vol.sectors == old(vol.sectors)
      ensures open && writable ==> WroteTo(ch, offset, data, r, granted) && fileSize < TWO_TO_THE_32
      ensures open && writable && r == |data| ==> OthersKept(old(GrownChain(ch, offset, |data|)))
    {
      hide InChain, LiesIn, Content, Written, AllocTable, Picks, Granted, Claimed, RequiredFor, Table, TableBytes, CountKept, SizeRecorded;
      granted := false;
      if !open || !writable {
        return 0, false;
      }
      ghost var grown := GrownChain(ch, offset, |data|);
      ghost var tab, need := vol.Tab(), Need(ch, offset, |data|);
      GrownApart(ch, offset, |data|);
      var cut := Min(offset, fileSize);
      var ok := Grow(cut, |data|, ch);
      granted := ok;
      ghost var disc := vol.sectors;
      ContentIgnoresTable(vol.fs, old(vol.sectors), disc, vol.Tab(), grown);
      if !ok {
        return 0, granted;
      }
      r := WriteLoop(offset, data, grown);
      if r < |data| {
        fileSize := Add32(fileSize, r);
        RecordSize(grown);
        return r, granted;
      }
      if r > fileSize - cut {
        fileSize := Add32(fileSize, r - (fileSize - cut));
      }
    }

    lemma EntryNotInChain(ch: seq<nat>)
      requires Backed(ch) && EntryApart(ch)
      ensures !InChain(vol.fs, ch, locationSector)
    {
      forall i | 0 <= i < |ch| ensures !LiesIn(vol.fs, ch[i], locationSector) {
        assert ch[i] in ch;
      }
    }

    lemma GrownApart(ch: seq<nat>, offset: nat, size: nat)
      requires Backed(ch) && EntryApart(ch)
      ensures !InChain(vol.fs, GrownChain(ch, offset, size), locationSector)
    {
      var grown := GrownChain(ch, offset, size);
      var last := ch[|ch| - 1];
      ChainIsUsed(vol.fs.kind, vol.Tab(), ch);
      ScanMembers(vol.Tab(), last);
      forall i | 0 <= i < |grown| ensures !LiesIn(vol.fs, grown[i], locationSector) {
        if i < |ch| {
          assert ch[i] in ch;
        } else {
          assert grown[i] == Scan(vol.Tab(), last)[i - |ch|];
        }
      }
    }

    /** A file opened for writing has its size recorded; then the object is cleared. */
    method Fclose(ghost ch: seq<nat>)
      requires Backed(ch) && EntryApart(ch) && fileSize < TWO_TO_THE_32
      modifies this, vol`sectors, cache
      ensures !open && !writable && fileSize == 0
      ensures vol.Valid() && vol.Bytes() == old(vol.Bytes()) && Text(ch) == old(Text(ch)) && |vol.sectors| == |old(vol.sectors)|
      ensures forall s | 0 <= s < |vol.sectors| && s != locationSector :: vol.sectors[s] == old(vol.sectors[s])
      ensures if old(writable) then SizeRecorded(old(vol.sectors[locationSector]), vol.sectors[locationSector], locationOffset, old(fileSize))
              else vol.sectors[locationSector] == old(vol.sectors[locationSector])
    {
      hide SizeRecorded, Content, InChain, LiesIn;
      if writable {
        EntryNotInChain(ch);
        RecordSize(ch);
      }
      cache.Clear();
      fileSize, open, writable := 0, false, false;
    }

    /** The write and then a read of the same place: the caller's buffer holds the data again. */
    method WriteThenRead(offset: nat, data: seq<byte>, buf: array<byte>, ghost ch: seq<nat>) returns (r: nat)
      requires Backed(ch) && EntryApart(ch) && open && writable && buf.Length >= |data|
      requires WriteFits(ch, offset, |data|)
      modifies this`fileSize, vol`sectors, vol`freeClusterCount, cache, buf
      ensures r == |data| && buf[..|data|] == data
      ensures Valid(old(GrownChain(ch, offset, |data|))) && EntryApart(old(GrownChain(ch, offset, |data|)))
    {
      hide Content, WroteTo, OtherFilesKept, Splice, SectorApart, FileRuns.Wrote, Picks, Need, ReadFrom;
      ghost var grown, was := GrownChain(ch, offset, |data|), Contents(ch);
      var w, _ := Fwrite(offset, data, ch);
      ghost var before := buf[..];
      r := Fread(offset, |data|, buf, grown);
      ContentPrefix(vol.fs, vol.sectors, grown, fileSize, Capacity(vol.fs, grown));
      SpliceIsRead(Text(grown), was, fileSize, offset, data, before, buf[..], r);
    }

    /** Closed and opened again, a file has the size and the contents it had: they are those of its record and its clusters. */
    method CloseThenOpen(ghost ch: seq<nat>) returns (again: File)
      requires Valid(ch) && EntryApart(ch) && writable && FirstClusterOf(DirEntry()) == ch[0]
      modifies this, vol`sectors, cache
      ensures fresh(again) && fresh(again.cache) && again.vol == vol && again.open
      ensures again.locationSector == locationSector && again.locationOffset == locationOffset
      ensures again.Valid(ch) && again.EntryApart(ch)
      ensures again.fileSize == old(fileSize) && again.Contents(ch) == old(Contents(ch))
      ensures NameOf(again.DirEntry()) == old(NameOf(DirEntry())) && AttributeOf(again.DirEntry()) == old(AttributeOf(DirEntry()))
      ensures FirstClusterOf(again.DirEntry()) == ch[0]
    {
      hide Content, SizeOf, FirstClusterOf, IsChain, SectorApart, RecordIn;
      ghost var disc, was, size := vol.sectors, vol.sectors[locationSector], fileSize;
      ContentPrefix(vol.fs, disc, ch, size, Capacity(vol.fs, ch));
      Fclose(ch);
      ContentPrefix(vol.fs, vol.sectors, ch, size, Capacity(vol.fs, ch));
      RecordedKeeps(was, vol.sectors[locationSector], locationOffset, size);
      again := new File.Fopen(vol, locationSector, locationOffset, true);
      StartTracking(again.cache, ch);
    }

    lemma StartTracking(cursor: ClusterChain, ch: seq<nat>)
      requires ch != [] && cursor.firstCluster == cursor.discCluster == ch[0]
      requires cursor.logicCluster == cursor.lastCluster == cursor.linear == 0
      ensures cursor.Tracks(ch)
    {}

    /** Written, closed and opened again, the file has the new size and contents. */
    method WriteCloseOpen(offset: nat, data: seq<byte>, ghost ch: seq<nat>) returns (again: File)
      requires Backed(ch) && EntryApart(ch) && open && writable && WriteFits(ch, offset, |data|)
      requires FirstClusterOf(DirEntry()) == ch[0]
      modifies this, vol`sectors, vol`freeClusterCount, cache
      ensures fresh(again) && again.vol == vol && again.open
      ensures var grown := old(GrownChain(ch, offset, |data|));
        && again.Valid(grown) && again.EntryApart(grown)
        && again.fileSize == Max(old(fileSize), offset + |data|)
        && again.Contents(grown) == Splice(old(Contents(ch)), offset, data)
    {
      hide Content, WroteTo, OtherFilesKept, Splice, SectorApart, RecordIn, FirstClusterOf, FileRuns.Wrote, Picks, Need;
      ghost var grown := GrownChain(ch, offset, |data|);
      var _, _ := Fwrite(offset, data, ch);
      again := CloseThenOpen(grown);
    }
  }
}
