/** Directory records in cluster chains: searching, writing and listing them. */
module Directories {
  import opened Types
  import opened FatTable
  import opened Chains
  import opened Geometry
  import opened FatVolume
  import opened FileBytes
  import opened DirectoryRecords

  datatype Mode = FindFile | FindFree

  predicate Matches(r: Record, name: Name) { !IsLongName(r) && NameOf(r) == name }

  predicate IsFree(r: Record) { !IsLongName(r) && (r[0] == 0 || r[0] == 0xE5) }

  predicate Hit(r: Record, name: Name, mode: Mode) {
    match mode
    case FindFile => Matches(r, name)
    case FindFree => IsFree(r)
  }

  function HitCode(r: Record, mode: Mode): nat {
    match mode
    case FindFile => FoundCluster(r)
    case FindFree => 1
  }

  /** Record e of a directory, counted along its chain; beyond its end, an empty one. */
  function RecordOf(fs: FileSystem, disc: seq<Sector>, ch: seq<nat>, e: nat): Record {
    if fs.sectorsPerCluster > 0 && Quot(e / 16, fs.sectorsPerCluster) < |ch| && 2 <= ch[Quot(e / 16, fs.sectorsPerCluster)]
       && SectorOf(fs, ch, e / 16) < |disc|
    then RecordIn(disc[SectorOf(fs, ch, e / 16)], e % 16)
    else seq(32, _ => 0)
  }

  /** All records of a directory in disc order. */
  function Records(fs: FileSystem, disc: seq<Sector>, ch: seq<nat>): (rs: seq<Record>)
    ensures |rs| == 16 * (|ch| * fs.sectorsPerCluster)
  {
    seq(16 * (|ch| * fs.sectorsPerCluster), (e: nat) requires e < 16 * (|ch| * fs.sectorsPerCluster) => RecordOf(fs, disc, ch, e))
  }

  /** The first record from i on that is hit; |rs| when there is none. */
  function FirstHit(rs: seq<Record>, name: Name, mode: Mode, i: nat): (e: nat)
    requires i <= |rs|
    ensures i <= e <= |rs| && (e < |rs| ==> Hit(rs[e], name, mode))
    ensures forall j | i <= j < e :: !Hit(rs[j], name, mode)
    decreases |rs| - i
  {
    if i == |rs| || Hit(rs[i], name, mode) then i else FirstHit(rs, name, mode, i + 1)
  }

  ghost predicate NoHit(rs: seq<Record>, from: nat, to: nat, name: Name, mode: Mode) {
    to <= |rs| && forall j | from <= j < to :: !Hit(rs[j], name, mode)
  }

  /** Nothing is hit before e, and e is hit or the end. */
  lemma FirstHitIs(rs: seq<Record>, name: Name, mode: Mode, i: nat, e: nat)
    requires i <= e <= |rs| && (e < |rs| ==> Hit(rs[e], name, mode)) && NoHit(rs, i, e, name, mode)
    ensures FirstHit(rs, name, mode, i) == e
  {}

  lemma NoHitJoins(rs: seq<Record>, from: nat, mid: nat, to: nat, name: Name, mode: Mode)
    requires from <= mid <= to && NoHit(rs, from, mid, name, mode) && NoHit(rs, mid, to, name, mode)
    ensures NoHit(rs, from, to, name, mode)
  {}

  lemma NothingIsHit(rs: seq<Record>, name: Name, mode: Mode)
    ensures NoHit(rs, 0, 0, name, mode)
  {}

  /** Where a record was found. */
  datatype FileLocation = FileLocation(sector: nat, offset: nat, attrib: byte)

  method FindInBuf(s: Sector, name: Name, mode: Mode) returns (r: nat, c: nat)
    ensures c <= 16 && (r == 0 <==> c == 16)
    ensures c < 16 ==> Hit(RecordIn(s, c), name, mode) && r == HitCode(RecordIn(s, c), mode)
    ensures forall j | 0 <= j < c :: !Hit(RecordIn(s, j), name, mode)
  {
    c := 0;
    while c < 16
      invariant c <= 16
      invariant forall j | 0 <= j < c :: !Hit(RecordIn(s, j), name, mode)
    {
      if Hit(RecordIn(s, c), name, mode) {
        return HitCode(RecordIn(s, c), mode), c;
      }
      c := c + 1;
    }
    return 0, 16;
  }

  /** The records of sector q of the directory. */
  lemma RecordsOfSector(fs: FileSystem, disc: seq<Sector>, ch: seq<nat>, q: nat)
    requires OnVolume(fs, |disc|, ch) && q < |ch| * fs.sectorsPerCluster
    ensures Quot(q, fs.sectorsPerCluster) < |ch| && IsCluster(fs, ch[Quot(q, fs.sectorsPerCluster)]) && SectorOf(fs, ch, q) < |disc|
    ensures forall e | 16 * q <= e < 16 * q + 16 :: Records(fs, disc, ch)[e] == RecordIn(disc[SectorOf(fs, ch, q)], e - 16 * q)
  {
    hide Quot, Rem, ClusterToSector;
    SectorWithin(fs, |disc|, ch, q);
  }

  /** A search of the buffer of sector q is a search of the directory's records from 16 q on. */
  lemma BufferShowsRecords(rs: seq<Record>, s: Sector, q: nat, o: nat, name: Name, mode: Mode)
    requires 16 * q + 16 <= |rs| && o <= 16
    requires forall e | 16 * q <= e < 16 * q + 16 :: rs[e] == RecordIn(s, e - 16 * q)
    requires forall j | 0 <= j < o :: !Hit(RecordIn(s, j), name, mode)
    ensures forall e | 16 * q <= e < 16 * q + o :: !Hit(rs[e], name, mode)
    ensures o < 16 ==> rs[16 * q + o] == RecordIn(s, o) && (16 * q + o) / 16 == q && (16 * q + o) % 16 == o
  {
    hide RecordIn, Hit;
    forall e | 16 * q <= e < 16 * q + o ensures !Hit(rs[e], name, mode) {
      assert rs[e] == RecordIn(s, e - 16 * q);
    }
  }

  lemma SectorInCluster(fs: FileSystem, ch: seq<nat>, k: nat, c: nat)
    requires fs.sectorsPerCluster > 0 && k < |ch| && c < fs.sectorsPerCluster && 2 <= ch[k]
    ensures k * fs.sectorsPerCluster + c < |ch| * fs.sectorsPerCluster
    ensures Quot(k * fs.sectorsPerCluster + c, fs.sectorsPerCluster) == k
    ensures SectorOf(fs, ch, k * fs.sectorsPerCluster + c) == ClusterToSector(fs, ch[k]) + c
  {
    NextMultiple(k, |ch|, fs.sectorsPerCluster);
    DivisionIs(k * fs.sectorsPerCluster + c, fs.sectorsPerCluster, k, c);
  }

  // ----- searching

  class Directory {
    const vol: Volume

    constructor (vol: Volume)
      ensures this.vol == vol
    {
      this.vol := vol;
    }

    ghost predicate Valid(ch: seq<nat>)
      reads vol
    {
      vol.Valid() && DataOnDisc(vol.fs, |vol.sectors|) && IsChain(vol.fs.kind, vol.Tab(), ch)
    }

    ghost function Entries(ch: seq<nat>): (rs: seq<Record>)
      reads vol
      ensures |rs| == 16 * (|ch| * vol.fs.sectorsPerCluster)
    {
      Records(vol.fs, vol.sectors, ch)
    }

    /** Number of the first record of cluster k. */
    ghost function FirstOf(k: nat): nat { 16 * (k * vol.fs.sectorsPerCluster) }

    /** Searches cluster k of the directory; `at` is the record found, or the first one behind the cluster. */
    method FindInCluster(cluster: nat, name: Name, mode: Mode, ghost k: nat, ghost ch: seq<nat>)
      returns (r: nat, loc: FileLocation, ghost at: nat)
      requires Valid(ch) && k < |ch| && cluster == ch[k]
      ensures FirstOf(k) <= at <= FirstOf(k + 1) <= |Entries(ch)| && (r == 0 <==> at == FirstOf(k + 1))
      ensures NoHit(Entries(ch), FirstOf(k), at, name, mode)
      ensures r != 0 ==> Found(ch, name, mode, at, r, loc)
    {
      hide Quot, ClusterToSector, Hit, HitCode, Records, RecordIn, IsChain, SectorOf;
      ghost var rs, n := Entries(ch), vol.fs.sectorsPerCluster;
      ChainOnVolume(vol.fs, |vol.sectors|, vol.Tab(), ch);
      NextMultiple(k, |ch|, n);
      assert (k + 1) * n == k * n + n;
      loc := FileLocation(0, 0, 0);
      ghost var q := k * n;
      at := 16 * q;
      var c := 0;
      while c < vol.fs.sectorsPerCluster
        invariant c <= n && at == 16 * (q + c)
        invariant NoHit(rs, 16 * q, at, name, mode)
      {
        SectorInCluster(vol.fs, ch, k, c);
        RecordsOfSector(vol.fs, vol.sectors, ch, q + c);
        var sector := ClusterToSector(vol.fs, cluster) + c;
        var o;
        r, o := FindInBuf(vol.sectors[sector], name, mode);
        BufferShowsRecords(rs, vol.sectors[sector], q + c, o, name, mode);
        at := 16 * (q + c) + o;
        if r != 0 {
          loc := FileLocation(sector, o, if mode == FindFile then AttributeOf(RecordIn(vol.sectors[sector], o)) else 0);
          return;
        }
        c := c + 1;
      }
      r := 0;
    }

    /** The location and the code describe record `at`, which is hit. */
    ghost predicate Found(ch: seq<nat>, name: Name, mode: Mode, at: nat, r: nat, loc: FileLocation)
      reads vol
    {
      && vol.fs.sectorsPerCluster > 0 && at < |Entries(ch)|
      && Quot(at / 16, vol.fs.sectorsPerCluster) < |ch| && 2 <= ch[Quot(at / 16, vol.fs.sectorsPerCluster)]
      && Hit(Entries(ch)[at], name, mode) && r == HitCode(Entries(ch)[at], mode)
      && loc == FileLocation(SectorOf(vol.fs, ch, at / 16), at % 16,
                             if mode == FindFile then AttributeOf(Entries(ch)[at]) else 0)
    }

    lemma FoundIsHit(ch: seq<nat>, name: Name, mode: Mode, at: nat, r: nat, loc: FileLocation)
      requires Found(ch, name, mode, at, r, loc)
      ensures at < |Entries(ch)| && Hit(Entries(ch)[at], name, mode)
    {}

    /** Searches the directory along its chain: the first record hit, or 0. */
    method FindInDir(name: Name, firstCluster: nat, mode: Mode, ghost ch: seq<nat>)
      returns (r: nat, loc: FileLocation)
      requires Valid(ch) && firstCluster == ch[0]
      ensures var rs := Entries(ch);
        var at := FirstHit(rs, name, mode, 0);
        if at < |rs| then r != 0 && Found(ch, name, mode, at, r, loc) else r == 0
    {
      hide Hit, HitCode, Records, Found, FirstHit, NoHit;
      ghost var rs := Entries(ch);
      NothingIsHit(rs, name, mode);
      var cache := new ClusterChain(firstCluster);
      var c := 1;
      loc := FileLocation(0, 0, 0);
      var more := vol.LogicToDiscCluster(cache, 0, ch);
      while more == 0
        invariant cache.Tracks(ch) && 1 <= c <= |ch| + 1
        invariant more == if c <= |ch| then 0 else -1
        invariant more == 0 ==> cache.logicCluster == c - 1 && cache.discCluster == ch[c - 1]
        invariant more != 0 ==> cache.logicCluster < c
        invariant FirstOf(c - 1) <= |rs| && NoHit(rs, 0, FirstOf(c - 1), name, mode)
        decreases |ch| + 1 - c
      {
        ghost var at;
        r, loc, at := FindInCluster(cache.discCluster, name, mode, c - 1, ch);
        NoHitJoins(rs, 0, FirstOf(c - 1), at, name, mode);
        if r != 0 {
          FoundIsHit(ch, name, mode, at, r, loc);
          FirstHitIs(rs, name, mode, 0, at);
          return;
        }
        more := vol.LogicToDiscCluster(cache, c, ch);
        c := c + 1;
      }
      r := 0;
      FirstHitIs(rs, name, mode, 0, |rs|);
    }

    /** The location is that of record `at`. */
    ghost predicate Locates(loc: FileLocation, at: nat, ch: seq<nat>)
      reads vol
    {
      && vol.fs.sectorsPerCluster > 0 && at < |Entries(ch)| && loc.offset == at % 16
      && Quot(at / 16, vol.fs.sectorsPerCluster) < |ch| && 2 <= ch[Quot(at / 16, vol.fs.sectorsPerCluster)]
      && loc.sector == SectorOf(vol.fs, ch, at / 16)
    }

    lemma LocatedRecord(loc: FileLocation, at: nat, ch: seq<nat>)
      requires Valid(ch) && Locates(loc, at, ch)
      ensures loc.sector < |vol.sectors| && !IsTableSector(vol.fs, loc.sector)
      ensures RecordIn(vol.sectors[loc.sector], loc.offset) == Entries(ch)[at]
    {
      ChainOnVolume(vol.fs, |vol.sectors|, vol.Tab(), ch);
      SectorWithin(vol.fs, |vol.sectors|, ch, at / 16);
    }

    /** Writes a record where a search has found room for it. */
    method CreateDirectoryEntry(rec: Record, loc: FileLocation, ghost at: nat, ghost ch: seq<nat>)
      requires Valid(ch) && Locates(loc, at, ch)
      modifies vol`sectors
      ensures Valid(ch) && vol.Bytes() == old(vol.Bytes()) && Locates(loc, at, ch)
      ensures Entries(ch) == old(Entries(ch))[at := rec]
    {
      LocatedRecord(loc, at, ch);
      ChainOnVolume(vol.fs, |vol.sectors|, vol.Tab(), ch);
      ghost var disc := vol.sectors;
      vol.StoreBytes(loc.sector, 32 * loc.offset, rec);
      StoreRecord(vol.fs, disc, ch, at, rec);
    }

    /** The record read from its sector. */
    method GetFileStructure(loc: FileLocation, ghost at: nat, ghost ch: seq<nat>) returns (rec: Record)
      requires Valid(ch) && Locates(loc, at, ch)
      ensures rec == Entries(ch)[at]
    {
      LocatedRecord(loc, at, ch);
      rec := RecordIn(vol.sectors[loc.sector], loc.offset);
    }

    /** The two halves of the first cluster, stored in the record's sector. */
    method SetFirstCluster(cluster: nat, loc: FileLocation, ghost at: nat, ghost ch: seq<nat>)
      requires Valid(ch) && Locates(loc, at, ch)
      modifies vol`sectors
      ensures Valid(ch) && vol.Bytes() == old(vol.Bytes()) && Locates(loc, at, ch)
      ensures Entries(ch) == old(Entries(ch))[at := WithFirstCluster(old(Entries(ch))[at], cluster)]
    {
      hide Overwritten, WithFirstCluster, Records, RecordIn, IsChain, Quot, Rem, ClusterToSector;
      LocatedRecord(loc, at, ch);
      ChainOnVolume(vol.fs, |vol.sectors|, vol.Tab(), ch);
      ghost var disc, s := vol.sectors, vol.sectors[loc.sector];
      vol.StoreBytes(loc.sector, 32 * loc.offset + 20, Little16(cluster / 0x1_0000));
      vol.StoreBytes(loc.sector, 32 * loc.offset + 26, Little16(cluster));
      FirstClusterStored(s, loc.offset, cluster);
      assert vol.sectors == disc[loc.sector := Overwritten(s, 32 * loc.offset, WithFirstCluster(RecordIn(s, loc.offset), cluster))];
      StoreRecord(vol.fs, disc, ch, at, WithFirstCluster(RecordIn(s, loc.offset), cluster));
    }

    /** The size, stored in the record's sector. */
    method SetFileSize(n: nat, loc: FileLocation, ghost at: nat, ghost ch: seq<nat>)
      requires Valid(ch) && Locates(loc, at, ch)
      modifies vol`sectors
      ensures Valid(ch) && vol.Bytes() == old(vol.Bytes()) && Locates(loc, at, ch)
      ensures Entries(ch) == old(Entries(ch))[at := WithSize(old(Entries(ch))[at], n)]
    {
      hide Overwritten, WithSize, Records, RecordIn, IsChain, Quot, Rem, ClusterToSector;
      LocatedRecord(loc, at, ch);
      ChainOnVolume(vol.fs, |vol.sectors|, vol.Tab(), ch);
      ghost var disc, s := vol.sectors, vol.sectors[loc.sector];
      vol.StoreBytes(loc.sector, 32 * loc.offset + 28, Little32(n));
      SizeStored(s, loc.offset, n);
      StoreRecord(vol.fs, disc, ch, at, WithSize(RecordIn(s, loc.offset), n));
    }

    /** A new file where room was found: a default record, a first cluster, and its end-of-chain entry. */
    method CreateFile(name: Name, stamp: Stamp, loc: FileLocation, ghost at: nat, ghost ch: seq<nat>) returns (first: nat)
      requires Valid(ch) && Locates(loc, at, ch)
      modifies vol`sectors
      ensures Valid(ch) && Locates(loc, at, ch)
      ensures first == FirstFree(old(vol.Tab()), 2, vol.fs.dataClusterCount)
      ensures vol.Tab() == old(vol.Tab())[first := EocMarker(vol.fs.kind)]
      ensures Entries(ch) == old(Entries(ch))[at := WithFirstCluster(DefaultEntry(name, stamp), first)]
    {
      hide Records, WithFirstCluster, DefaultEntry, Quot, ClusterToSector;
      CreateDirectoryEntry(DefaultEntry(name, stamp), loc, at, ch);
      first := vol.GetNextFreeCluster(2);
      SetFirstCluster(first, loc, at, ch);
      ghost var disc, tab := vol.sectors, vol.Tab();
      vol.BeginChain(first);
      ChainIsUsed(vol.fs.kind, tab, ch);
      ChainFrame(vol.fs.kind, tab, vol.Tab(), ch);
      ChainOnVolume(vol.fs, |disc|, tab, ch);
      RecordsIgnoreTable(vol.fs, disc, vol.sectors, ch);
    }

    /** The file a name finds is deleted: its record is marked, and the entries of its chain are cleared. */
    method RemoveFile(name: Name, parent: nat, ghost ch: seq<nat>, ghost fch: seq<nat>) returns (r: int)
      requires Valid(ch) && parent == ch[0] && (forall c | c in fch :: c !in ch)
      requires var at := FirstHit(Entries(ch), name, FindFile, 0);
        at < |Entries(ch)| ==> IsChain(vol.fs.kind, vol.Tab(), fch) && FirstClusterOf(Entries(ch)[at]) == fch[0]
      modifies vol`sectors, vol`freeClusterCount
      ensures Valid(ch)
      ensures var rs, at := old(Entries(ch)), old(FirstHit(Entries(ch), name, FindFile, 0));
        if at == |rs| then r == -1 && vol.sectors == old(vol.sectors)
        else r == 0 && Entries(ch) == rs[at := MarkedDeleted(rs[at])] && vol.Tab() == Cleared(old(vol.Tab()), fch)
    {
      hide Records, Quot, ClusterToSector, FirstHit, FirstClusterOf, Cleared;
      var found, loc := FindInDir(name, parent, FindFile, ch);
      if found == 0 {
        return -1;
      }
      ghost var at := FirstHit(Entries(ch), name, FindFile, 0);
      var rec := GetFileStructure(loc, at, ch);
      CreateDirectoryEntry(MarkedDeleted(rec), loc, at, ch);
      ghost var disc, tab := vol.sectors, vol.Tab();
      var cache := new ClusterChain(FirstClusterOf(rec));
      vol.UnlinkClusterChain(cache, fch);
      ClearedElsewhere(vol.fs.kind, tab, fch, ch);
      ChainOnVolume(vol.fs, |disc|, tab, ch);
      RecordsIgnoreTable(vol.fs, disc, vol.sectors, ch);
      r := 0;
    }

    /** A file created under a name that was not there is found, with the cluster it was given. */
    method CreateThenFind(name: Name, stamp: Stamp, parent: nat, ghost ch: seq<nat>)
      returns (created: bool, first: nat, r: nat, loc: FileLocation)
      requires Valid(ch) && parent == ch[0] && FirstHit(Entries(ch), name, FindFile, 0) == |Entries(ch)|
      requires vol.fs.dataClusterCount < TWO_TO_THE_32
      modifies vol`sectors
      ensures created <==> old(FirstHit(Entries(ch), name, FindFree, 0) < |Entries(ch)|)
      ensures created ==>
        && Valid(ch) && r == (if first == 0 then 1 else first)
        && first == FirstFree(old(vol.Tab()), 2, vol.fs.dataClusterCount)
        && vol.Tab() == old(vol.Tab())[first := EocMarker(vol.fs.kind)]
    {
      hide FirstHit, Records, WithFirstCluster, DefaultEntry, FirstClusterOf;
      ghost var rs := Entries(ch);
      var room;
      room, loc := FindInDir(name, parent, FindFree, ch);
      first, r := 0, 0;
      if room == 0 {
        return false, 0, 0, loc;
      }
      ghost var at := FirstHit(rs, name, FindFree, 0);
      first := CreateFile(name, stamp, loc, at, ch);
      CreatedIsFound(rs, name, stamp, at, first);
      r, loc := FindInDir(name, parent, FindFile, ch);
      created := true;
    }
  }

  lemma ClearedElsewhere(kind: FatType, tab: seq<nat>, cleared: seq<nat>, ch: seq<nat>)
    requires IsChain(kind, tab, ch) && forall c | c in cleared :: c !in ch
    ensures IsChain(kind, Cleared(tab, cleared), ch)
  {
    ChainFrame(kind, tab, Cleared(tab, cleared), ch);
  }

  /** Outside the data area nothing matters to a directory's records. */
  lemma RecordsIgnoreTable(fs: FileSystem, disc: seq<Sector>, disc': seq<Sector>, ch: seq<nat>)
    requires OnVolume(fs, |disc|, ch) && |disc'| == |disc|
    requires forall s | 0 <= s < |disc| && !IsTableSector(fs, s) :: disc'[s] == disc[s]
    ensures Records(fs, disc', ch) == Records(fs, disc, ch)
  {
    hide Quot, Rem, ClusterToSector;
    var lhs, rhs := Records(fs, disc', ch), Records(fs, disc, ch);
    forall e: nat | e < |lhs| ensures lhs[e] == rhs[e] {
      SectorWithin(fs, |disc|, ch, e / 16);
    }
  }

  /** Setting the first cluster of the record a name finds changes the cluster found and nothing else. */
  lemma SetIsFound(rs: seq<Record>, name: Name, c: nat)
    requires FirstHit(rs, name, FindFile, 0) < |rs| && c < TWO_TO_THE_32
    ensures var at := FirstHit(rs, name, FindFile, 0);
      var rs' := rs[at := WithFirstCluster(rs[at], c)];
      && FirstHit(rs', name, FindFile, 0) == at
      && (HitCode(rs'[at], FindFile) == c <==> c != 0)
  {
    hide WithFirstCluster, FirstClusterOf;
    var at := FirstHit(rs, name, FindFile, 0);
    FirstClusterReadsBack(rs[at], c);
    var rs' := rs[at := WithFirstCluster(rs[at], c)];
    FieldsAreApart(rs[at], c, 0);
    assert Matches(rs'[at], name);
    FirstHitIs(rs', name, FindFile, 0, at);
  }

  /** A file created where there was room, under a name not there before, is found with its cluster; 1 stands for none. */
  lemma CreatedIsFound(rs: seq<Record>, name: Name, stamp: Stamp, at: nat, first: nat)
    requires at == FirstHit(rs, name, FindFree, 0) < |rs| && FirstHit(rs, name, FindFile, 0) == |rs|
    requires first < TWO_TO_THE_32
    ensures var rec := WithFirstCluster(DefaultEntry(name, stamp), first);
      && FirstHit(rs[at := rec], name, FindFile, 0) == at && SizeOf(rec) == 0
      && HitCode(rec, FindFile) == if first == 0 then 1 else first
  {
    hide WithFirstCluster, DefaultEntry, FirstHit, FirstClusterOf;
    var rec := DefaultEntry(name, stamp);
    DefaultIsEmptyFile(name, stamp);
    FirstClusterReadsBack(rec, first);
    FieldsAreApart(rec, first, 0);
    WrittenIsFound(rs, WithFirstCluster(rec, first), name, at);
  }

  /** Storing a record changes that record of the directory only. */
  lemma StoreRecord(fs: FileSystem, disc: seq<Sector>, ch: seq<nat>, at: nat, rec: Record)
    requires OnVolume(fs, |disc|, ch) && at < |Records(fs, disc, ch)|
    ensures Quot(at / 16, fs.sectorsPerCluster) < |ch| && IsCluster(fs, ch[Quot(at / 16, fs.sectorsPerCluster)])
    ensures SectorOf(fs, ch, at / 16) < |disc|
    ensures var s := SectorOf(fs, ch, at / 16);
      Records(fs, disc[s := Overwritten(disc[s], 32 * (at % 16), rec)], ch) == Records(fs, disc, ch)[at := rec]
  {
    hide Quot, Rem, ClusterToSector;
    SectorWithin(fs, |disc|, ch, at / 16);
    var s := SectorOf(fs, ch, at / 16);
    var disc' := disc[s := Overwritten(disc[s], 32 * (at % 16), rec)];
    var lhs, rhs := Records(fs, disc', ch), Records(fs, disc, ch)[at := rec];
    forall e: nat | e < |lhs| ensures lhs[e] == rhs[e] {
      SectorWithin(fs, |disc|, ch, e / 16);
      if e / 16 == at / 16 {
        OverwrittenRecord(disc[s], at % 16, rec, e % 16);
        assert e % 16 == at % 16 ==> e == at;
      } else if SectorOf(fs, ch, e / 16) == s {
        SectorsDistinct(fs, |disc|, ch, e / 16, at / 16);
      }
    }
  }

  /** A record written where there was room, under a name not there before, is the one then found. */
  lemma WrittenIsFound(rs: seq<Record>, rec: Record, name: Name, at: nat)
    requires at == FirstHit(rs, name, FindFree, 0) < |rs|
    requires FirstHit(rs, name, FindFile, 0) == |rs| && Matches(rec, name)
    ensures FirstHit(rs[at := rec], name, FindFile, 0) == at
  {
    FirstHitIs(rs[at := rec], name, FindFile, 0, at);
  }

  // ----- listing

  /** A record that a listing shows. */
  predicate IsListed(r: Record) {
    r[0] != 0 && r[0] != 0xE5 && r[0] != 0x2E && !IsLongName(r)
  }

  /** Every record is exactly one of these: part of a long name, free, a dot record, or listed. */
  lemma RecordIsOneOf(r: Record)
    ensures IsLongName(r) <==> !IsFree(r) && !IsListed(r) && !(r[0] == 0x2E && !IsLongName(r))
    ensures !(IsFree(r) && IsListed(r)) && (r[0] == 0x2E ==> !IsFree(r) && !IsListed(r))
  {}

  /** A deleted record is free for another file, not listed, and not found: a search goes on behind it. */
  lemma DeletedIsGone(rs: seq<Record>, name: Name)
    requires FirstHit(rs, name, FindFile, 0) < |rs| && name[0] != 0xE5
    ensures var at := FirstHit(rs, name, FindFile, 0);
      var rs' := rs[at := MarkedDeleted(rs[at])];
      && IsFree(rs'[at]) && !IsListed(rs'[at])
      && FirstHit(rs', name, FindFile, 0) == FirstHit(rs, name, FindFile, at + 1)
      && FirstHit(rs', name, FindFree, 0) <= at
  {
    var at := FirstHit(rs, name, FindFile, 0);
    var rs', next := rs[at := MarkedDeleted(rs[at])], FirstHit(rs, name, FindFile, at + 1);
    assert rs'[at][0] == NameOf(rs'[at])[0];
    FirstHitIs(rs', name, FindFile, 0, next);
  }

  /** The first record from i on that a listing shows; |rs| when there is none. */
  function NextListed(rs: seq<Record>, i: nat): (e: nat)
    requires i <= |rs|
    ensures i <= e <= |rs| && (e < |rs| ==> IsListed(rs[e]))
    ensures forall j | i <= j < e :: !IsListed(rs[j])
    decreases |rs| - i
  {
    if i == |rs| || IsListed(rs[i]) then i else NextListed(rs, i + 1)
  }

  /** The records that repeated calls yield from i on. */
  function Listing(rs: seq<Record>, i: nat): (es: seq<nat>)
    requires i <= |rs|
    decreases |rs| - i
  {
    var e := NextListed(rs, i);
    if e == |rs| then [] else [e] + Listing(rs, e + 1)
  }

  /** A listing yields every record it should, once, in disc order. */
  lemma {:induction false} ListingIsComplete(rs: seq<Record>, i: nat)
    requires i <= |rs|
    ensures forall k | 0 <= k < |Listing(rs, i)| :: i <= Listing(rs, i)[k] < |rs| && IsListed(rs[Listing(rs, i)[k]])
    ensures forall k, m | 0 <= k < m < |Listing(rs, i)| :: Listing(rs, i)[k] < Listing(rs, i)[m]
    ensures forall j | i <= j < |rs| && IsListed(rs[j]) :: j in Listing(rs, i)
    decreases |rs| - i
  {
    hide IsListed, NextListed;
    var e := NextListed(rs, i);
    if e < |rs| {
      ListingIsComplete(rs, e + 1);
      var rest := Listing(rs, e + 1);
      assert forall j :: j in rest ==> j in [e] + rest;
    }
  }

  /** A name that no deleted, empty or dot record starts with is found exactly when it is listed. */
  lemma FoundIffListed(rs: seq<Record>, name: Name)
    requires name[0] != 0 && name[0] != 0xE5 && name[0] != 0x2E
    ensures FirstHit(rs, name, FindFile, 0) < |rs| <==> exists e :: e in Listing(rs, 0) && e < |rs| && rs[e][..11] == name
    ensures FirstHit(rs, name, FindFile, 0) < |rs| ==> FirstHit(rs, name, FindFile, 0) in Listing(rs, 0)
  {
    ListingIsComplete(rs, 0);
    var at := FirstHit(rs, name, FindFile, 0);
    if at < |rs| {
      assert rs[at][0] == rs[at][..11][0];
    }
  }
}
