/** Listing a directory record by record. */
module Listings {
  import opened Types
  import opened Chains
  import opened Geometry
  import opened FatVolume
  import opened FileBytes
  import opened Directories
  import opened DirectoryRecords

  /** What a listing copies of a record: twelve bytes of name, the last of which is the attribute. */
  datatype ListEntry = ListEntry(fileName: seq<byte>, attribute: byte, fileSize: nat)

  function ListEntryOf(r: Record): ListEntry {
    ListEntry(r[..12], AttributeOf(r), SizeOf(r))
  }

  /** A 16-bit counter. */
  function Next16(x: nat): (r: nat)
    ensures x < 0xFFFF ==> r == x + 1
  {
    (x + 1) % 0x1_0000
  }

  /** The counter behind n entries, from one that stands before the first. */
  function CountedTo(n: nat): nat {
    if n == 0 then 0xFFFF else Next16(CountedTo(n - 1))
  }

  /** Entries are numbered from 0. */
  lemma {:induction false} EntriesAreNumbered(n: nat)
    requires 0 < n <= 0x1_0000
    ensures CountedTo(n) == n - 1
  {
    if n > 1 { EntriesAreNumbered(n - 1); }
  }

  predicate IsValidFileEntry(entry: ListEntry)
    requires |entry.fileName| > 0
  {
    entry.fileName[0] != 0 && entry.fileName[0] != 0xE5 && entry.fileName[0] != 0x2E && entry.attribute % 16 != 15
  }

  lemma CopyKeepsValidity(r: Record)
    ensures IsValidFileEntry(ListEntryOf(r)) <==> IsListed(r)
  {}

  /** The listing shows the name and the size recorded. */
  lemma ListingShowsSize(r: Record, n: nat)
    requires n < TWO_TO_THE_32
    ensures ListEntryOf(WithSize(r, n)) == ListEntryOf(r).(fileSize := n) && ListEntryOf(r).fileName[..11] == NameOf(r)
  {
    SizeReadsBack(r, n);
  }

  lemma RecordPosition(e: nat, clusters: nat, spc: nat)
    requires spc > 0
    ensures e / (16 * spc) == Quot(e / 16, spc)
    ensures Quot(e / 16, spc) < clusters <==> e < 16 * (clusters * spc)
  {
    var q := e / 16;
    var a, r := Quot(q, spc), Rem(q, spc);
    Recompose(q, spc);
    assert e == 16 * q + e % 16;
    assert 16 * (a * spc) == a * (16 * spc);
    DivisionIs(e, 16 * spc, a, 16 * r + e % 16);
    if a < clusters { NextMultiple(a, clusters, spc); } else { MultiplesOrdered(clusters, a, spc); }
  }

  class DirList {
    const vol: Volume
    const cache: ClusterChain
    var rEntry: nat
    var cEntry: nat
    var currentEntry: ListEntry

    constructor (vol: Volume, firstCluster: nat)
      ensures this.vol == vol && fresh(cache) && cache.firstCluster == cache.discCluster == firstCluster
      ensures cache.logicCluster == cache.lastCluster == cache.linear == 0
      ensures rEntry == 0 && cEntry == 0xFFFF
    {
      this.vol := vol;
      rEntry, cEntry, currentEntry := 0, 0xFFFF, ListEntry(seq(12, _ => 0), 0, 0);
      cache := new ClusterChain(firstCluster);
    }

    /** The directory's chain; its records can be counted in 16 bits. */
    ghost predicate Valid(ch: seq<nat>)
      reads this, vol, cache
    {
      && vol.Valid() && DataOnDisc(vol.fs, |vol.sectors|) && IsChain(vol.fs.kind, vol.Tab(), ch) && cache.Tracks(ch)
      && rEntry <= |Entries(ch)| < 0x1_0000
    }

    ghost function Entries(ch: seq<nat>): (rs: seq<Record>)
      reads vol
      ensures |rs| == 16 * (|ch| * vol.fs.sectorsPerCluster)
    {
      Records(vol.fs, vol.sectors, ch)
    }

    /** The current record, or -1 behind the last one. */
    method GetRealDirEntry(ghost ch: seq<nat>) returns (r: int)
      requires Valid(ch)
      modifies cache, this`currentEntry
      ensures Valid(ch)
      ensures r == if rEntry < |Entries(ch)| then 0 else -1
      ensures r == 0 ==> currentEntry == ListEntryOf(Entries(ch)[rEntry])
    {
      var spc := vol.fs.sectorsPerCluster;
      RecordPosition(rEntry, |ch|, spc);
      ChainOnVolume(vol.fs, |vol.sectors|, vol.Tab(), ch);
      var more := vol.LogicToDiscCluster(cache, rEntry / (16 * spc), ch);
      if more != 0 {
        return -1;
      }
      SectorWithin(vol.fs, |vol.sectors|, ch, rEntry / 16);
      var sector := ClusterToSector(vol.fs, cache.discCluster) + Rem(rEntry / 16, spc);
      currentEntry := ListEntryOf(RecordIn(vol.sectors[sector], rEntry % 16));
      return 0;
    }

    /** Moves on to the next record that is shown; -1 when there is none. */
    method GetNext(ghost ch: seq<nat>) returns (r: int)
      requires Valid(ch)
      modifies cache, this
      ensures Valid(ch)
      ensures var (next, shown) := ListStep(Entries(ch), old(rEntry));
        && rEntry == next && r == (if shown == [] then -1 else 0)
        && cEntry == (if shown == [] then old(cEntry) else Next16(old(cEntry)))
        && (shown != [] ==> currentEntry == ListEntryOf(Entries(ch)[shown[0]]))
    {
      ghost var rs := Entries(ch);
      ghost var e := NextListed(rs, rEntry);
      while true
        invariant Valid(ch) && Entries(ch) == rs && rEntry <= e && cEntry == old(cEntry)
        invariant NextListed(rs, rEntry) == e
        decreases |rs| - rEntry
      {
        var shown;
        r, shown := ReadEntry(ch);
        if r != 0 {
          return -1;
        }
        if shown {
          break;
        }
      }
      CountEntry(ch);
      return 0;
    }

    method CountEntry(ghost ch: seq<nat>)
      requires Valid(ch)
      modifies this`cEntry
      ensures Valid(ch) && cEntry == Next16(old(cEntry))
    {
      cEntry := Next16(cEntry);
    }

    /** One round of the loop: the current record is copied and passed. */
    method ReadEntry(ghost ch: seq<nat>) returns (r: int, shown: bool)
      requires Valid(ch) && rEntry <= |Entries(ch)|
      modifies cache, this`rEntry, this`currentEntry
      ensures Valid(ch) && Entries(ch) == old(Entries(ch))
      ensures r == if old(rEntry) < |Entries(ch)| then 0 else -1
      ensures rEntry == if r == 0 then old(rEntry) + 1 else old(rEntry)
      ensures rEntry <= |Entries(ch)|
      ensures r == 0 && shown ==>
        currentEntry == ListEntryOf(Entries(ch)[old(rEntry)]) && NextListed(Entries(ch), old(rEntry)) == old(rEntry)
      ensures r == 0 && !shown ==> NextListed(Entries(ch), old(rEntry)) == NextListed(Entries(ch), rEntry)
      ensures r != 0 ==> NextListed(Entries(ch), rEntry) == |Entries(ch)|
    {
      hide Next16;
      r := GetRealDirEntry(ch);
      shown := false;
      if r == 0 {
        CopyKeepsValidity(Entries(ch)[rEntry]);
        shown := IsValidFileEntry(currentEntry);
        rEntry := Next16(rEntry);
      }
    }
  }

  /** What one call of GetNext does to the position and the entries handed out so far. */
  function ListStep(rs: seq<Record>, position: nat): (r: (nat, seq<nat>))
    requires position <= |rs|
    ensures r.0 <= |rs| && forall e | e in r.1 :: e < |rs|
  {
    var e := NextListed(rs, position);
    if e == |rs| then (|rs|, []) else (e + 1, [e])
  }

  /** The entries handed out by n calls, from a position on. */
  function ListCalls(rs: seq<Record>, position: nat, n: nat): seq<nat>
    requires position <= |rs|
    decreases n
  {
    if n == 0 then [] else
      var (next, shown) := ListStep(rs, position);
      shown + ListCalls(rs, next, n - 1)
  }

  /** Any number of calls hands out the listing from its start, and after it nothing more. */
  lemma {:induction false} CallsFollowListing(rs: seq<Record>, position: nat, n: nat)
    requires position <= |rs|
    ensures ListCalls(rs, position, n) == Listing(rs, position)[..Min(n, |Listing(rs, position)|)]
    decreases n
  {
    hide NextListed, IsListed;
    if n > 0 {
      var e := NextListed(rs, position);
      if e == |rs| {
        CallsFollowListing(rs, |rs|, n - 1);
      } else {
        CallsFollowListing(rs, e + 1, n - 1);
        var rest := Listing(rs, e + 1);
        assert ([e] + rest)[..Min(n, 1 + |rest|)] == [e] + rest[..Min(n - 1, |rest|)];
      }
    }
  }
}
