/**
 The allocation table operated on in place: single entries, chain cursors,
 allocation, unlinking and counting. The disc is the flat array of sectors that
 the buffer manager presents; a buffer obtained for a sector is named by the
 number of that sector.
 */
module FatVolume {
  import opened Types
  import opened FatTable
  import opened Chains
  import opened Allocation

  /** Byte `offset` of the two adjacent sectors that a FAT12 entry can straddle. */
  function StraddledByte(disc: seq<Sector>, s: nat, offset: nat): byte
    requires s + 1 < |disc| && offset <= 512
  {
    if offset == 512 then disc[s + 1][0] else disc[s][offset]
  }

  /** The entry of c as decoded from the buffer of sector s. */
  function DecodeEntry(fs: FileSystem, disc: seq<Sector>, c: nat, s: nat): nat
    requires s + 1 < |disc|
  {
    match fs.kind
    case FAT12 =>
      var offset := Fat12Offset(c);
      var hb, lb := disc[s][offset], StraddledByte(disc, s, offset + 1);
      if c % 2 == 0 then lb % 16 * 256 + hb else lb * 16 + hb / 16
    case FAT16 =>
      var offset := 2 * (c % 256);
      Unpack16(disc[s][offset], disc[s][offset + 1])
    case FAT32 =>
      var offset := 4 * (c % 128);
      Unpack32(disc[s][offset], disc[s][offset + 1], disc[s][offset + 2], disc[s][offset + 3])
  }

  /** The sector and the offset within it that fat.c computes are the packed position. */
  lemma EntryPosition(kind: FatType, fatSectorCount: nat, c: nat)
    requires Fits(kind, 512 * fatSectorCount, c)
    ensures SectorIndex(kind, c) < fatSectorCount
    ensures EntryOffset(kind, c) == 512 * SectorIndex(kind, c) +
      match kind case FAT12 => Fat12Offset(c) case FAT16 => 2 * (c % 256) case FAT32 => 4 * (c % 128)
    ensures kind == FAT12 && Fat12Offset(c) == 511 ==> SectorIndex(kind, c) + 1 < fatSectorCount
  {
    if kind == FAT12 { Fat12Position(c); }
  }

  lemma TableByte(fs: FileSystem, disc: seq<Sector>, i: nat, offset: nat)
    requires OnDisc(fs, disc) && i < fs.fatSectorCount && offset < 512
    ensures TableBytes(fs, disc)[512 * i + offset] == disc[fs.reservedSectorCount + i][offset]
  {
    ConcatAt(disc, fs.reservedSectorCount, fs.fatSectorCount, i, offset);
  }

  /** Decoding through sector and offset reads the packed entry. */
  lemma DecodeIsEntry(fs: FileSystem, disc: seq<Sector>, c: nat)
    requires OnDisc(fs, disc) && Fits(fs.kind, 512 * fs.fatSectorCount, c)
    requires fs.reservedSectorCount + fs.fatSectorCount < |disc|
    ensures SectorIndex(fs.kind, c) < fs.fatSectorCount
    ensures DecodeEntry(fs, disc, c, SectorAddress(fs, c)) == Entry(fs.kind, TableBytes(fs, disc), c)
  {
    EntryPosition(fs.kind, fs.fatSectorCount, c);
    var i := SectorIndex(fs.kind, c);
    match fs.kind
    case FAT12 =>
      var offset := Fat12Offset(c);
      TableByte(fs, disc, i, offset);
      if offset == 511 { TableByte(fs, disc, i + 1, 0); } else { TableByte(fs, disc, i, offset + 1); }
    case FAT16 =>
      TableByte(fs, disc, i, 2 * (c % 256));
      TableByte(fs, disc, i, 2 * (c % 256) + 1);
    case FAT32 =>
      TableByte(fs, disc, i, 4 * (c % 128));
      TableByte(fs, disc, i, 4 * (c % 128) + 1);
      TableByte(fs, disc, i, 4 * (c % 128) + 2);
      TableByte(fs, disc, i, 4 * (c % 128) + 3);
  }

  function Overwritten(sector: Sector, offset: nat, data: seq<byte>): Sector
    requires offset + |data| <= 512
  {
    sector[..offset] + data + sector[offset + |data|..]
  }

  lemma OverwrittenAt(sector: Sector, b: nat, data: seq<byte>, i: nat)
    requires b + |data| <= 512 && i < 512
    ensures Overwritten(sector, b, data)[i] == if b <= i < b + |data| then data[i - b] else sector[i]
  {}

  /** From position p on, ch lists the n + 1 consecutive clusters c, c + 1, ..., c + n. */
  ghost predicate IsRun(ch: seq<nat>, p: nat, c: nat, n: nat)
    requires p + n < |ch|
  {
    forall j | p <= j <= p + n :: ch[j] == c + (j - p)
  }

  /** The entries of the n clusters from c on each link to the next number. */
  ghost predicate LinksAhead(tab: seq<nat>, c: nat, n: nat) {
    c + n <= |tab| && forall d | c <= d < c + n :: tab[d] == d + 1
  }

  /** Narrowing to 8 bits can only shorten a run. */
  function Narrow8(x: nat): (r: nat)
    ensures r < 256 && r <= x
  {
    x % 256
  }

  /** A link to the next higher number is a link along the chain. */
  lemma NextInRun(kind: FatType, tab: seq<nat>, ch: seq<nat>, i: nat, next: nat)
    requires LinkedFrom(kind, tab, ch, i) && tab[ch[i]] == next
    ensures next == ch[i] + 1 ==> i + 1 < |ch| && ch[i + 1] == next
  {}

  lemma LinkedFurther(kind: FatType, tab: seq<nat>, ch: seq<nat>, p: nat, i: nat)
    requires LinkedFrom(kind, tab, ch, p)
    ensures p < |ch| && (p <= i < |ch| ==> LinkedFrom(kind, tab, ch, i) && 2 <= ch[i] < |tab|)
  {}

  lemma RunLinksAhead(kind: FatType, tab: seq<nat>, ch: seq<nat>, p: nat, c: nat, n: nat)
    requires LinkedFrom(kind, tab, ch, p) && p + n < |ch| && IsRun(ch, p, c, n)
    ensures LinksAhead(tab, c, n)
  {
    assert ch[p + n] == c + n;
    forall d | c <= d < c + n ensures tab[d] == d + 1 {
      assert ch[p + (d - c)] == d && ch[p + (d - c) + 1] == d + 1;
    }
  }

  /** A cursor into a chain, with a run-length lookahead and remembered facts about the chain. */
  class ClusterChain {
    var linear: nat
    var logicCluster: nat
    var discCluster: nat
    var firstCluster: nat
    var lastCluster: nat
    var clusterCount: nat

    constructor (first: nat)
      ensures firstCluster == first && discCluster == first && logicCluster == 0
      ensures lastCluster == 0 && linear == 0 && clusterCount == 0
    {
      firstCluster, discCluster, logicCluster, lastCluster, linear, clusterCount := first, first, 0, 0, 0, 0;
    }

    /** The cursor stands on cluster number logicCluster of ch; 0 marks an unset position. */
    ghost predicate Tracks(ch: seq<nat>)
      reads this
    {
      && |ch| > 0 && firstCluster == ch[0]
      && linear < 256
      && (discCluster == 0 ==> linear == 0)
      && (discCluster != 0 ==>
            && logicCluster + linear < |ch|
            && IsRun(ch, logicCluster, discCluster, linear))
      && (lastCluster == 0 || lastCluster == ch[|ch| - 1])
    }

    /** One cluster on, within the run ahead of the cursor. */
    method StepInRun(ghost ch: seq<nat>)
      requires Tracks(ch) && linear != 0
      modifies this
      ensures Tracks(ch) && discCluster != 0
      ensures linear == old(linear) - 1 && logicCluster == old(logicCluster) + 1
      ensures unchanged(`firstCluster) && unchanged(`lastCluster) && unchanged(`clusterCount)
    {
      assert ch[logicCluster + 1] == discCluster + 1;
      linear := linear - 1;
      logicCluster := logicCluster + 1;
      discCluster := discCluster + 1;
    }

    /** To the end of the run ahead of the cursor. */
    method Jump(ghost ch: seq<nat>)
      requires Tracks(ch) && discCluster != 0
      modifies this
      ensures Tracks(ch) && linear == 0
      ensures logicCluster == old(logicCluster + linear) && discCluster == ch[logicCluster]
      ensures unchanged(`firstCluster) && unchanged(`lastCluster) && unchanged(`clusterCount)
    {
      assert ch[logicCluster + linear] == discCluster + linear;
      logicCluster := logicCluster + linear;
      discCluster := discCluster + linear;
      linear := 0;
    }

    /** The chain has grown by ps; its last cluster is remembered. */
    method SetLast(last: nat, ghost ch: seq<nat>, ghost ps: seq<nat>)
      requires Tracks(ch) && last == LastOf(ch[|ch| - 1], ps)
      modifies this`lastCluster
      ensures Tracks(ch + ps)
    {
      lastCluster := last;
    }

    method Clear()
      modifies this
      ensures firstCluster == discCluster == logicCluster == lastCluster == linear == clusterCount == 0
    {
      firstCluster, discCluster, logicCluster, lastCluster, linear, clusterCount := 0, 0, 0, 0, 0, 0;
    }

    /** The remembered number of clusters, when there is one, is right. */
    ghost predicate CountsRight(ch: seq<nat>)
      reads this`clusterCount
    {
      clusterCount == 0 || clusterCount == |ch|
    }

    /** The count that is remembered or, when there is none, found by counting. */
    ghost function KnownCount(ch: seq<nat>): nat
      reads this`clusterCount
    {
      if clusterCount == 0 then |ch| else clusterCount
    }
  }

  /** Rounds of the lookahead loop from the pair (lr, nlr) on, within table sector sect. */
  function LookaheadRounds(fs: FileSystem, tab: seq<nat>, lr: nat, nlr: nat, sect: nat): nat
    decreases |tab| - lr
  {
    if nlr == lr + 1 && nlr < |tab| && SectorAddress(fs, nlr) == sect then
      1 + LookaheadRounds(fs, tab, nlr, tab[nlr], sect)
    else 0
  }

  /** What the 8-bit field keeps of the length of the run. */
  function Lookahead(fs: FileSystem, tab: seq<nat>, c: nat, sect: nat): nat
    requires c > 0
  {
    var rounds := LookaheadRounds(fs, tab, c - 1, c, sect);
    if rounds == 0 then 0 else Narrow8(rounds - 1)
  }

  /** The n entries from c on link to the next number within sector sect, and the run cannot be made longer there. */
  ghost predicate IsLongestRun(fs: FileSystem, tab: seq<nat>, c: nat, n: nat, sect: nat) {
    && LinksAhead(tab, c, n) && c + n < |tab|
    && (forall d | c <= d <= c + n :: SectorAddress(fs, d) == sect)
    && (tab[c + n] == c + n + 1 ==> c + n + 1 == |tab| || SectorAddress(fs, c + n + 1) != sect)
  }

  /** The loop finds the longest run within the sector. */
  lemma {:induction false} LookaheadFindsRun(fs: FileSystem, tab: seq<nat>, c: nat, sect: nat)
    requires 0 < c < |tab| && SectorAddress(fs, c) == sect
    ensures var rounds := LookaheadRounds(fs, tab, c - 1, c, sect); 0 < rounds && IsLongestRun(fs, tab, c, rounds - 1, sect)
    decreases |tab| - c
  {
    hide SectorAddress;
    assert LookaheadRounds(fs, tab, c - 1, c, sect) == 1 + LookaheadRounds(fs, tab, c, tab[c], sect);
    if tab[c] == c + 1 && c + 1 < |tab| && SectorAddress(fs, c + 1) == sect {
      LookaheadFindsRun(fs, tab, c + 1, sect);
    }
  }

  /**
   The lookahead is the length of the longest run, unless 8 bits cannot hold
   it; that can only happen on FAT12, whose sectors hold 341 entries.
   */
  lemma LookaheadIsLongest(fs: FileSystem, tab: seq<nat>, c: nat, n: nat)
    requires 0 < c < |tab| && IsLongestRun(fs, tab, c, n, SectorAddress(fs, c)) && SectorAddress(fs, c) != 0
    ensures Lookahead(fs, tab, c, SectorAddress(fs, c)) == n <==> n < 256
    ensures fs.kind != FAT12 ==> n < 256
  {
    var m := LookaheadRounds(fs, tab, c - 1, c, SectorAddress(fs, c)) - 1;
    LookaheadFindsRun(fs, tab, c, SectorAddress(fs, c));
    assert SectorAddress(fs, c + n) == SectorAddress(fs, c);
  }

  lemma StoredExactly(kind: FatType, v: nat)
    requires v < LeastEoc(kind) || v == EocMarker(kind)
    ensures Stored(kind, v) == v
    ensures IsEoc(kind, v) <==> v == EocMarker(kind)
  {}

  class Volume {
    const fs: FileSystem
    var sectors: seq<Sector>
    var freeClusterCount: nat

    ghost predicate Valid()
      reads this`sectors
    {
      CoversClusters(fs) && OnDisc(fs, sectors) && fs.reservedSectorCount + fs.fatSectorCount < |sectors|
    }

    ghost function Bytes(): seq<byte>
      requires Valid()
      reads this`sectors
    {
      TableBytes(fs, sectors)
    }

    /** The table: entries 0 .. DataClusterCount + 1. */
    ghost function Tab(): (tab: seq<nat>)
      requires Valid()
      reads this`sectors
      ensures |tab| == fs.dataClusterCount + 2
    {
      Table(fs.kind, Bytes(), fs.dataClusterCount + 2)
    }

    lemma TabEntry(c: nat)
      requires Valid()
      ensures c < |Tab()| ==> Fits(fs.kind, |Bytes()|, c) && Tab()[c] == Entry(fs.kind, Bytes(), c)
    {}

    // ----- single entries

    /** Outside the table the answer is 0. */
    method GetNextClusterAddress(c: nat) returns (next: nat)
      requires Valid()
      ensures c < |Tab()| ==> next == Tab()[c]
      ensures Fits(fs.kind, |Bytes()|, c) ==> next == Entry(fs.kind, Bytes(), c)
      ensures SectorIndex(fs.kind, c) >= fs.fatSectorCount ==> next == 0
    {
      TabEntry(c);
      var sector := SectorAddress(fs, c);
      if sector == 0 || fs.fatSectorCount <= sector - fs.reservedSectorCount {
        if Fits(fs.kind, |Bytes()|, c) { EntryPosition(fs.kind, fs.fatSectorCount, c); }
        return 0;
      }
      if Fits(fs.kind, |Bytes()|, c) { DecodeIsEntry(fs, sectors, c); }
      next := DecodeEntry(fs, sectors, c, sector);
    }

    /** The caller already holds the buffer of the entry's sector. */
    method GetNextClusterAddressWBuf(c: nat, buf: nat) returns (next: nat)
      requires Valid() && c < |Tab()| && buf == SectorAddress(fs, c)
      ensures next == Tab()[c]
    {
      TabEntry(c);
      DecodeIsEntry(fs, sectors, c);
      next := DecodeEntry(fs, sectors, c, buf);
    }

    /** Nothing but the table changes. */
    twostate predicate OnlyTableChanged()
      reads this`sectors
    {
      && |sectors| == |old(sectors)|
      && (forall s | 0 <= s < |sectors| && !IsTableSector(fs, s) :: sectors[s] == old(sectors[s]))
    }

    method PutByte(buf: nat, offset: nat, b: byte, ghost i: nat)
      requires Valid() && i < fs.fatSectorCount && buf == fs.reservedSectorCount + i && offset < 512
      modifies this`sectors
      ensures Valid() && OnlyTableChanged()
      ensures Bytes() == old(Bytes())[512 * i + offset := b]
    {
      ConcatPoke(sectors, fs.reservedSectorCount, fs.fatSectorCount, buf, offset, b);
      sectors := Poke(sectors, buf, offset, b);
    }

    /** The two bytes of a FAT12 entry, the second possibly in the next sector. */
    method SetEntry12(c: nat, v: nat, buf: nat)
      requires Valid() && fs.kind == FAT12 && Fits(FAT12, |Bytes()|, c) && buf == SectorAddress(fs, c)
      modifies this`sectors
      ensures Valid() && OnlyTableChanged()
      ensures Bytes() == WithEntry(FAT12, old(Bytes()), c, v)
    {
      EntryPosition(fs.kind, fs.fatSectorCount, c);
      ghost var i, k := SectorIndex(fs.kind, c), EntryOffset(FAT12, c);
      var offset := Fat12Offset(c);
      var odd := c % 2 == 1;
      TableByte(fs, sectors, i, offset);
      PutByte(buf, offset, PackFirst12(odd, sectors[buf][offset], v), i);
      if offset == 511 {
        var buf2 := SectorAddress(fs, c) + 1;
        TableByte(fs, sectors, i + 1, 0);
        PutByte(buf2, 0, PackSecond12(odd, sectors[buf2][0], v), i + 1);
      } else {
        TableByte(fs, sectors, i, offset + 1);
        PutByte(buf, offset + 1, PackSecond12(odd, sectors[buf][offset + 1], v), i);
      }
    }

    /** The four bytes of a FAT32 entry. */
    method SetEntry32(c: nat, v: nat, buf: nat)
      requires Valid() && fs.kind == FAT32 && Fits(FAT32, |Bytes()|, c) && buf == SectorAddress(fs, c)
      modifies this`sectors
      ensures Valid() && OnlyTableChanged()
      ensures Bytes() == WithEntry(FAT32, old(Bytes()), c, v)
    {
      EntryPosition(fs.kind, fs.fatSectorCount, c);
      ghost var i := SectorIndex(fs.kind, c);
      var offset := 4 * (c % 128);
      PutByte(buf, offset, v % 256, i);
      PutByte(buf, offset + 1, v / 256 % 256, i);
      PutByte(buf, offset + 2, v / 0x1_0000 % 256, i);
      PutByte(buf, offset + 3, v / 0x100_0000 % 256, i);
    }

    method SetNextClusterAddressWBuf(c: nat, v: nat, buf: nat)
      requires Valid() && Fits(fs.kind, |Bytes()|, c) && buf == SectorAddress(fs, c)
      modifies this`sectors
      ensures Valid() && OnlyTableChanged()
      ensures Bytes() == WithEntry(fs.kind, old(Bytes()), c, v)
      ensures c < |Tab()| ==> Tab() == old(Tab())[c := Stored(fs.kind, v)]
    {
      EntryPosition(fs.kind, fs.fatSectorCount, c);
      ghost var i := SectorIndex(fs.kind, c);
      match fs.kind {
        case FAT12 =>
          SetEntry12(c, v, buf);
        case FAT16 =>
          var offset := 2 * (c % 256);
          PutByte(buf, offset, v % 256, i);
          PutByte(buf, offset + 1, v / 256 % 256, i);
        case FAT32 =>
          SetEntry32(c, v, buf);
      }
      if c < |Tab()| {
        TableUpdate(fs.kind, old(Bytes()), fs.dataClusterCount + 2, c, v);
      }
    }

    /** Outside the table nothing is written. */
    method SetNextClusterAddress(c: nat, v: nat)
      requires Valid() && (Fits(fs.kind, |Bytes()|, c) || SectorIndex(fs.kind, c) >= fs.fatSectorCount)
      modifies this`sectors
      ensures Valid() && OnlyTableChanged()
      ensures Bytes() == if Fits(fs.kind, |old(Bytes())|, c) then WithEntry(fs.kind, old(Bytes()), c, v) else old(Bytes())
      ensures c < |Tab()| ==> Tab() == old(Tab())[c := Stored(fs.kind, v)]
    {
      TabEntry(c);
      if Fits(fs.kind, |Bytes()|, c) { EntryPosition(fs.kind, fs.fatSectorCount, c); }
      var sector := SectorAddress(fs, c);
      if fs.fatSectorCount <= sector - fs.reservedSectorCount || sector == 0 {
        return;
      }
      SetNextClusterAddressWBuf(c, v, sector);
    }

    // ----- walking a chain

    /** Position before which the cursor cannot look: rewinding starts over from the first cluster. */
    ghost function From(cache: ClusterChain, logic: nat): nat
      reads cache
    {
      if logic < cache.logicCluster || cache.discCluster == 0 then 0 else cache.logicCluster
    }

    /**
     One step along the chain. The lookahead never crosses the sector of the
     entry just read; the cursor stays where it is at the end of the chain.
     */
    method GetNextClusterChain(cache: ClusterChain, ghost ch: seq<nat>) returns (r: int)
      requires Valid() && cache.Tracks(ch)
      requires cache.discCluster != 0 ==> LinkedFrom(fs.kind, Tab(), ch, cache.logicCluster)
      modifies cache
      ensures cache.Tracks(ch)
      ensures r == if old(cache.discCluster) != 0 && old(cache.logicCluster) + 1 < |ch| then 0 else -1
      ensures cache.clusterCount == old(cache.clusterCount)
      ensures r == 0 ==>
        && cache.logicCluster == old(cache.logicCluster) + 1
        && cache.discCluster == ch[cache.logicCluster]
        && cache.lastCluster == old(cache.lastCluster)
        && cache.linear == Lookahead(fs, Tab(), cache.discCluster, SectorAddress(fs, old(cache.discCluster)))
        && LinksAhead(Tab(), cache.discCluster, cache.linear)
      ensures r != 0 ==>
        && cache.logicCluster == old(cache.logicCluster) && cache.discCluster == old(cache.discCluster)
        && cache.linear == old(cache.linear)
        && cache.lastCluster == if cache.discCluster != 0 then ch[|ch| - 1] else old(cache.lastCluster)
    {
      if cache.discCluster == 0 {
        return -1;
      }
      ghost var p := cache.logicCluster + 1;
      assert ch[p - 1] == cache.discCluster;
      var sect := SectorAddress(fs, cache.discCluster);
      var dc := GetNextClusterAddressWBuf(cache.discCluster, sect);
      if p < |ch| { LinkIsNotEoc(fs.kind, Tab(), ch[p]); }
      if IsEoc(fs.kind, dc) {
        cache.lastCluster := cache.discCluster;
        return -1;
      }
      cache.discCluster := dc;
      cache.logicCluster := cache.logicCluster + 1;
      cache.linear := LookAhead(dc, sect, ch, p);
      RunLinksAhead(fs.kind, Tab(), ch, p, dc, cache.linear);
      return 0;
    }

    /** The lookahead loop: the run of consecutive clusters from dc on, within one table sector. */
    method LookAhead(dc: nat, sect: nat, ghost ch: seq<nat>, ghost p: nat) returns (linear: nat)
      requires Valid() && LinkedFrom(fs.kind, Tab(), ch, p) && ch[p] == dc
      ensures linear < 256 && linear == Lookahead(fs, Tab(), dc, sect)
      ensures p + linear < |ch| && IsRun(ch, p, dc, linear)
    {
      hide LinkedFrom, Table, TableBytes;
      ghost var tab := Tab();
      LinkedFurther(fs.kind, tab, ch, p, p);
      var lin := 0;
      var lr, nlr := dc - 1, dc;
      while nlr == lr + 1 && SectorAddress(fs, nlr) == sect
        invariant p + lin <= |ch|
        invariant forall j | p <= j < p + lin :: ch[j] == dc + (j - p)
        invariant lr == dc + lin - 1
        invariant nlr == lr + 1 ==> p + lin < |ch| && ch[p + lin] == nlr
        invariant LookaheadRounds(fs, tab, dc - 1, dc, sect) == lin + LookaheadRounds(fs, tab, lr, nlr, sect)
        decreases |ch| - lin
      {
        lr := nlr;
        LinkedFurther(fs.kind, tab, ch, p, p + lin);
        nlr := GetNextClusterAddressWBuf(lr, sect);
        NextInRun(fs.kind, tab, ch, p + lin, nlr);
        lin := lin + 1;
      }
      linear := Narrow8(if lin - 1 < 0 then 0 else lin - 1);
    }

    /** Moves the cursor to cluster number `logic` of the chain, rewinding if it has passed it. */
    method LogicToDiscCluster(cache: ClusterChain, logic: nat, ghost ch: seq<nat>) returns (r: int)
      requires Valid() && cache.Tracks(ch)
      requires LinkedFrom(fs.kind, Tab(), ch, From(cache, logic))
      modifies cache
      ensures cache.Tracks(ch) && cache.discCluster != 0
      ensures cache.clusterCount == old(cache.clusterCount)
      ensures r == if logic < |ch| then 0 else -1
      ensures cache.logicCluster == if r == 0 then logic else |ch| - 1
      ensures cache.discCluster == ch[cache.logicCluster]
      ensures r == 0 ==> cache.lastCluster == old(cache.lastCluster)
      ensures r != 0 ==> cache.lastCluster == ch[|ch| - 1]
    {
      if logic < cache.logicCluster || cache.discCluster == 0 {
        cache.logicCluster := 0;
        cache.discCluster := cache.firstCluster;
        cache.linear := 0;
      }
      if cache.logicCluster == logic {
        return 0;
      }
      while cache.logicCluster != logic
        invariant cache.Tracks(ch) && cache.discCluster != 0
        invariant LinkedFrom(fs.kind, Tab(), ch, cache.logicCluster)
        invariant cache.logicCluster <= logic
        invariant cache.clusterCount == old(cache.clusterCount) && cache.lastCluster == old(cache.lastCluster)
        decreases |ch| - cache.logicCluster
      {
        if cache.linear != 0 {
          cache.StepInRun(ch);
        } else {
          var next := GetNextClusterChain(cache, ch);
          if next != 0 {
            return -1;
          }
        }
      }
      return 0;
    }

    /** The last cluster of the chain, found by jumping over whole runs unless it is remembered. */
    method GetLastCluster(cache: ClusterChain, ghost ch: seq<nat>) returns (last: nat)
      requires Valid() && cache.Tracks(ch)
      requires LinkedFrom(fs.kind, Tab(), ch, if cache.discCluster == 0 then 0 else cache.logicCluster)
      modifies cache
      ensures cache.Tracks(ch) && cache.discCluster != 0
      ensures cache.clusterCount == old(cache.clusterCount)
      ensures last == cache.lastCluster == ch[|ch| - 1]
    {
      if cache.discCluster == 0 {
        cache.discCluster := cache.firstCluster;
        cache.logicCluster := 0;
      }
      if cache.lastCluster == 0 {
        while true
          invariant cache.Tracks(ch) && cache.discCluster != 0
          invariant LinkedFrom(fs.kind, Tab(), ch, cache.logicCluster)
          invariant cache.clusterCount == old(cache.clusterCount)
          decreases |ch| - cache.logicCluster
        {
          var r := GetNextClusterChain(cache, ch);
          if r != 0 {
            break;
          }
          cache.Jump(ch);
        }
      }
      return cache.lastCluster;
    }

    // ----- allocation

    /** One element of the table is overwritten by a link or the end marker. */
    method SetEntry(c: nat, v: nat)
      requires Valid() && c < |Tab()| && (v < |Tab()| || v == EocMarker(fs.kind))
      modifies this`sectors
      ensures Valid() && OnlyTableChanged() && Tab() == old(Tab())[c := v]
    {
      TabEntry(c);
      EntryPosition(fs.kind, fs.fatSectorCount, c);
      StoredExactly(fs.kind, v);
      var buf := SectorAddress(fs, c);
      SetNextClusterAddressWBuf(c, v, buf);
    }

    /** The table as the allocation loop has left it after examining cluster cc:
        the first k clusters of the scan are linked behind `last`. */
    ghost predicate Linking(tab: seq<nat>, last: nat, turned: bool, cc: nat, k: nat, met: bool, lc: nat)
      requires 2 <= last < |tab|
      reads this`sectors
    {
      var full, m := [last] + Scan(tab, last), |FreeAbove(tab, last)|;
      && Valid() && |tab| == |Tab()| && cc < |tab|
      && Scanned(tab, last, full, m, turned, cc, k, met)
      && Below(full, |tab|) && Tab() == ScanTable(tab, full, k, met) && lc == full[k]
    }

    /** One round of the allocation loop: cluster cc is linked behind lc if its entry reads 0. */
    method TryCluster(cc: nat, lc: nat, ghost tab: seq<nat>, ghost last: nat, ghost turned: bool, ghost k: nat, ghost met: bool)
      returns (linked: bool, ghost k': nat, ghost met': bool)
      requires 2 <= last < |tab|
      requires 2 <= cc < fs.dataClusterCount + 1 && Linking(tab, last, turned, cc - 1, k, met, lc)
      modifies this`sectors
      ensures OnlyTableChanged()
      ensures Linking(tab, last, turned, cc, k', met', if linked then cc else lc)
      ensures if linked then !met && (k', met') in {(k + 1, false), (k, true)} else (k', met') == (k, met)
    {
      hide IsScan, ScanTable, Scan, FreeAbove;
      ghost var full, m := [last] + Scan(tab, last), |FreeAbove(tab, last)|;
      Examine(tab, last, full, m, turned, cc, k, met);
      var bufa := SectorAddress(fs, cc);
      var entry := GetNextClusterAddressWBuf(cc, bufa);
      linked, k', met' := entry == 0, k, met;
      if entry == 0 {
        k', met' := TakeCluster(tab, last, full, m, turned, cc, k, met);
        SetEntry(lc, cc);
      }
    }

    /** The end marker is written behind the last cluster linked. */
    method CloseChain(last: nat, n: nat, lc: nat, ghost tab: seq<nat>, ghost turned: bool, ghost cc: nat, ghost k: nat, ghost met: bool)
      requires 2 <= last < |tab| && Linking(tab, last, turned, cc, k, met, lc)
      requires var counted := k + if met then 1 else 0; counted == n || (turned && cc >= |tab| - 2 && counted < n)
      modifies this`sectors
      ensures Valid() && OnlyTableChanged()
      ensures Tab() == AllocTable(fs.kind, tab, last, n)
      ensures lc == LastOf(last, Picks(tab, last, n)) && Claimed(tab, last, n) == k + if met then 1 else 0
      ensures Picks(tab, last, n) == Scan(tab, last)[..k]
    {
      ghost var full, m := [last] + Scan(tab, last), |FreeAbove(tab, last)|;
      EndedCount(tab, last, full, m, turned, cc, k, met, n);
      ScanEnds(tab, last, full, k, met, n);
      if n > 0 {
        Close(fs.kind, tab, last, full, m, k, met);
        SetEntry(lc, EocMarker(fs.kind));
      }
    }

    lemma StartLinking(last: nat)
      requires Valid() && 2 <= last < |Tab()| && Tab()[last] != 0
      ensures Linking(Tab(), last, false, last, 0, false, last)
    {
      ScanIsScan(Tab(), last);
    }

    lemma Turn(tab: seq<nat>, last: nat, cc: nat, k: nat, lc: nat)
      requires 2 <= last < |tab| && Linking(tab, last, false, cc, k, false, lc) && cc >= fs.dataClusterCount
      ensures Linking(tab, last, true, 1, k, false, lc)
    {
      TurnAround(tab, last, [last] + Scan(tab, last), |FreeAbove(tab, last)|, cc, k);
    }

    /**
     The allocation loop: up to n clusters are linked behind `last`; `missing` of
     them were not found. `links` are the pairs of a cluster and the one it was
     linked behind, in the order of the rounds that linked them.
     */
    method LinkFreeClusters(last: nat, n: nat) returns (lc: nat, missing: nat, ghost links: seq<(nat, nat)>)
      requires Valid() && 2 <= last < |Tab()| && Tab()[last] != 0
      modifies this`sectors
      ensures Valid() && OnlyTableChanged()
      ensures Tab() == AllocTable(fs.kind, old(Tab()), last, n)
      ensures missing <= n && n - missing == Claimed(old(Tab()), last, n)
      ensures lc == LastOf(last, Picks(old(Tab()), last, n))
      ensures var ps := Picks(old(Tab()), last, n); LinksOf(links, [last] + ps, |ps|, Claimed(old(Tab()), last, n) > |ps|)
    {
      hide LinksOf, Linking, Bytes, Scan, FreeAbove, AllocTable, Claimed, Picks, LastOf;
      ghost var tab := Tab();
      ghost var k: nat, met := 0, false;
      var cc: nat, overflow := last, false;
      lc, missing, links := last, n, [];
      StartLinking(last);
      LinkingAt(tab, last, false, last, 0, false, last);
      NoLinks([last] + Scan(tab, last));
      while missing > 0
        invariant OnlyTableChanged()
        invariant Linking(tab, last, overflow, cc, k, met, lc)
        invariant 1 <= cc < fs.dataClusterCount + 2 && (!overflow ==> !met)
        invariant n == missing + k + if met then 1 else 0
        invariant Valid() && |tab| == |Tab()| && k <= |Scan(tab, last)| && lc == ([last] + Scan(tab, last))[k]
        invariant LinksOf(links, [last] + Scan(tab, last), k, met)
        decreases !overflow, fs.dataClusterCount + 2 - cc
      {
        cc := cc + 1;
        if cc >= fs.dataClusterCount + 1 {
          if overflow {
            cc := cc - 1;
            break;
          }
          Turn(tab, last, cc - 1, k, lc);
          cc := 2;
          overflow := true;
        }
        var linked;
        ghost var k0 := k;
        linked, k, met := TryCluster(cc, lc, tab, last, overflow, k, met);
        LinkingAt(tab, last, overflow, cc, k, met, if linked then cc else lc);
        if linked {
          missing := missing - 1;
          LinkAdded(links, [last] + Scan(tab, last), k0, k, met);
          links := links + [(cc, lc)];
          lc := cc;
        }
      }
      CloseChain(last, n, lc, tab, overflow, cc, k, met);
      LinksBehind(links, last, Scan(tab, last), k, met);
    }

    lemma LinkingAt(tab: seq<nat>, last: nat, turned: bool, cc: nat, k: nat, met: bool, lc: nat)
      requires 2 <= last < |tab| && Linking(tab, last, turned, cc, k, met, lc)
      ensures Valid() && |tab| == |Tab()| && k <= |Scan(tab, last)| && lc == ([last] + Scan(tab, last))[k] && (!turned ==> !met)
    {}

    method ExtendChain(cache: ClusterChain, n: nat, ghost ch: seq<nat>) returns (missing: nat)
      requires Valid() && cache.Tracks(ch) && IsChain(fs.kind, Tab(), ch)
      modifies this`sectors, cache
      ensures Valid() && OnlyTableChanged()
      ensures Tab() == AllocTable(fs.kind, old(Tab()), ch[|ch| - 1], n)
      ensures missing <= n && n - missing == Claimed(old(Tab()), ch[|ch| - 1], n)
      ensures cache.Tracks(ch + Picks(old(Tab()), ch[|ch| - 1], n))
      ensures cache.clusterCount == old(cache.clusterCount)
    {
      var last := GetLastCluster(cache, ch);
      ChainIsUsed(fs.kind, Tab(), ch);
      var lc;
      ghost var links;
      lc, missing, links := LinkFreeClusters(last, n);
      cache.SetLast(lc, ch, Picks(old(Tab()), last, n));
    }

    /** What allocation leaves behind: table, cursor, return code and the two remembered counts. */
    twostate predicate Allocated(cache: ClusterChain, n: nat, ch: seq<nat>, r: int)
      reads this, cache
      requires old(Valid()) && old(IsChain(fs.kind, Tab(), ch))
    {
      var tab, last := old(Tab()), ch[|ch| - 1];
      var met := Claimed(tab, last, n) == n;
      && Valid() && Tab() == AllocTable(fs.kind, tab, last, n)
      && r == AllocCode(tab, last, n)
      && cache.Tracks(ch + Picks(tab, last, n))
      && cache.clusterCount == old(cache.clusterCount) + (if met && old(cache.clusterCount) != 0 then n else 0)
      && freeClusterCount == if met then old(freeClusterCount) else Sub32(old(freeClusterCount), Claimed(tab, last, n))
    }

    /** Extends the chain of the cursor by n clusters, as far as the scan finds free ones. */
    method AllocClusterChain(cache: ClusterChain, n: nat, ghost ch: seq<nat>) returns (r: int)
      requires Valid()
      requires cache.firstCluster > 1 ==> cache.Tracks(ch) && IsChain(fs.kind, Tab(), ch)
      modifies this`sectors, this`freeClusterCount, cache
      ensures OnlyTableChanged()
      ensures if old(cache.firstCluster) > 1 then Allocated(cache, n, ch, r)
              else r == ToInt16(n) && unchanged(cache) && unchanged(this)
      ensures old(cache.firstCluster > 1 && cache.clusterCount == |ch|) ==>
        var free := CountFree(old(Tab()), 2, fs.dataClusterCount + 1);
        cache.CountsRight(ch + Picks(old(Tab()), ch[|ch| - 1], n)) <==> n <= free || free == 0
    {
      hide AllocTable, Picks, Claimed, CountFree, Table, TableBytes, Scan;
      if cache.firstCluster <= 1 {
        return ToInt16(n);
      }
      ChainIsUsed(fs.kind, Tab(), ch);
      CountStaysRightExactly(Tab(), ch[|ch| - 1], n, |ch|);
      var missing := ExtendChain(cache, n, ch);
      if missing > 0 {
        freeClusterCount := Sub32(freeClusterCount, n - missing);
        return ToInt16(n - missing);
      }
      if cache.clusterCount != 0 {
        cache.clusterCount := cache.clusterCount + n;
      }
      return 0;
    }

    // ----- unlinking and counting

    method ClearEntry(c: nat)
      requires Valid() && c < |Tab()|
      modifies this`sectors
      ensures Valid() && OnlyTableChanged() && Tab() == old(Tab())[c := 0]
    {
      TabEntry(c);
      SetNextClusterAddress(c, 0);
    }

    /**
     Frees the whole chain of the cursor, clearing each entry once the cursor has
     moved past it. Whatever lookahead the cursor brings must hold at the first
     cluster. With no first cluster the cursor stays where it is: the walk makes
     no second step, and the entry of cluster 0 is cleared.
     */
    method UnlinkClusterChain(cache: ClusterChain, ghost ch: seq<nat>)
      requires Valid() && (cache.firstCluster != 0 ==> IsChain(fs.kind, Tab(), ch) && Unwound(cache, ch))
      modifies this`sectors, this`freeClusterCount, cache
      ensures Valid() && OnlyTableChanged()
      ensures Tab() == if old(cache.firstCluster) != 0 then Cleared(old(Tab()), ch) else old(Tab())[0 := 0]
      ensures freeClusterCount == Add32(old(freeClusterCount), if old(cache.firstCluster) != 0 then |ch| + 1 else 2)
    {
      if cache.firstCluster == 0 {
        cache.logicCluster, cache.discCluster, cache.linear := 0, 0, 0;
        ClearEntry(cache.discCluster);
        freeClusterCount := Add32(freeClusterCount, 2);
        return;
      }
      UnlinkWalk(cache, ch);
    }

    /** The cursor may be anywhere, but what it says of its first cluster and of the chain's last one is true. */
    ghost predicate Unwound(cache: ClusterChain, ch: seq<nat>)
      reads cache
    {
      && ch != [] && cache.firstCluster == ch[0] && cache.linear < 256 && cache.linear < |ch| && IsRun(ch, 0, ch[0], cache.linear)
      && (cache.lastCluster == 0 || cache.lastCluster == ch[|ch| - 1])
    }

    method UnlinkWalk(cache: ClusterChain, ghost ch: seq<nat>)
      requires Valid() && IsChain(fs.kind, Tab(), ch) && Unwound(cache, ch)
      modifies this`sectors, this`freeClusterCount, cache
      ensures Valid() && OnlyTableChanged()
      ensures Tab() == Cleared(old(Tab()), ch)
      ensures freeClusterCount == Add32(old(freeClusterCount), |ch| + 1)
    {
      hide Table, TableBytes, Cleared;
      ghost var tab := Tab();
      cache.logicCluster := 0;
      cache.discCluster := cache.firstCluster;
      var c, tbd := 1, 0;
      var r := LogicToDiscCluster(cache, 0, ch);
      NothingCleared(tab, ch);
      while r == 0
        invariant Unlinking(cache, tab, ch, c, tbd, r) && OnlyTableChanged() && freeClusterCount == old(freeClusterCount)
        decreases |ch| + 1 - c
      {
        r, tbd := UnlinkRound(cache, c, tbd, tab, ch);
        c := c + 1;
      }
      ClearEntry(cache.discCluster);
      ClearedNext(tab, ch, |ch| - 1);
      assert ch[..|ch|] == ch;
      freeClusterCount := Add32(freeClusterCount, c);
    }

    /** Unlinking after c steps of the cursor, the last with result r: the entries
        before the cluster `tbd` are cleared, that one is still to be done. */
    ghost predicate Unlinking(cache: ClusterChain, tab: seq<nat>, ch: seq<nat>, c: nat, tbd: nat, r: int)
      reads this`sectors, cache
    {
      && Valid() && IsChain(fs.kind, tab, ch) && |tab| == |Tab()| && 1 <= c <= |ch| + 1
      && cache.Tracks(ch) && cache.discCluster != 0
      && r == (if c <= |ch| then 0 else -1)
      && cache.logicCluster == (if r == 0 then c else |ch|) - 1 && cache.discCluster == ch[cache.logicCluster]
      && tbd == (if c == 1 then 0 else ch[c - 2])
      && Tab() == Cleared(tab, ch[..if c == 1 then 0 else c - 2])
    }

    method UnlinkRound(cache: ClusterChain, c: nat, tbd: nat, ghost tab: seq<nat>, ghost ch: seq<nat>)
      returns (r: int, tbd': nat)
      requires Unlinking(cache, tab, ch, c, tbd, 0)
      modifies this`sectors, cache
      ensures OnlyTableChanged() && Unlinking(cache, tab, ch, c + 1, tbd', r)
    {
      if tbd != 0 {
        ClearEntry(tbd);
        ClearedNext(tab, ch, c - 2);
      }
      tbd' := cache.discCluster;
      ClearedBehind(fs.kind, tab, ch, c - 1);
      r := LogicToDiscCluster(cache, c, ch);
    }

    method CountClustersInChain(first: nat, ghost ch: seq<nat>) returns (n: nat)
      requires Valid() && (first > 1 ==> IsChain(fs.kind, Tab(), ch) && first == ch[0])
      ensures n == if first > 1 then |ch| else 0
    {
      if first <= 1 {
        return 0;
      }
      var cache := new ClusterChain(first);
      cache.discCluster := 0;
      var c := 1;
      var r := LogicToDiscCluster(cache, 0, ch);
      while r == 0
        invariant cache.Tracks(ch) && 1 <= c <= |ch| + 1
        invariant r == if c <= |ch| then 0 else -1
        invariant cache.logicCluster < c
        decreases |ch| + 1 - c
      {
        r := LogicToDiscCluster(cache, c, ch);
        c := c + 1;
      }
      return c - 1;
    }

    /** Position in the chain of a given cluster, 0 when it is the first one or absent. */
    method DiscToLogicCluster(first: nat, disc: nat, ghost ch: seq<nat>) returns (logic: nat)
      requires Valid() && IsChain(fs.kind, Tab(), ch) && first == ch[0]
      ensures if exists i :: 0 <= i < |ch| && ch[i] == disc then logic < |ch| && ch[logic] == disc else logic == 0
    {
      var cache := new ClusterChain(first);
      cache.discCluster := 0;
      var c := 1;
      logic := 0;
      var r := LogicToDiscCluster(cache, 0, ch);
      while r == 0 && logic == 0
        invariant cache.Tracks(ch) && 1 <= c <= |ch| + 1
        invariant r == if c <= |ch| then 0 else -1
        invariant r == 0 ==> cache.logicCluster == c - 1 && cache.discCluster == ch[c - 1]
        invariant r != 0 ==> cache.logicCluster < c
        invariant logic == 0 ==> forall i | 1 <= i < c - 1 :: ch[i] != disc
        invariant logic != 0 ==> logic < |ch| && ch[logic] == disc
        decreases |ch| + 1 - c
      {
        if cache.discCluster == disc {
          logic := cache.logicCluster;
        }
        r := LogicToDiscCluster(cache, c, ch);
        c := c + 1;
      }
    }

    method CountFreeClusters() returns (free: nat)
      requires Valid()
      ensures free == CountFree(Tab(), 2, |Tab()|)
    {
      var c := 2;
      free := 0;
      while c <= fs.dataClusterCount + 1
        invariant 2 <= c <= fs.dataClusterCount + 2
        invariant free == CountFree(Tab(), 2, c)
      {
        var entry := GetNextClusterAddress(c);
        if entry == 0 {
          free := free + 1;
        }
        c := c + 1;
      }
    }

    /** The first free cluster from `start` on; the two highest clusters are not considered. */
    method GetNextFreeCluster(start: nat) returns (c: nat)
      requires Valid() && start > 0
      ensures c == FirstFree(Tab(), start, fs.dataClusterCount)
    {
      var s := start;
      while s < fs.dataClusterCount
        invariant FirstFree(Tab(), start, fs.dataClusterCount) == FirstFree(Tab(), s, fs.dataClusterCount)
        invariant s > 0
      {
        var r := GetNextClusterAddress(s);
        if r == 0 {
          return s;
        }
        s := s + 1;
      }
      return 0;
    }

    /** How a new file gets its first cluster; without a free one, entry 0 is overwritten. */
    method CreateChain() returns (first: nat)
      requires Valid()
      modifies this`sectors
      ensures Valid() && OnlyTableChanged()
      ensures first == FirstFree(old(Tab()), 2, fs.dataClusterCount)
      ensures Tab() == old(Tab())[first := EocMarker(fs.kind)]
    {
      first := GetNextFreeCluster(2);
      BeginChain(first);
    }

    /** A cluster becomes a chain of one. */
    method BeginChain(first: nat)
      requires Valid() && first < |Tab()|
      modifies this`sectors
      ensures Valid() && OnlyTableChanged()
      ensures Tab() == old(Tab())[first := EocMarker(fs.kind)]
    {
      TabEntry(first);
      StoredExactly(fs.kind, EocMarker(fs.kind));
      SetNextClusterAddress(first, EocMarker(fs.kind));
    }

    // ----- sectors outside the table

    /** Bytes stored in a sector outside the table leave the table alone. */
    method StoreBytes(s: nat, offset: nat, data: seq<byte>)
      requires Valid() && s < |sectors| && !IsTableSector(fs, s) && offset + |data| <= 512
      modifies this`sectors
      ensures Valid() && Bytes() == old(Bytes())
      ensures sectors == old(sectors)[s := Overwritten(old(sectors[s]), offset, data)]
    {
      sectors := sectors[s := Overwritten(sectors[s], offset, data)];
      ConcatFrame(old(sectors), sectors, fs.reservedSectorCount, fs.fatSectorCount);
    }
  }
}
