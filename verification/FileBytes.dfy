/** The bytes of a file as the sectors of its cluster chain hold them. */
module FileBytes {
  import opened Types
  import opened FatTable
  import opened Chains
  import opened Geometry
  import opened FatVolume

  function ClusterSize(fs: FileSystem): nat { 512 * fs.sectorsPerCluster }

  /** Bytes that the clusters of a chain hold. */
  function Capacity(fs: FileSystem, ch: seq<nat>): nat { |ch| * ClusterSize(fs) }

  /** All clusters of the chain lie on the disc, each once. */
  ghost predicate OnVolume(fs: FileSystem, sectors: nat, ch: seq<nat>) {
    DataOnDisc(fs, sectors) && Distinct(ch) && forall i | 0 <= i < |ch| :: IsCluster(fs, ch[i])
  }

  lemma ChainOnVolume(fs: FileSystem, sectors: nat, tab: seq<nat>, ch: seq<nat>)
    requires DataOnDisc(fs, sectors) && |tab| == fs.dataClusterCount + 2 && IsChain(fs.kind, tab, ch)
    ensures OnVolume(fs, sectors, ch)
  {
    ChainIsDistinct(fs.kind, tab, ch);
  }

  /** Sector q of the chain. */
  function SectorOf(fs: FileSystem, ch: seq<nat>, q: nat): nat
    requires fs.sectorsPerCluster > 0 && Quot(q, fs.sectorsPerCluster) < |ch|
    requires 2 <= ch[Quot(q, fs.sectorsPerCluster)]
  {
    ClusterToSector(fs, ch[Quot(q, fs.sectorsPerCluster)]) + Rem(q, fs.sectorsPerCluster)
  }

  /** Byte p of the chain; beyond its end, 0. */
  function ByteOf(fs: FileSystem, disc: seq<Sector>, ch: seq<nat>, p: nat): byte {
    if fs.sectorsPerCluster > 0 && Quot(p / 512, fs.sectorsPerCluster) < |ch| && 2 <= ch[Quot(p / 512, fs.sectorsPerCluster)]
       && SectorOf(fs, ch, p / 512) < |disc|
    then disc[SectorOf(fs, ch, p / 512)][p % 512]
    else 0
  }

  function Content(fs: FileSystem, disc: seq<Sector>, ch: seq<nat>, size: nat): (bytes: seq<byte>)
    ensures |bytes| == size
  {
    seq(size, (p: nat) requires p < size => ByteOf(fs, disc, ch, p))
  }

  /** The old contents with the data laid over them at the offset. */
  function Splice(old': seq<byte>, offset: nat, data: seq<byte>): seq<byte>
    requires offset <= |old'|
  {
    old'[..offset] + data + if offset + |data| < |old'| then old'[offset + |data|..] else []
  }

  lemma DivTwice(p: nat, n: nat)
    requires n > 0
    ensures p / (512 * n) == Quot(p / 512, n)
  {
    var q := p / 512;
    var a, r := Quot(q, n), Rem(q, n);
    Recompose(q, n);
    assert p == 512 * q + p % 512;
    assert 512 * (a * n) == a * (512 * n);
    DivisionIs(p, 512 * n, a, 512 * r + p % 512);
  }

  lemma SectorWithin(fs: FileSystem, sectors: nat, ch: seq<nat>, q: nat)
    requires OnVolume(fs, sectors, ch) && q < |ch| * fs.sectorsPerCluster
    ensures Quot(q, fs.sectorsPerCluster) < |ch| && IsCluster(fs, ch[Quot(q, fs.sectorsPerCluster)])
    ensures SectorOf(fs, ch, q) < sectors && !IsTableSector(fs, SectorOf(fs, ch, q))
  {
    hide Quot, Rem;
    var n := fs.sectorsPerCluster;
    QuotientBelow(q, |ch|, n);
    ClusterSectorInData(fs, ch[Quot(q, n)], Rem(q, n), sectors);
  }

  lemma SameQuotient(q: nat, r: nat, n: nat)
    requires n > 0 && Quot(q, n) == Quot(r, n) && Rem(q, n) == Rem(r, n)
    ensures q == r
  {
    Recompose(q, n);
    Recompose(r, n);
  }

  lemma SectorsDistinct(fs: FileSystem, sectors: nat, ch: seq<nat>, q: nat, r: nat)
    requires OnVolume(fs, sectors, ch) && Quot(q, fs.sectorsPerCluster) < |ch| && Quot(r, fs.sectorsPerCluster) < |ch|
    requires SectorOf(fs, ch, q) == SectorOf(fs, ch, r)
    ensures q == r
  {
    hide ClusterToSector, Quot, Rem;
    var n := fs.sectorsPerCluster;
    var i, j, a, b := Quot(q, n), Quot(r, n), Rem(q, n), Rem(r, n);
    ClusterSectorsDistinct(fs, ch[i], a, ch[j], b);
    assert i == j && a == b;
    SameQuotient(q, r, n);
  }

  /** Storing bytes in one sector of the chain changes exactly those bytes of it. */
  lemma StoreInChain(fs: FileSystem, disc: seq<Sector>, ch: seq<nat>, q: nat, b: nat, data: seq<byte>, p: nat)
    requires OnVolume(fs, |disc|, ch) && q < |ch| * fs.sectorsPerCluster && b + |data| <= 512
    ensures Quot(q, fs.sectorsPerCluster) < |ch| && IsCluster(fs, ch[Quot(q, fs.sectorsPerCluster)]) && SectorOf(fs, ch, q) < |disc|
    ensures var s := SectorOf(fs, ch, q);
      ByteOf(fs, disc[s := Overwritten(disc[s], b, data)], ch, p) ==
        if 512 * q + b <= p < 512 * q + b + |data| then data[p - (512 * q + b)] else ByteOf(fs, disc, ch, p)
  {
    hide ClusterToSector, Quot, Rem, Overwritten;
    SectorWithin(fs, |disc|, ch, q);
    OverwrittenAt(disc[SectorOf(fs, ch, q)], b, data, p % 512);
    if p / 512 != q && Quot(p / 512, fs.sectorsPerCluster) < |ch| && SectorOf(fs, ch, p / 512) == SectorOf(fs, ch, q) {
      SectorsDistinct(fs, |disc|, ch, q, p / 512);
    }
  }

  /** Files whose chains share no cluster share no sector: what is done to one, and to
      a directory entry outside the other, leaves the other alone. */
  lemma OtherChainUntouched(fs: FileSystem, disc: seq<Sector>, disc': seq<Sector>, ch: seq<nat>, other: seq<nat>, entry: nat, size: nat)
    requires OnVolume(fs, |disc|, ch) && OnVolume(fs, |disc|, other) && |disc'| == |disc|
    requires forall i, j | 0 <= i < |ch| && 0 <= j < |other| :: ch[i] != other[j]
    requires !InChain(fs, other, entry)
    requires forall s | 0 <= s < |disc| && !IsTableSector(fs, s) && !InChain(fs, ch, s) && s != entry :: disc'[s] == disc[s]
    ensures Content(fs, disc', other, size) == Content(fs, disc, other, size)
  {
    forall p: nat | p < size ensures ByteOf(fs, disc', other, p) == ByteOf(fs, disc, other, p) {
      var q, n := p / 512, fs.sectorsPerCluster;
      if Quot(q, n) < |other| {
        OtherSector(fs, |disc|, ch, other, q);
        SectorOfIsInChain(fs, other, q);
      }
    }
  }

  lemma OtherSector(fs: FileSystem, sectors: nat, ch: seq<nat>, other: seq<nat>, q: nat)
    requires OnVolume(fs, sectors, ch) && OnVolume(fs, sectors, other) && Quot(q, fs.sectorsPerCluster) < |other|
    requires forall i, j | 0 <= i < |ch| && 0 <= j < |other| :: ch[i] != other[j]
    ensures SectorOf(fs, other, q) < sectors && !IsTableSector(fs, SectorOf(fs, other, q))
    ensures !InChain(fs, ch, SectorOf(fs, other, q))
  {
    hide Quot, Rem;
    var n := fs.sectorsPerCluster;
    var d, s := other[Quot(q, n)], SectorOf(fs, other, q);
    ClusterSectorInData(fs, d, Rem(q, n), sectors);
    forall i | 0 <= i < |ch| ensures !LiesIn(fs, ch[i], s) {
      if LiesIn(fs, ch[i], s) {
        ClusterSectorsDistinct(fs, ch[i], s - ClusterToSector(fs, ch[i]), d, Rem(q, n));
      }
    }
  }

  /** s is one of the sectors of cluster c. */
  predicate LiesIn(fs: FileSystem, c: nat, s: nat) {
    2 <= c && ClusterToSector(fs, c) <= s < ClusterToSector(fs, c) + fs.sectorsPerCluster
  }

  /** s is a sector of one of the clusters of the chain. */
  ghost predicate InChain(fs: FileSystem, ch: seq<nat>, s: nat) {
    exists i :: 0 <= i < |ch| && LiesIn(fs, ch[i], s)
  }

  lemma SectorOfIsInChain(fs: FileSystem, ch: seq<nat>, q: nat)
    requires fs.sectorsPerCluster > 0 && Quot(q, fs.sectorsPerCluster) < |ch| && 2 <= ch[Quot(q, fs.sectorsPerCluster)]
    ensures InChain(fs, ch, SectorOf(fs, ch, q))
  {
    assert LiesIn(fs, ch[Quot(q, fs.sectorsPerCluster)], SectorOf(fs, ch, q));
  }
}
