/** Where the areas of a volume and its clusters lie on the disc. */
module Geometry {
  import opened Types
  import opened FatTable

  /** The fields that mounting reads from the boot sector. */
  datatype VolumeId = VolumeId(
    bytesPerSector: nat,
    sectorsPerCluster: nat,
    reservedSectorCount: nat,
    numberOfFats: nat,
    rootEntryCount: nat,
    sectorCount16: nat,
    sectorCount32: nat,
    fatSectorCount16: nat,
    fatSectorCount32: nat,
    rootCluster: nat)

  /** Mounting goes on only with a volume id like this. */
  predicate VerifySanity(v: VolumeId, numSectors: nat) {
    && v.bytesPerSector == 512
    && v.sectorsPerCluster in {1, 2, 4, 8, 16, 32, 64}
    && v.reservedSectorCount != 0
    && FatSectorCount(v) <= numSectors
  }

  function FatSectorCount(v: VolumeId): nat {
    if v.fatSectorCount16 != 0 then v.fatSectorCount16 else v.fatSectorCount32
  }

  function SectorCount(v: VolumeId): nat {
    if v.sectorCount16 != 0 then v.sectorCount16 else v.sectorCount32
  }

  function RootDirSectors(v: VolumeId): nat {
    (v.rootEntryCount * 32 + 511) / 512
  }

  /** Sectors in front of the data area, as they are counted when mounting. */
  function OverheadSectors(v: VolumeId): nat {
    v.reservedSectorCount + v.numberOfFats * FatSectorCount(v) + RootDirSectors(v)
  }

  /** Unsigned 32-bit, as in the source. */
  function DataClusterCount(v: VolumeId): nat
    requires v.sectorsPerCluster > 0
  {
    (SectorCount(v) - OverheadSectors(v)) % TWO_TO_THE_32 / v.sectorsPerCluster
  }

  function DetermineFatType(clusters: nat): FatType {
    if clusters < 4085 then FAT12 else if clusters < 65525 then FAT16 else FAT32
  }

  function Mounted(v: VolumeId): FileSystem
    requires v.sectorsPerCluster > 0
  {
    FileSystem(DetermineFatType(DataClusterCount(v)), v.sectorsPerCluster, v.reservedSectorCount, v.numberOfFats,
               v.rootEntryCount, FatSectorCount(v), DataClusterCount(v))
  }

  /** Cluster of the root directory; the root area of the smaller types passes for cluster 1. */
  function FirstClusterRootDir(v: VolumeId): nat
    requires v.sectorsPerCluster > 0
  {
    if Mounted(v).kind == FAT32 then v.rootCluster else 1
  }

  /** First sector of the data area, as both conversion functions compute it. */
  function DataStart(fs: FileSystem): nat {
    if fs.kind == FAT32 then
      fs.reservedSectorCount + fs.fatSectorCount * fs.numberOfFats
    else
      fs.reservedSectorCount + fs.fatSectorCount * fs.numberOfFats + fs.rootEntryCount / 16
  }

  function ClusterToSector(fs: FileSystem, cluster: nat): nat
    requires 2 <= cluster
  {
    DataStart(fs) + (cluster - 2) * fs.sectorsPerCluster
  }

  function SectorToCluster(fs: FileSystem, sector: nat): nat
    requires DataStart(fs) <= sector && fs.sectorsPerCluster > 0
  {
    var d := sector - DataStart(fs);
    (d - d % fs.sectorsPerCluster) / fs.sectorsPerCluster + 2
  }

  /** The clusters of the volume fit behind the table on a disc of that many sectors. */
  predicate DataOnDisc(fs: FileSystem, sectors: nat) {
    && fs.sectorsPerCluster > 0 && fs.numberOfFats > 0
    && DataStart(fs) + fs.dataClusterCount * fs.sectorsPerCluster <= sectors
  }

  predicate IsCluster(fs: FileSystem, c: nat) {
    2 <= c < fs.dataClusterCount + 2
  }

  function Quot(x: nat, n: nat): nat
    requires n > 0
  {
    x / n
  }

  function Rem(x: nat, n: nat): (r: nat)
    requires n > 0
    ensures r < n
  {
    x % n
  }

  lemma Recompose(x: nat, n: nat)
    requires n > 0
    ensures x == Quot(x, n) * n + Rem(x, n)
  {
    assert n * (x / n) == x / n * n;
  }

  lemma {:induction false} NextMultiple(a: nat, b: nat, n: nat)
    requires a < b
    ensures a * n + n <= b * n
    decreases b
  {
    assert (b - 1) * n + n == b * n;
    if a < b - 1 { NextMultiple(a, b - 1, n); }
  }

  lemma MultiplesOrdered(a: nat, b: nat, n: nat)
    requires a <= b
    ensures a * n <= b * n
  {
    if a < b { NextMultiple(a, b, n); }
  }

  lemma QuotientBelow(q: nat, m: nat, n: nat)
    requires n > 0 && q < m * n
    ensures Quot(q, n) < m
  {
    hide Quot, Rem;
    var i := Quot(q, n);
    Recompose(q, n);
    MultiplesOrdered(m, if i < m then m else i, n);
  }

  lemma QuotientIsUnique(a: nat, b: nat, r: nat, s: nat, n: nat)
    requires r < n && s < n && a * n + r == b * n + s
    ensures a == b && r == s
  {
    if a < b { NextMultiple(a, b, n); }
    if b < a { NextMultiple(b, a, n); }
  }

  lemma DivisionIs(x: nat, n: nat, q: nat, r: nat)
    requires r < n && x == q * n + r
    ensures x / n == q && x % n == r
  {
    var q', r' := x / n, x % n;
    assert x == n * q' + r';
    assert n * q' == q' * n;
    QuotientIsUnique(q', q, r', r, n);
  }

  /** Sectors of clusters of the volume lie in the data area, behind every copy of the table. */
  lemma ClusterSectorInData(fs: FileSystem, c: nat, i: nat, sectors: nat)
    requires DataOnDisc(fs, sectors) && IsCluster(fs, c) && i < fs.sectorsPerCluster
    ensures fs.reservedSectorCount + fs.fatSectorCount * fs.numberOfFats <= ClusterToSector(fs, c) + i < sectors
    ensures !IsTableSector(fs, ClusterToSector(fs, c) + i)
  {
    NextMultiple(c - 2, fs.dataClusterCount, fs.sectorsPerCluster);
    TableBeforeData(fs);
  }

  lemma TableBeforeData(fs: FileSystem)
    requires fs.numberOfFats > 0
    ensures fs.fatSectorCount <= fs.fatSectorCount * fs.numberOfFats
  {
    if fs.numberOfFats > 1 { NextMultiple(1, fs.numberOfFats, fs.fatSectorCount); }
    assert fs.fatSectorCount * fs.numberOfFats == fs.numberOfFats * fs.fatSectorCount;
  }

  /** Different clusters, or different sectors of one, are different sectors of the disc. */
  lemma ClusterSectorsDistinct(fs: FileSystem, c: nat, i: nat, d: nat, j: nat)
    requires 2 <= c && 2 <= d && i < fs.sectorsPerCluster && j < fs.sectorsPerCluster
    requires ClusterToSector(fs, c) + i == ClusterToSector(fs, d) + j
    ensures c == d && i == j
  {
    QuotientIsUnique(c - 2, d - 2, i, j, fs.sectorsPerCluster);
  }

  /** Every sector of a cluster leads back to it. */
  lemma SectorOfClusterLeadsBack(fs: FileSystem, c: nat, i: nat)
    requires 2 <= c && i < fs.sectorsPerCluster
    ensures ClusterToSector(fs, c) + i >= DataStart(fs)
    ensures SectorToCluster(fs, ClusterToSector(fs, c) + i) == c
  {
    var n := fs.sectorsPerCluster;
    DivisionIs((c - 2) * n + i, n, c - 2, i);
    DivisionIs((c - 2) * n, n, c - 2, 0);
  }

  /** The type is the narrowest whose entries number all clusters below the ten highest values, which have other meanings. */
  lemma TypeIsNarrowest(clusters: nat)
    ensures DetermineFatType(clusters) == FAT12 <==> clusters + 1 < LeastEoc(FAT12) - 2
    ensures DetermineFatType(clusters) == FAT32 <==> clusters + 1 >= LeastEoc(FAT16) - 2
  {}

  /** The table of a sane volume is not in the boot sector's way, and it has clusters of a power of two of sectors, 32 kB at most. */
  lemma SaneIsUsable(v: VolumeId, numSectors: nat)
    requires VerifySanity(v, numSectors)
    ensures v.sectorsPerCluster > 0 && !IsTableSector(Mounted(v), 0) && Mounted(v).fatSectorCount <= numSectors
    ensures 512 * v.sectorsPerCluster <= 0x8000 && 64 % v.sectorsPerCluster == 0
  {}

  /** Every cluster number of a mounted volume is a link, and none the end of a chain, exactly when 28 bits number its clusters. */
  lemma LinksExactly(clusters: nat)
    ensures (forall c | 2 <= c < clusters + 2 :: !IsEoc(DetermineFatType(clusters), c)) <==> clusters + 2 <= LeastEoc(FAT32)
  {
    var kind := DetermineFatType(clusters);
    if clusters + 2 > LeastEoc(FAT32) {
      assert IsEoc(kind, LeastEoc(FAT32));
    }
  }

  /** When the areas fit on the volume, so do all its clusters. */
  lemma MountedClustersFit(v: VolumeId)
    requires v.sectorsPerCluster > 0 && v.numberOfFats > 0
    requires OverheadSectors(v) <= SectorCount(v) < TWO_TO_THE_32
    ensures DataOnDisc(Mounted(v), SectorCount(v))
  {
    var fs := Mounted(v);
    var data := SectorCount(v) - OverheadSectors(v);
    assert data % TWO_TO_THE_32 == data;
    var n := fs.sectorsPerCluster;
    assert data / n * n <= data by { assert data == data / n * n + data % n; }
    assert v.numberOfFats * FatSectorCount(v) == fs.fatSectorCount * fs.numberOfFats;
    assert v.rootEntryCount / 16 <= RootDirSectors(v);
  }

  /**
   The data area starts behind the root directory area exactly when that area
   fills whole sectors: mounting rounds its size up, the conversions round down.
   */
  lemma DataBehindRootExactly(v: VolumeId)
    requires v.sectorsPerCluster > 0 && Mounted(v).kind != FAT32
    ensures DataStart(Mounted(v)) >= OverheadSectors(v) <==> v.rootEntryCount % 16 == 0
  {
    assert v.numberOfFats * FatSectorCount(v) == Mounted(v).fatSectorCount * Mounted(v).numberOfFats;
    var q, r := v.rootEntryCount / 16, v.rootEntryCount % 16;
    assert v.rootEntryCount * 32 == 512 * q + 32 * r;
  }

  /** Eight root entries take half a sector: mounting counts one sector for them, the conversions none. */
  lemma HalfRootSectorIsLost()
    ensures var v := VolumeId(512, 1, 1, 1, 8, 100, 0, 1, 0, 0);
      Mounted(v).kind == FAT12 && DataStart(Mounted(v)) == 2 && OverheadSectors(v) == 3
  {}
}
