/**
 Whole runs over the contents of files: files are created, written and deleted
 in any order, and each holds what was last written to it. A directory is a
 file here like any other; changing a record is a write to it.
 */
module FileRuns {
  import opened Types
  import opened FatTable
  import opened Chains
  import opened Allocation
  import opened Geometry
  import opened FileBytes
  import opened VolumeRuns

  datatype FileState = FileState(chain: seq<nat>, size: nat)

  datatype Store = Store(tab: seq<nat>, disc: seq<Sector>, files: seq<FileState>)

  datatype FileOp =
    | CreateFile
    | WriteFile(file: nat, offset: nat, data: seq<byte>)
    | DeleteFile(file: nat)

  function ChainsOf(files: seq<FileState>): (chains: seq<seq<nat>>)
    ensures |chains| == |files|
  {
    seq(|files|, (i: nat) requires i < |files| => files[i].chain)
  }

  function FatOf(fs: FileSystem, s: Store): Fat { Fat(fs.kind, s.tab, ChainsOf(s.files)) }

  /** The table is consistent and every file's size is within what its chain holds. */
  ghost predicate Sane(fs: FileSystem, s: Store) {
    && DataOnDisc(fs, |s.disc|) && |s.tab| == fs.dataClusterCount + 2 && Consistent(FatOf(fs, s))
    && forall i | 0 <= i < |s.files| :: s.files[i].size <= Capacity(fs, s.files[i].chain)
  }

  function ContentOf(fs: FileSystem, disc: seq<Sector>, f: FileState): seq<byte> {
    Content(fs, disc, f.chain, f.size)
  }

  function Contents(fs: FileSystem, s: Store): (texts: seq<seq<byte>>)
    ensures |texts| == |s.files|
  {
    seq(|s.files|, (i: nat) requires i < |s.files| => ContentOf(fs, s.disc, s.files[i]))
  }

  // ----- what the operations leave behind

  ghost predicate OnlyTableChanged(fs: FileSystem, disc: seq<Sector>, disc': seq<Sector>) {
    |disc'| == |disc| && forall t | 0 <= t < |disc| && !IsTableSector(fs, t) :: disc'[t] == disc[t]
  }

  ghost predicate OnlyChainChanged(fs: FileSystem, disc: seq<Sector>, disc': seq<Sector>, ch: seq<nat>) {
    |disc'| == |disc| && forall t | 0 <= t < |disc| && !IsTableSector(fs, t) && !InChain(fs, ch, t) :: disc'[t] == disc[t]
  }

  /** A write within the file for which there was room. */
  ghost predicate Wrote(fs: FileSystem, tab: seq<nat>, disc: seq<Sector>, f: FileState, need: nat,
                        tab': seq<nat>, disc': seq<Sector>, f': FileState, offset: nat, data: seq<byte>) {
    && f.chain != [] && 2 <= f.chain[|f.chain| - 1] < |tab| && offset <= f.size
    && tab' == AllocTable(fs.kind, tab, f.chain[|f.chain| - 1], need)
    && f'.chain == f.chain + Picks(tab, f.chain[|f.chain| - 1], need)
    && f'.size == Max(f.size, offset + |data|) && f'.size <= Capacity(fs, f'.chain)
    && OnlyChainChanged(fs, disc, disc', f'.chain)
    && ContentOf(fs, disc', f') == Splice(ContentOf(fs, disc, f), offset, data)
  }

  ghost predicate Stepped(fs: FileSystem, s: Store, op: FileOp, s': Store)
    requires Sane(fs, s)
  {
    match op
    case CreateFile =>
      var c := FirstFree(s.tab, 2, |s.tab| - 2);
      && s'.tab == s.tab[c := EocMarker(fs.kind)] && OnlyTableChanged(fs, s.disc, s'.disc)
      && s'.files == s.files + [FileState(if c == 0 then [] else [c], 0)]
    case WriteFile(i, offset, data) =>
      && i < |s.files| == |s'.files| && s'.files == s.files[i := s'.files[i]]
      && exists need :: Wrote(fs, s.tab, s.disc, s.files[i], need, s'.tab, s'.disc, s'.files[i], offset, data)
    case DeleteFile(i) =>
      && i < |s.files| && OnlyTableChanged(fs, s.disc, s'.disc)
      && s'.tab == (if s.files[i].chain == [] then s.tab[0 := 0] else Cleared(s.tab, s.files[i].chain))
      && s'.files == s.files[i := FileState([], 0)]
  }

  // ----- the reference: texts by number

  function Applied(texts: seq<seq<byte>>, op: FileOp): seq<seq<byte>> {
    match op
    case CreateFile => texts + [[]]
    case WriteFile(i, offset, data) =>
      if i < |texts| && offset <= |texts[i]| then texts[i := Splice(texts[i], offset, data)] else texts
    case DeleteFile(i) => if i < |texts| then texts[i := []] else texts
  }

  // ----- one step

  /** A file whose sectors are untouched keeps its contents. */
  lemma ChainUntouched(fs: FileSystem, disc: seq<Sector>, disc': seq<Sector>, ch: seq<nat>, other: seq<nat>, size: nat)
    requires OnVolume(fs, |disc|, ch) && OnVolume(fs, |disc|, other) && OnlyChainChanged(fs, disc, disc', ch)
    requires forall i, j | 0 <= i < |ch| && 0 <= j < |other| :: ch[i] != other[j]
    ensures Content(fs, disc', other, size) == Content(fs, disc, other, size)
  {
    hide Quot, Rem, ClusterToSector, InChain;
    forall p: nat | p < size ensures ByteOf(fs, disc', other, p) == ByteOf(fs, disc, other, p) {
      if fs.sectorsPerCluster > 0 && Quot(p / 512, fs.sectorsPerCluster) < |other| {
        OtherSector(fs, |disc|, ch, other, p / 512);
      }
    }
  }

  lemma FileOnVolume(fs: FileSystem, s: Store, i: nat)
    requires Sane(fs, s) && i < |s.files|
    ensures OnVolume(fs, |s.disc|, s.files[i].chain)
  {
    var ch := ChainsOf(s.files)[i];
    if ch != [] { ChainOnVolume(fs, |s.disc|, s.tab, ch); }
  }

  lemma FilesApart(fs: FileSystem, s: Store, i: nat, j: nat)
    requires Sane(fs, s) && i < |s.files| && j < |s.files| && i != j
    ensures forall a, b | 0 <= a < |s.files[i].chain| && 0 <= b < |s.files[j].chain| :: s.files[i].chain[a] != s.files[j].chain[b]
  {
    var x, y := s.files[i].chain, s.files[j].chain;
    assert ChainsOf(s.files)[i] == x && ChainsOf(s.files)[j] == y;
    ChainsApart(ChainsOf(s.files), i, j);
  }

  lemma ChainsApart(chains: seq<seq<nat>>, i: nat, j: nat)
    requires Disjoint(chains) && i < |chains| && j < |chains| && i != j
    ensures forall a, b | 0 <= a < |chains[i]| && 0 <= b < |chains[j]| :: chains[i][a] != chains[j][b]
  {
    forall a, b | 0 <= a < |chains[i]| && 0 <= b < |chains[j]| ensures chains[i][a] != chains[j][b] {
      assert chains[i][a] in chains[i] && chains[j][b] in chains[j];
    }
  }

  /** Nothing but the table changes: every file is as it was. */
  lemma TableChangeKeeps(fs: FileSystem, s: Store, disc': seq<Sector>, i: nat)
    requires Sane(fs, s) && i < |s.files| && OnlyTableChanged(fs, s.disc, disc')
    ensures ContentOf(fs, disc', s.files[i]) == ContentOf(fs, s.disc, s.files[i])
  {
    hide InChain;
    FileOnVolume(fs, s, i);
    ChainUntouched(fs, s.disc, disc', [], s.files[i].chain, s.files[i].size);
  }

  lemma CreateStep(fs: FileSystem, s: Store, s': Store)
    requires Sane(fs, s) && Stepped(fs, s, CreateFile, s')
    ensures Sane(fs, s') && Contents(fs, s') == Applied(Contents(fs, s), CreateFile)
  {
    hide Content, Consistent;
    StepKeepsConsistent(FatOf(fs, s), Create);
    assert FatOf(fs, s') == Step(FatOf(fs, s), Create);
    forall i | 0 <= i < |s.files| ensures ContentOf(fs, s'.disc, s.files[i]) == ContentOf(fs, s.disc, s.files[i]) {
      TableChangeKeeps(fs, s, s'.disc, i);
    }
    assert Contents(fs, s')[|s.files|] == [];
  }

  lemma DeleteStep(fs: FileSystem, s: Store, k: nat, s': Store)
    requires Sane(fs, s) && Stepped(fs, s, DeleteFile(k), s')
    ensures Sane(fs, s') && Contents(fs, s') == Applied(Contents(fs, s), DeleteFile(k))
  {
    hide Content, Consistent;
    StepKeepsConsistent(FatOf(fs, s), Delete(k));
    assert ChainsOf(s'.files) == ChainsOf(s.files)[k := []];
    assert FatOf(fs, s') == Step(FatOf(fs, s), Delete(k));
    forall i | 0 <= i < |s.files| ensures ContentOf(fs, s'.disc, s.files[i]) == ContentOf(fs, s.disc, s.files[i]) {
      TableChangeKeeps(fs, s, s'.disc, i);
    }
    assert Contents(fs, s')[k] == [];
  }

  lemma WriteStep(fs: FileSystem, s: Store, k: nat, offset: nat, data: seq<byte>, s': Store)
    requires Sane(fs, s) && Stepped(fs, s, WriteFile(k, offset, data), s')
    ensures Sane(fs, s') && Contents(fs, s') == Applied(Contents(fs, s), WriteFile(k, offset, data))
  {
    hide Content, Consistent, Splice, AllocTable, Picks, OnlyChainChanged;
    var f, f' := s.files[k], s'.files[k];
    var need :| Wrote(fs, s.tab, s.disc, f, need, s'.tab, s'.disc, f', offset, data);
    StepKeepsConsistent(FatOf(fs, s), ExtendFile(k, need));
    assert ChainsOf(s'.files) == ChainsOf(s.files)[k := f'.chain];
    assert FatOf(fs, s') == Step(FatOf(fs, s), ExtendFile(k, need));
    SameDiscSize(fs, s.disc, s'.disc, f'.chain);
    forall i | 0 <= i < |s.files| && i != k ensures ContentOf(fs, s'.disc, s.files[i]) == ContentOf(fs, s.disc, s.files[i]) {
      FileOnVolume(fs, s', k);
      FileOnVolume(fs, s', i);
      FilesApart(fs, s', k, i);
      ChainUntouched(fs, s.disc, s'.disc, f'.chain, s.files[i].chain, s.files[i].size);
    }
  }

  lemma SameDiscSize(fs: FileSystem, disc: seq<Sector>, disc': seq<Sector>, ch: seq<nat>)
    requires OnlyChainChanged(fs, disc, disc', ch)
    ensures |disc'| == |disc|
  {}

  lemma StepKeepsContents(fs: FileSystem, s: Store, op: FileOp, s': Store)
    requires Sane(fs, s) && Stepped(fs, s, op, s')
    ensures Sane(fs, s') && Contents(fs, s') == Applied(Contents(fs, s), op)
  {
    match op
    case CreateFile => CreateStep(fs, s, s');
    case WriteFile(k, offset, data) => WriteStep(fs, s, k, offset, data, s');
    case DeleteFile(k) => DeleteStep(fs, s, k, s');
  }

  // ----- runs

  function AppliedAll(texts: seq<seq<byte>>, ops: seq<FileOp>): seq<seq<byte>>
    decreases |ops|
  {
    if ops == [] then texts else AppliedAll(Applied(texts, ops[0]), ops[1..])
  }

  /** The stores a run goes through, each left behind by an operation on the one before. */
  ghost predicate IsRun(fs: FileSystem, stores: seq<Store>, ops: seq<FileOp>) {
    && |stores| == |ops| + 1
    && forall k | 0 <= k < |ops| :: Sane(fs, stores[k]) ==> Stepped(fs, stores[k], ops[k], stores[k + 1])
  }

  /** After any run every file holds what the operations on the texts alone would leave it with. */
  lemma {:induction false} RunKeepsContents(fs: FileSystem, stores: seq<Store>, ops: seq<FileOp>)
    requires IsRun(fs, stores, ops) && Sane(fs, stores[0])
    ensures Sane(fs, stores[|ops|])
    ensures Contents(fs, stores[|ops|]) == AppliedAll(Contents(fs, stores[0]), ops)
    decreases |ops|
  {
    hide Sane, Stepped, Contents, Applied;
    if ops != [] {
      StepKeepsContents(fs, stores[0], ops[0], stores[1]);
      RestIsRun(fs, stores, ops);
      RunKeepsContents(fs, stores[1..], ops[1..]);
    }
  }

  lemma RestIsRun(fs: FileSystem, stores: seq<Store>, ops: seq<FileOp>)
    requires IsRun(fs, stores, ops) && ops != []
    ensures IsRun(fs, stores[1..], ops[1..])
  {
    hide Sane, Stepped;
    forall k | 0 <= k < |ops| - 1 && Sane(fs, stores[1..][k]) ensures Stepped(fs, stores[1..][k], ops[1..][k], stores[1..][k + 1]) {
      assert stores[1..][k] == stores[k + 1] && ops[1..][k] == ops[k + 1] && stores[1..][k + 1] == stores[k + 1 + 1];
      assert Stepped(fs, stores[k + 1], ops[k + 1], stores[k + 1 + 1]);
    }
  }
}
