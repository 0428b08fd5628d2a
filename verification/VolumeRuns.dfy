/**
 Whole runs of the volume: files are created, extended and deleted in any
 order, including requests that the volume cannot meet.
 */
module VolumeRuns {
  import opened FatTable
  import opened Chains
  import opened Allocation

  /** The table and the chains of the files on it; a file without clusters has an empty chain. */
  datatype Fat = Fat(kind: FatType, tab: seq<nat>, files: seq<seq<nat>>)

  datatype Op =
    | Create
    | ExtendFile(file: nat, n: nat)
    | Delete(file: nat)

  ghost predicate AllChains(s: Fat) {
    forall i | 0 <= i < |s.files| && s.files[i] != [] :: IsChain(s.kind, s.tab, s.files[i])
  }

  ghost predicate Disjoint(files: seq<seq<nat>>) {
    forall i, j, c | 0 <= i < j < |files| && c in files[i] :: c !in files[j]
  }

  ghost predicate Owned(files: seq<seq<nat>>, c: nat) {
    exists i :: 0 <= i < |files| && c in files[i]
  }

  ghost predicate OthersFree(s: Fat) {
    forall c | 2 <= c < |s.tab| && !Owned(s.files, c) :: s.tab[c] == 0
  }

  /** Chains end, share no cluster, and every other cluster is free. */
  ghost predicate Consistent(s: Fat) {
    WellSized(s.kind, s.tab) && |s.tab| >= 4 && AllChains(s) && Disjoint(s.files) && OthersFree(s)
  }

  /** The effect of each operation; one on a file that is not there does nothing, and
      deleting a file without clusters clears the entry of cluster 0. */
  ghost function Step(s: Fat, op: Op): Fat
    requires Consistent(s)
  {
    match op
    case Create =>
      var c := FirstFree(s.tab, 2, |s.tab| - 2);
      Fat(s.kind, s.tab[c := EocMarker(s.kind)], s.files + [if c == 0 then [] else [c]])
    case ExtendFile(i, n) =>
      if i >= |s.files| || s.files[i] == [] then s else
        var ch := s.files[i];
        var last := ch[|ch| - 1];
        Fat(s.kind, AllocTable(s.kind, s.tab, last, n), s.files[i := ch + Picks(s.tab, last, n)])
    case Delete(i) =>
      if i >= |s.files| then s else
        Fat(s.kind, if s.files[i] == [] then s.tab[0 := 0] else Cleared(s.tab, s.files[i]), s.files[i := []])
  }

  // ----- one file's chain is replaced, using free clusters only

  ghost predicate Replaces(s: Fat, tab': seq<nat>, k: nat, ch': seq<nat>) {
    && k < |s.files| && |tab'| == |s.tab|
    && (ch' != [] ==> IsChain(s.kind, tab', ch'))
    && (forall c | c in ch' && c !in s.files[k] :: 2 <= c < |s.tab| && s.tab[c] == 0)
    && (forall c | 2 <= c < |s.tab| && c !in ch' :: tab'[c] == if c in s.files[k] then 0 else s.tab[c])
  }

  lemma ChainMembersUsed(kind: FatType, tab: seq<nat>, ch: seq<nat>, c: nat)
    requires IsChain(kind, tab, ch) && c in ch
    ensures 2 <= c < |tab| && tab[c] != 0
  {
    ChainIsUsed(kind, tab, ch);
  }

  /** Another file keeps its chain and stays apart from the new one. */
  lemma OtherFileKept(s: Fat, tab': seq<nat>, k: nat, ch': seq<nat>, i: nat)
    requires AllChains(s) && Disjoint(s.files) && Replaces(s, tab', k, ch')
    requires i < |s.files| && i != k && s.files[i] != []
    ensures IsChain(s.kind, tab', s.files[i])
    ensures forall c | c in s.files[i] :: c !in ch'
  {
    forall c | c in s.files[i] ensures c !in ch' && c !in s.files[k] {
      ChainMembersUsed(s.kind, s.tab, s.files[i], c);
    }
    ChainFrame(s.kind, s.tab, tab', s.files[i]);
  }

  lemma ReplaceKeepsOthersFree(s: Fat, tab': seq<nat>, k: nat, ch': seq<nat>)
    requires OthersFree(s) && Replaces(s, tab', k, ch')
    ensures OthersFree(Fat(s.kind, tab', s.files[k := ch']))
  {
    var files' := s.files[k := ch'];
    forall c | 2 <= c < |tab'| && !Owned(files', c) ensures tab'[c] == 0 {
      assert c !in files'[k];
      if Owned(s.files, c) {
        var i :| 0 <= i < |s.files| && c in s.files[i];
        assert c in files'[i] || i == k;
      }
    }
  }

  lemma ReplaceKeeps(s: Fat, tab': seq<nat>, k: nat, ch': seq<nat>)
    requires Consistent(s) && Replaces(s, tab', k, ch')
    ensures Consistent(Fat(s.kind, tab', s.files[k := ch']))
  {
    var files' := s.files[k := ch'];
    ReplaceKeepsOthersFree(s, tab', k, ch');
    forall i | 0 <= i < |files'| && files'[i] != [] ensures IsChain(s.kind, tab', files'[i]) {
      if i != k { OtherFileKept(s, tab', k, ch', i); }
    }
    forall i, j, c | 0 <= i < j < |files'| && c in files'[i] ensures c !in files'[j] {
      if j == k {
        OtherFileKept(s, tab', k, ch', i);
      } else if i == k && s.files[j] != [] {
        OtherFileKept(s, tab', k, ch', j);
      }
    }
  }

  // ----- the three operations are replacements

  lemma AddEmptyKeeps(s: Fat)
    requires Consistent(s)
    ensures Consistent(s.(files := s.files + [[]]))
  {
    var files' := s.files + [[]];
    forall c | Owned(s.files, c) ensures Owned(files', c) {
      var i :| 0 <= i < |s.files| && c in s.files[i];
      assert c in files'[i];
    }
  }

  lemma CreateKeeps(s: Fat)
    requires Consistent(s)
    ensures Consistent(Step(s, Create))
  {
    hide AllChains, Disjoint, OthersFree;
    var c := FirstFree(s.tab, 2, |s.tab| - 2);
    var s0, ch := s.(files := s.files + [[]]), if c == 0 then [] else [c];
    AddEmptyKeeps(s);
    assert s0.files[|s.files|] == [];
    ReplaceKeeps(s0, s.tab[c := EocMarker(s.kind)], |s.files|, ch);
    assert s0.files[|s.files| := ch] == s.files + [ch];
  }

  lemma ExtendKeeps(s: Fat, k: nat, n: nat)
    requires Consistent(s) && k < |s.files| && s.files[k] != []
    ensures Consistent(Step(s, ExtendFile(k, n)))
  {
    var ch := s.files[k];
    var last := ch[|ch| - 1];
    var ps := Picks(s.tab, last, n);
    AllocIsChain(s.kind, s.tab, ch, n);
    ChainIsUsed(s.kind, s.tab, ch);
    ScanMembers(s.tab, last);
    assert last in ch;
    forall c | c in ch + ps && c !in ch ensures 2 <= c < |s.tab| && s.tab[c] == 0 {
      assert c in ps;
    }
    ReplaceKeeps(s, AllocTable(s.kind, s.tab, last, n), k, ch + ps);
  }

  lemma DeleteKeeps(s: Fat, k: nat)
    requires Consistent(s) && k < |s.files|
    ensures Consistent(Step(s, Delete(k)))
  {
    ReplaceKeeps(s, Step(s, Delete(k)).tab, k, []);
  }

  /** Every operation keeps the volume consistent, whether or not there was room for it. */
  lemma StepKeepsConsistent(s: Fat, op: Op)
    requires Consistent(s)
    ensures Consistent(Step(s, op))
  {
    match op
    case Create => CreateKeeps(s);
    case ExtendFile(i, n) => if i < |s.files| && s.files[i] != [] { ExtendKeeps(s, i, n); }
    case Delete(i) => if i < |s.files| { DeleteKeeps(s, i); }
  }

  ghost function Run(s: Fat, ops: seq<Op>): Fat
    requires Consistent(s)
    decreases |ops|
  {
    if ops == [] then s else
      StepKeepsConsistent(s, ops[0]);
      Run(Step(s, ops[0]), ops[1..])
  }

  /** From a consistent volume, every run leads to a consistent volume of the same size. */
  lemma {:induction false} RunKeepsConsistent(s: Fat, ops: seq<Op>)
    requires Consistent(s)
    ensures Consistent(Run(s, ops)) && |Run(s, ops).tab| == |s.tab|
    decreases |ops|
  {
    if ops != [] {
      StepKeepsConsistent(s, ops[0]);
      RunKeepsConsistent(Step(s, ops[0]), ops[1..]);
    }
  }

  // ----- conservation

  /** Number of clusters in use by the first n files. */
  function TotalLength(files: seq<seq<nat>>, n: nat): nat
    requires n <= |files|
  {
    if n == 0 then 0 else TotalLength(files, n - 1) + |files[n - 1]|
  }

  /** The number of free clusters of a table that is free throughout. */
  lemma {:induction false} CountAllFree(tab: seq<nat>, lo: nat, hi: nat)
    requires lo <= hi <= |tab| && forall c | lo <= c < hi :: tab[c] == 0
    ensures CountFree(tab, lo, hi) == hi - lo
    decreases hi
  {
    if lo < hi { CountAllFree(tab, lo, hi - 1); }
  }

  lemma {:induction false} TotalLengthUpdate(files: seq<seq<nat>>, n: nat, k: nat)
    requires n <= |files| && k < |files|
    ensures TotalLength(files[k := []], n) + (if k < n then |files[k]| else 0) == TotalLength(files, n)
  {
    if n > 0 { TotalLengthUpdate(files, n - 1, k); }
  }

  /** Deleting a file frees exactly as many clusters as its chain is long. */
  lemma DeleteFrees(s: Fat, k: nat)
    requires Consistent(s) && k < |s.files| && s.files[k] != []
    ensures CountFree(Step(s, Delete(k)).tab, 2, |s.tab|) == CountFree(s.tab, 2, |s.tab|) + |s.files[k]|
  {
    ChainIsUsed(s.kind, s.tab, s.files[k]);
    ChainIsDistinct(s.kind, s.tab, s.files[k]);
    CountFreeCleared(s.tab, s.files[k]);
  }

  /** In a consistent volume, every cluster is free or belongs to exactly one place of one file. */
  lemma {:induction false} ClustersAreConserved(s: Fat, n: nat)
    requires Consistent(s) && n <= |s.files| && forall i | n <= i < |s.files| :: s.files[i] == []
    ensures CountFree(s.tab, 2, |s.tab|) + TotalLength(s.files, |s.files|) == |s.tab| - 2
    decreases n
  {
    if n == 0 {
      NoFileNoCluster(s, |s.files|);
      forall c | 2 <= c < |s.tab| ensures s.tab[c] == 0 {
        assert !Owned(s.files, c);
      }
      CountAllFree(s.tab, 2, |s.tab|);
    } else if s.files[n - 1] == [] {
      ClustersAreConserved(s, n - 1);
    } else {
      DeleteKeeps(s, n - 1);
      DeleteFrees(s, n - 1);
      ClustersAreConserved(Step(s, Delete(n - 1)), n - 1);
      TotalLengthUpdate(s.files, |s.files|, n - 1);
    }
  }

  lemma {:induction false} NoFileNoCluster(s: Fat, n: nat)
    requires n <= |s.files| && forall i | 0 <= i < |s.files| :: s.files[i] == []
    ensures TotalLength(s.files, n) == 0
  {
    if n > 0 { NoFileNoCluster(s, n - 1); }
  }

  /** Along any run, free clusters and clusters in files always add up to the volume. */
  lemma RunConservesClusters(s: Fat, ops: seq<Op>)
    requires Consistent(s)
    ensures var s' := Run(s, ops);
      CountFree(s'.tab, 2, |s'.tab|) + TotalLength(s'.files, |s'.files|) == |s.tab| - 2
  {
    RunKeepsConsistent(s, ops);
    ClustersAreConserved(Run(s, ops), |Run(s, ops).files|);
  }

  /** Clearing a chain after extending it leaves the table that clearing it before would have left. */
  lemma ExtendThenClear(kind: FatType, tab: seq<nat>, ch: seq<nat>, n: nat)
    requires IsChain(kind, tab, ch)
    ensures var ps := Picks(tab, ch[|ch| - 1], n);
      && Cleared(AllocTable(kind, tab, ch[|ch| - 1], n), ch + ps) == Cleared(tab, ch)
      && CountFree(Cleared(tab, ch), 2, |tab|) == CountFree(AllocTable(kind, tab, ch[|ch| - 1], n), 2, |tab|) + |ch| + |ps|
  {
    var last := ch[|ch| - 1];
    var ps, tab' := Picks(tab, last, n), AllocTable(kind, tab, last, n);
    AllocIsChain(kind, tab, ch, n);
    ChainIsUsed(kind, tab, ch);
    ScanMembers(tab, last);
    assert last in ch;
    assert forall c :: c in ch + ps <==> c in ch || c in ps;
    forall c | 0 <= c < |tab| ensures Cleared(tab', ch + ps)[c] == Cleared(tab, ch)[c] {
      if c in ps && c !in ch {
        var i :| 0 <= i < |ps| && ps[i] == c;
      }
    }
    assert Cleared(tab', ch + ps) == Cleared(tab, ch);
    ChainIsUsed(kind, tab', ch + ps);
    ChainIsDistinct(kind, tab', ch + ps);
    CountFreeCleared(tab', ch + ps);
  }
}
