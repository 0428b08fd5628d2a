/**
 What a request for more clusters does to the table. The scan starts behind the
 end of the chain, turns around once and gives up at its second turn. A cluster
 just linked keeps entry 0 until the next one is linked or the chain is closed,
 so the scan can meet the new end of the chain and count it a second time.
 */
module Allocation {
  import opened Types
  import opened FatTable
  import opened Chains

  /** The free clusters as the scan that starts behind `last` meets them; the
      highest cluster, |tab| - 1, is never examined. */
  function Scan(tab: seq<nat>, last: nat): seq<nat>
    requires 2 <= last < |tab|
  {
    FreeAbove(tab, last) + FreeBelow(tab, last)
  }

  function FreeAbove(tab: seq<nat>, last: nat): seq<nat>
    requires last < |tab|
  {
    FreeIn(tab, last + 1, |tab| - 1)
  }

  function FreeBelow(tab: seq<nat>, last: nat): seq<nat>
    requires last < |tab|
  {
    FreeIn(tab, 2, last)
  }

  /** The clusters that a request for n clusters obtains. */
  function Picks(tab: seq<nat>, last: nat, n: nat): seq<nat>
    requires 2 <= last < |tab|
  {
    Scan(tab, last)[..Min(n, |Scan(tab, last)|)]
  }

  function LastOf(last: nat, ps: seq<nat>): nat {
    if ps == [] then last else ps[|ps| - 1]
  }

  /** A request that outlasts the free clusters meets its own new end when the
      free clusters all lie above the old end. */
  predicate MeetsOwnEnd(tab: seq<nat>, last: nat)
    requires last < |tab|
  {
    FreeAbove(tab, last) != [] && FreeBelow(tab, last) == []
  }

  /** How many clusters the loop counts as allocated. */
  function Claimed(tab: seq<nat>, last: nat, n: nat): nat
    requires 2 <= last < |tab|
  {
    var free := |Scan(tab, last)|;
    if n <= free then n else if MeetsOwnEnd(tab, last) then free + 1 else free
  }

  /** The return code: 0 for a request counted as met, else the number counted, narrowed. */
  function AllocCode(tab: seq<nat>, last: nat, n: nat): int
    requires 2 <= last < |tab|
  {
    if Claimed(tab, last, n) == n then 0 else ToInt16(Claimed(tab, last, n))
  }

  function AllocTable(kind: FatType, tab: seq<nat>, last: nat, n: nat): (r: seq<nat>)
    requires 2 <= last < |tab|
    ensures |r| == |tab|
  {
    if n == 0 then tab else
      PicksBelow(tab, last, n);
      LinkClosed(kind, tab, [last] + Picks(tab, last, n))
  }

  lemma PicksBelow(tab: seq<nat>, last: nat, n: nat)
    requires 2 <= last < |tab|
    ensures Below([last] + Picks(tab, last, n), |tab|)
  {}

  lemma ScanMembers(tab: seq<nat>, last: nat)
    requires 2 <= last < |tab| && tab[last] != 0
    ensures Distinct(Scan(tab, last))
    ensures forall i | 0 <= i < |Scan(tab, last)| :: 2 <= Scan(tab, last)[i] < |tab| - 1 && tab[Scan(tab, last)[i]] == 0
    ensures forall c | 2 <= c < |tab| - 1 && tab[c] == 0 :: c in Scan(tab, last)
  {
    var f1, f2 := FreeAbove(tab, last), FreeBelow(tab, last);
    FreeInAll(tab, last + 1, |tab| - 1);
    FreeInAll(tab, 2, last);
    var s := Scan(tab, last);
    forall i, j | 0 <= i < j < |s| ensures s[i] != s[j] {
      if i < |f1| <= j { assert s[j] == f2[j - |f1|]; }
    }
    forall c | 2 <= c < |tab| - 1 && tab[c] == 0 ensures c in s {
      assert c in f1 || c in f2;
    }
  }

  /** The chain grows by exactly the clusters picked, in scan order; no other entry changes. */
  lemma AllocIsChain(kind: FatType, tab: seq<nat>, ch: seq<nat>, n: nat)
    requires IsChain(kind, tab, ch)
    ensures var last := ch[|ch| - 1];
      && IsChain(kind, AllocTable(kind, tab, last, n), ch + Picks(tab, last, n))
      && forall c | 0 <= c < |tab| && c != last && c !in Picks(tab, last, n) ::
           AllocTable(kind, tab, last, n)[c] == tab[c]
  {
    var last := ch[|ch| - 1];
    ChainIsUsed(kind, tab, ch);
    ScanMembers(tab, last);
    assert ch + [] == ch;
    if n > 0 {
      ExtendIsChain(kind, tab, ch, Picks(tab, last, n));
    }
  }

  // ----- the scan, cluster by cluster

  /** The old end of the chain, then m free clusters above it and the free ones below it, both ascending. */
  ghost predicate IsScan(tab: seq<nat>, last: nat, full: seq<nat>, m: nat) {
    && 2 <= last < |tab| && tab[last] != 0
    && m < |full| && full[0] == last
    && Distinct(full)
    && (forall i | 0 < i < |full| :: 2 <= full[i] < |tab| - 1 && tab[full[i]] == 0)
    && (forall c | 2 <= c < |tab| - 1 && tab[c] == 0 :: c in full)
    && (forall i | 0 < i <= m :: last < full[i])
    && (forall i, j | 0 < i < j <= m :: full[i] < full[j])
    && (forall i | m < i < |full| :: full[i] < last)
    && (forall i, j | m < i < j < |full| :: full[i] < full[j])
  }

  lemma ListIsScan(tab: seq<nat>, last: nat, up: seq<nat>, down: seq<nat>)
    requires 2 <= last < |tab| && tab[last] != 0
    requires forall i | 0 <= i < |up| :: last < up[i] < |tab| - 1 && tab[up[i]] == 0
    requires forall i, j | 0 <= i < j < |up| :: up[i] < up[j]
    requires forall i | 0 <= i < |down| :: 2 <= down[i] < last && tab[down[i]] == 0
    requires forall i, j | 0 <= i < j < |down| :: down[i] < down[j]
    requires forall c | 2 <= c < |tab| - 1 && tab[c] == 0 :: c in up || c in down
    ensures IsScan(tab, last, [last] + (up + down), |up|)
  {
    var full := [last] + (up + down);
    ListParts(last, up, down);
    ListIsDistinct(last, up, down, full);
  }

  lemma ListIsDistinct(last: nat, up: seq<nat>, down: seq<nat>, full: seq<nat>)
    requires |full| == 1 + |up| + |down| && full[0] == last
    requires forall i | 0 < i <= |up| :: full[i] == up[i - 1] > last
    requires forall i | |up| < i < |full| :: full[i] == down[i - 1 - |up|] < last
    requires forall i, j | 0 <= i < j < |up| :: up[i] < up[j]
    requires forall i, j | 0 <= i < j < |down| :: down[i] < down[j]
    ensures Distinct(full)
  {
    forall i, j | 0 <= i < j < |full| ensures full[i] != full[j] {
      if j <= |up| {
        assert i == 0 || up[i - 1] < up[j - 1];
      } else if i > |up| {
        assert down[i - 1 - |up|] < down[j - 1 - |up|];
      }
    }
  }

  lemma ListParts(last: nat, up: seq<nat>, down: seq<nat>)
    ensures var full := [last] + (up + down);
      && full[0] == last
      && (forall i | 0 < i <= |up| :: full[i] == up[i - 1])
      && (forall i | |up| < i < |full| :: full[i] == down[i - 1 - |up|])
      && (forall c :: c in up || c in down ==> c in full)
  {}

  lemma ScanIsScan(tab: seq<nat>, last: nat)
    requires 2 <= last < |tab| && tab[last] != 0
    ensures IsScan(tab, last, [last] + Scan(tab, last), |FreeAbove(tab, last)|)
  {
    FreeInAll(tab, last + 1, |tab| - 1);
    FreeInAll(tab, 2, last);
    ListIsScan(tab, last, FreeAbove(tab, last), FreeBelow(tab, last));
  }

  /**
   The scan has examined cluster cc, before or after turning around: the first
   k clusters of the list are linked, and `met` says whether the new end has
   been counted twice.
   */
  ghost predicate Scanned(tab: seq<nat>, last: nat, full: seq<nat>, m: nat, turned: bool, cc: nat, k: nat, met: bool) {
    && IsScan(tab, last, full, m)
    && k < |full|
    && (if turned then
          && m <= k
          && (forall i | m < i <= k :: full[i] <= cc) && (forall i | k < i < |full| :: cc < full[i])
          && (met <==> 0 < m == |full| - 1 && full[m] <= cc)
        else
          && k <= m && last <= cc && !met
          && (forall i | 0 < i <= k :: full[i] <= cc) && (forall i | k < i <= m :: cc < full[i]))
  }

  /** The table at that moment. */
  function ScanTable(tab: seq<nat>, full: seq<nat>, k: nat, met: bool): (r: seq<nat>)
    requires k < |full| && Below(full, |tab|)
    ensures |r| == |tab|
  {
    var open := LinkOpen(tab, full[..k + 1]);
    if met then open[full[k] := full[k]] else open
  }

  /** In the table with open end, a cluster is free unless it has been linked from. */
  lemma OpenEntryFree(tab: seq<nat>, all: seq<nat>, c: nat)
    requires |all| > 0 && Below(all, |tab|) && Distinct(all) && c < |tab|
    requires forall i | 0 < i < |all| :: all[i] != 0
    ensures LinkOpen(tab, all)[c] == 0 <==> tab[c] == 0 && forall i | 0 <= i < |all| - 1 :: all[i] != c
  {
    LinkOpenEntries(tab, all);
    if i :| 0 <= i < |all| - 1 && all[i] == c {
      assert LinkOpen(tab, all)[all[i]] == all[i + 1];
    }
  }

  lemma ScanTableEntry(tab: seq<nat>, last: nat, full: seq<nat>, m: nat, k: nat, met: bool, c: nat)
    requires IsScan(tab, last, full, m) && k < |full| && (met ==> k > 0) && c < |tab|
    ensures Below(full, |tab|)
    ensures ScanTable(tab, full, k, met)[c] == 0 <==>
            tab[c] == 0 && (forall i | 0 <= i < k :: full[i] != c) && !(met && full[k] == c)
  {
    hide LinkOpen;
    OpenEntryFree(tab, full[..k + 1], c);
  }

  /** A free cluster examined before turning around is the next one of the list. */
  lemma ExamineUp(tab: seq<nat>, last: nat, full: seq<nat>, m: nat, cc: nat, k: nat, i: nat)
    requires 2 <= cc < |tab| - 1 && Scanned(tab, last, full, m, false, cc - 1, k, false)
    requires i < |full| && full[i] == cc && tab[cc] == 0
    ensures i == k + 1 && Scanned(tab, last, full, m, false, cc, k + 1, false)
  {
    assert 0 < i <= m;
    assert (if k + 1 < |full| then full[k + 1] else last) < full[i] || i <= k + 1;
  }

  /** After turning around, it is the next one or one already linked. */
  lemma ExamineTurned(tab: seq<nat>, last: nat, full: seq<nat>, m: nat, cc: nat, k: nat, met: bool, i: nat)
    requires 2 <= cc < |tab| - 1 && Scanned(tab, last, full, m, true, cc - 1, k, met)
    requires i < |full| && full[i] == cc && tab[cc] == 0
    ensures i <= k + 1
    ensures i == k + 1 ==> !met && Scanned(tab, last, full, m, true, cc, k + 1, met)
    ensures i == k ==> !met && Scanned(tab, last, full, m, true, cc, k, true)
    ensures i < k ==> Scanned(tab, last, full, m, true, cc, k, met)
  {
    assert (if k + 1 < |full| then full[k + 1] else last) < full[i] || i <= k + 1;
    assert k + 1 == |full| || cc <= full[k + 1];
    assert k == m ==> k + 1 == |full| || full[k + 1] < last;
  }

  /** A cluster that reads 0 is the next one of the list or, once, the new end itself. */
  lemma Examine(tab: seq<nat>, last: nat, full: seq<nat>, m: nat, turned: bool, cc: nat, k: nat, met: bool)
    requires 2 <= cc < |tab| - 1 && Scanned(tab, last, full, m, turned, cc - 1, k, met)
    ensures Below(full, |tab|)
    ensures ScanTable(tab, full, k, met)[cc] != 0 ==> Scanned(tab, last, full, m, turned, cc, k, met)
    ensures ScanTable(tab, full, k, met)[cc] == 0 ==>
      if k + 1 < |full| && full[k + 1] == cc then
        !met && Scanned(tab, last, full, m, turned, cc, k + 1, met)
      else
        full[k] == cc && !met && Scanned(tab, last, full, m, turned, cc, k, true)
  {
    hide ScanTable;
    ScanTableEntry(tab, last, full, m, k, met, cc);
    if tab[cc] == 0 {
      var i: nat :| i < |full| && full[i] == cc;
      if turned { ExamineTurned(tab, last, full, m, cc, k, met, i); } else { ExamineUp(tab, last, full, m, cc, k, i); }
    }
  }

  lemma LinkNext(tab: seq<nat>, full: seq<nat>, k: nat)
    requires k + 1 < |full| && Below(full, |tab|)
    ensures ScanTable(tab, full, k + 1, false) == ScanTable(tab, full, k, false)[full[k] := full[k + 1]]
  {
    assert full[..k + 2][..k + 1] == full[..k + 1];
  }

  /** The table and the position on the list once a cluster that reads 0 has been linked. */
  lemma TakeCluster(tab: seq<nat>, last: nat, full: seq<nat>, m: nat, turned: bool, cc: nat, k: nat, met: bool)
    returns (k': nat, met': bool)
    requires 2 <= cc < |tab| - 1 && Scanned(tab, last, full, m, turned, cc - 1, k, met)
    requires Below(full, |tab|) && ScanTable(tab, full, k, met)[cc] == 0
    ensures Scanned(tab, last, full, m, turned, cc, k', met') && full[k'] == cc
    ensures ScanTable(tab, full, k', met') == ScanTable(tab, full, k, met)[full[k] := cc]
    ensures k' + (if met' then 1 else 0) == k + (if met then 1 else 0) + 1
  {
    Examine(tab, last, full, m, turned, cc, k, met);
    if k + 1 < |full| && full[k + 1] == cc {
      LinkNext(tab, full, k);
      k', met' := k + 1, met;
    } else {
      k', met' := k, true;
    }
  }

  /** Turning around changes nothing. */
  lemma TurnAround(tab: seq<nat>, last: nat, full: seq<nat>, m: nat, cc: nat, k: nat)
    requires Scanned(tab, last, full, m, false, cc, k, false) && cc >= |tab| - 2
    ensures Scanned(tab, last, full, m, true, 1, k, false)
  {
    assert cc < full[m] || m <= k;
  }

  /** The table once the end is closed, whether or not it was met. */
  lemma Close(kind: FatType, tab: seq<nat>, last: nat, full: seq<nat>, m: nat, k: nat, met: bool)
    requires IsScan(tab, last, full, m) && k < |full|
    ensures Below(full, |tab|)
    ensures ScanTable(tab, full, k, met)[full[k] := EocMarker(kind)] == LinkClosed(kind, tab, full[..k + 1])
  {}

  lemma PrefixBehind(last: nat, s: seq<nat>, k: nat)
    requires k <= |s|
    ensures ([last] + s)[..k + 1] == [last] + s[..k]
  {}

  /** Where the scan stands when the request is met or it would turn a second time. */
  ghost predicate Ended(tab: seq<nat>, last: nat, full: seq<nat>, m: nat, turned: bool, cc: nat, k: nat, met: bool, n: nat) {
    && Scanned(tab, last, full, m, turned, cc, k, met)
    && var counted := k + if met then 1 else 0;
       counted == n || (turned && cc >= |tab| - 2 && counted < n)
  }

  lemma EndedCount(tab: seq<nat>, last: nat, full: seq<nat>, m: nat, turned: bool, cc: nat, k: nat, met: bool, n: nat)
    requires Ended(tab, last, full, m, turned, cc, k, met, n)
    ensures k == Min(n, |full| - 1)
    ensures met <==> |full| - 1 < n && 0 < m == |full| - 1
  {
    assert cc < full[|full| - 1] || !turned || |full| - 1 <= k;
  }

  /** The count the loop has reached when it ends, and the clusters it stands for. */
  lemma ScanEnds(tab: seq<nat>, last: nat, full: seq<nat>, k: nat, met: bool, n: nat)
    requires 2 <= last < |tab| && full == [last] + Scan(tab, last)
    requires k == Min(n, |full| - 1)
    requires met <==> |full| - 1 < n && 0 < |FreeAbove(tab, last)| == |full| - 1
    ensures Claimed(tab, last, n) == k + if met then 1 else 0
    ensures full[..k + 1] == [last] + Picks(tab, last, n)
    ensures full[k] == LastOf(last, Picks(tab, last, n))
  {
    PrefixBehind(last, Scan(tab, last), k);
  }

  // ----- what the return code of an allocation says

  /** The pairs linked so far: each cluster of the list behind the one before it and, once met, the new end behind itself. */
  ghost predicate LinksOf(links: seq<(nat, nat)>, full: seq<nat>, k: nat, met: bool) {
    && k < |full| && |links| == k + (if met then 1 else 0)
    && (forall i | 0 <= i < k :: links[i] == (full[i + 1], full[i]))
    && (met ==> links[k] == (full[k], full[k]))
  }

  lemma NoLinks(full: seq<nat>)
    requires full != []
    ensures LinksOf([], full, 0, false)
  {}

  lemma LinkAdded(links: seq<(nat, nat)>, full: seq<nat>, k: nat, k': nat, met': bool)
    requires LinksOf(links, full, k, false) && k' < |full| && (k', met') in {(k + 1, false), (k, true)}
    ensures LinksOf(links + [(full[k'], full[k])], full, k', met')
  {}

  lemma LinksBehind(links: seq<(nat, nat)>, last: nat, scan: seq<nat>, k: nat, met: bool)
    requires LinksOf(links, [last] + scan, k, met)
    ensures k <= |scan| && LinksOf(links, [last] + scan[..k], k, met)
  {
    PrefixBehind(last, scan, k);
  }

  /** The scan meets every free cluster but the highest one. */
  lemma ScanLength(tab: seq<nat>, last: nat)
    requires 2 <= last < |tab| && tab[last] != 0
    ensures |Scan(tab, last)| == CountFree(tab, 2, |tab| - 1)
  {
    CountFreeIsLength(tab, last + 1, |tab| - 1);
    CountFreeIsLength(tab, 2, last);
    if last < |tab| - 1 {
      CountFreeSplit(tab, 2, last, |tab| - 1);
      CountFreeSplit(tab, last, last + 1, |tab| - 1);
      assert CountFree(tab, last, last + 1) == 0;
    }
  }

  lemma {:induction false} CountFreeSplit(tab: seq<nat>, lo: nat, mid: nat, hi: nat)
    requires lo <= mid <= hi <= |tab|
    ensures CountFree(tab, lo, hi) == CountFree(tab, lo, mid) + CountFree(tab, mid, hi)
    decreases hi
  {
    if mid < hi { CountFreeSplit(tab, lo, mid, hi - 1); }
  }

  /** A request is met in full exactly when there are enough free clusters below the highest one. */
  lemma AllocGrowth(tab: seq<nat>, last: nat, n: nat)
    requires 2 <= last < |tab| && tab[last] != 0
    ensures |Picks(tab, last, n)| == Min(n, CountFree(tab, 2, |tab| - 1))
  {
    ScanLength(tab, last);
  }

  /**
   Code 0 promises that no cluster is missing. The promise is kept exactly
   outside three cases: nothing at all was counted, the count narrows to 0, or
   the only cluster missing is the one counted twice.
   */
  lemma AllocCodeIsHonest(tab: seq<nat>, last: nat, n: nat)
    requires 2 <= last < |tab| && tab[last] != 0
    ensures var free := CountFree(tab, 2, |tab| - 1);
      (AllocCode(tab, last, n) == 0 ==> |Picks(tab, last, n)| == n) <==>
      (n <= free ||
       (if MeetsOwnEnd(tab, last) then n != free + 1 && (free + 1) % 0x1_0000 != 0 else free % 0x1_0000 != 0))
  {
    ScanLength(tab, last);
  }

  /** A known count of the chain's clusters stays right exactly when none is missing or none is added. */
  lemma CountStaysRightExactly(tab: seq<nat>, last: nat, n: nat, count: nat)
    requires 2 <= last < |tab| && tab[last] != 0
    ensures var free := CountFree(tab, 2, |tab| - 1);
      (if Claimed(tab, last, n) == n then count + n else count) == count + |Picks(tab, last, n)| <==> n <= free || free == 0
  {
    ScanLength(tab, last);
  }

  /** The code is the number of clusters missing exactly when none is, or the number counted happens to be that number. */
  lemma CodeIsMissingExactly(tab: seq<nat>, last: nat, n: nat)
    requires 2 <= last < |tab| && tab[last] != 0
    ensures var free, own := CountFree(tab, 2, |tab| - 1), if MeetsOwnEnd(tab, last) then 1 else 0;
      AllocCode(tab, last, n) == n - |Picks(tab, last, n)| <==>
        n <= free || (n != free + own && ToInt16(free + own) == n - free)
  {
    ScanLength(tab, last);
  }

  /** Five clusters asked for, one found: the code is 1, and four are missing. */
  lemma CodeIsFoundNotMissing()
    ensures var tab := [0xFFF8, 0xFFFF, 0, 0xFFFF, 0xFFFF];
      && IsChain(FAT16, tab, [3])
      && AllocCode(tab, 3, 5) == 1 && Picks(tab, 3, 5) == [2]
  {
    var tab := [0xFFF8, 0xFFFF, 0, 0xFFFF, 0xFFFF];
    assert FreeAbove(tab, 3) == [];
    assert FreeIn(tab, 2, 2) == [] && FreeIn(tab, 2, 3) == [2];
    OneFound(tab);
  }

  lemma OneFound(tab: seq<nat>)
    requires |tab| == 5 && FreeAbove(tab, 3) == [] && FreeBelow(tab, 3) == [2]
    ensures AllocCode(tab, 3, 5) == 1 && Picks(tab, 3, 5) == [2]
  {
    hide FreeAbove, FreeBelow;
    assert Scan(tab, 3) == [2];
  }

  /** On a full volume, one more cluster is reported as allocated. */
  lemma FullVolumeReportsSuccess()
    ensures var tab := [0xFFF8, 0xFFFF, 3, 0xFFFF, 0xFFFF];
      && IsChain(FAT16, tab, [2, 3])
      && AllocCode(tab, 3, 1) == 0 && Picks(tab, 3, 1) == []
  {}

  /** With one free cluster above the end, a request for two is reported as met by it alone. */
  lemma OwnEndCountedTwice()
    ensures var tab := [0xFFF8, 0xFFFF, 0xFFFF, 0, 0xFFFF];
      && IsChain(FAT16, tab, [2])
      && AllocCode(tab, 2, 2) == 0 && Picks(tab, 2, 2) == [3]
  {
    var tab := [0xFFF8, 0xFFFF, 0xFFFF, 0, 0xFFFF];
    assert FreeIn(tab, 3, 3) == [];
    assert FreeIn(tab, 3, 4) == [3];
    assert FreeBelow(tab, 2) == [];
    assert Scan(tab, 2) == [3];
  }

  /** There a known count of 1 becomes 3, for a chain of two clusters. */
  lemma CountBecomesWrong()
    ensures var tab := [0xFFF8, 0xFFFF, 0xFFFF, 0, 0xFFFF];
      && IsChain(FAT16, tab, [2]) && CountFree(tab, 2, 4) == 1
      && Claimed(tab, 2, 2) == 2 && |[2] + Picks(tab, 2, 2)| == 2
      && (if Claimed(tab, 2, 2) == 2 then 1 + 2 else 1) == 3
  {
    var tab := [0xFFF8, 0xFFFF, 0xFFFF, 0, 0xFFFF];
    OwnEndCountedTwice();
    assert FreeIn(tab, 3, 3) == [];
    assert FreeIn(tab, 3, 4) == [3];
    assert FreeBelow(tab, 2) == [];
    assert CountFree(tab, 2, 2) == 0 && CountFree(tab, 2, 3) == 0;
  }
}
