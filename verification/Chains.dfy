/**
 Linked cluster chains in an allocation table, on the table as a sequence of
 entries: what a chain is, and what extending and clearing one does.
 */
module Chains {
  import opened FatTable

  /** Every cluster number of the table is a link, never an end-of-chain marker. */
  predicate WellSized(kind: FatType, tab: seq<nat>) {
    2 <= |tab| < LeastEoc(kind)
  }

  /** From position k on, the table links the clusters of ch one by one and then ends. */
  ghost predicate LinkedFrom(kind: FatType, tab: seq<nat>, ch: seq<nat>, k: nat) {
    && WellSized(kind, tab)
    && k < |ch|
    && (forall i | k <= i < |ch| :: 2 <= ch[i] < |tab|)
    && (forall i {:trigger tab[ch[i]]} | k <= i < |ch| - 1 :: tab[ch[i]] == ch[i + 1])
    && IsEoc(kind, tab[ch[|ch| - 1]])
  }

  ghost predicate IsChain(kind: FatType, tab: seq<nat>, ch: seq<nat>) {
    LinkedFrom(kind, tab, ch, 0)
  }

  lemma LinkIsNotEoc(kind: FatType, tab: seq<nat>, c: nat)
    requires WellSized(kind, tab) && c < |tab|
    ensures !IsEoc(kind, c)
  {}

  /** A chain that ends is acyclic. */
  lemma {:induction false} ChainIsAcyclic(kind: FatType, tab: seq<nat>, ch: seq<nat>, k: nat, i: nat, j: nat)
    requires LinkedFrom(kind, tab, ch, k) && k <= i < j < |ch|
    ensures ch[i] != ch[j]
    decreases |ch| - j
  {
    if ch[i] == ch[j] {
      if j == |ch| - 1 {
        assert tab[ch[i]] == ch[i + 1];
        LinkIsNotEoc(kind, tab, ch[i + 1]);
      } else {
        assert tab[ch[i]] == ch[i + 1] && tab[ch[j]] == ch[j + 1];
        ChainIsAcyclic(kind, tab, ch, k, i + 1, j + 1);
      }
    }
  }

  /** A chain depends on its own entries only. */
  lemma ChainFrame(kind: FatType, tab: seq<nat>, tab': seq<nat>, ch: seq<nat>)
    requires IsChain(kind, tab, ch) && |tab'| == |tab|
    requires forall c | c in ch && 2 <= c < |tab| :: tab'[c] == tab[c]
    ensures IsChain(kind, tab', ch)
  {
    forall i | 0 <= i < |ch| ensures tab'[ch[i]] == tab[ch[i]] {
      assert ch[i] in ch;
    }
  }

  ghost predicate Distinct(s: seq<nat>) {
    forall i, j | 0 <= i < j < |s| :: s[i] != s[j]
  }

  lemma ChainIsDistinct(kind: FatType, tab: seq<nat>, ch: seq<nat>)
    requires IsChain(kind, tab, ch)
    ensures Distinct(ch)
  {
    forall i, j | 0 <= i < j < |ch| ensures ch[i] != ch[j] {
      ChainIsAcyclic(kind, tab, ch, 0, i, j);
    }
  }

  /** A table determines the chain that starts at a given cluster. */
  lemma {:induction false} ChainIsUnique(kind: FatType, tab: seq<nat>, ch: seq<nat>, ch': seq<nat>, k: nat)
    requires LinkedFrom(kind, tab, ch, k) && LinkedFrom(kind, tab, ch', k) && ch[k] == ch'[k]
    ensures ch[k..] == ch'[k..]
    decreases |ch| - k
  {
    assert k + 1 < |ch| ==> tab[ch[k]] == ch[k + 1];
    assert k + 1 < |ch'| ==> tab[ch'[k]] == ch'[k + 1];
    if k + 1 < |ch| && k + 1 < |ch'| {
      ChainIsUnique(kind, tab, ch, ch', k + 1);
      assert ch[k..] == [ch[k]] + ch[k + 1..] && ch'[k..] == [ch'[k]] + ch'[k + 1..];
    } else if k + 1 < |ch| {
      LinkIsNotEoc(kind, tab, ch[k + 1]);
    } else if k + 1 < |ch'| {
      LinkIsNotEoc(kind, tab, ch'[k + 1]);
    }
  }

  // ----- free clusters and the order in which allocation meets them

  /** The free clusters c with lo <= c < hi, in ascending order. */
  function FreeIn(tab: seq<nat>, lo: nat, hi: nat): (r: seq<nat>)
    requires hi <= |tab|
    ensures forall i | 0 <= i < |r| :: lo <= r[i] < hi && tab[r[i]] == 0
    decreases hi
  {
    if hi <= lo then [] else
      var r := FreeIn(tab, lo, hi - 1);
      if tab[hi - 1] == 0 then r + [hi - 1] else r
  }

  lemma {:induction false} FreeInAll(tab: seq<nat>, lo: nat, hi: nat)
    requires hi <= |tab|
    ensures forall c | lo <= c < hi && tab[c] == 0 :: c in FreeIn(tab, lo, hi)
    ensures forall i, j | 0 <= i < j < |FreeIn(tab, lo, hi)| :: FreeIn(tab, lo, hi)[i] < FreeIn(tab, lo, hi)[j]
    decreases hi
  {
    if lo < hi { FreeInAll(tab, lo, hi - 1); }
  }

  // ----- linking new clusters behind a chain

  predicate Below(s: seq<nat>, n: nat) {
    forall i | 0 <= i < |s| :: s[i] < n
  }

  /** The links all[0] -> all[1] -> ... are written; the final cluster keeps its entry. */
  function LinkOpen(tab: seq<nat>, all: seq<nat>): (r: seq<nat>)
    requires Below(all, |tab|)
    ensures |r| == |tab|
  {
    if |all| <= 1 then tab else
      var k := |all| - 1;
      LinkOpen(tab, all[..k])[all[k - 1] := all[k]]
  }

  /** The links are written and the final cluster is marked as the end. */
  function LinkClosed(kind: FatType, tab: seq<nat>, all: seq<nat>): (r: seq<nat>)
    requires Below(all, |tab|) && |all| > 0
    ensures |r| == |tab|
  {
    LinkOpen(tab, all)[all[|all| - 1] := EocMarker(kind)]
  }

  lemma {:induction false} LinkOpenEntries(tab: seq<nat>, all: seq<nat>)
    requires Below(all, |tab|) && Distinct(all)
    ensures forall i | 0 <= i < |all| - 1 :: LinkOpen(tab, all)[all[i]] == all[i + 1]
    ensures forall c | 0 <= c < |tab| && (forall i | 0 <= i < |all| - 1 :: all[i] != c) :: LinkOpen(tab, all)[c] == tab[c]
  {
    if |all| > 1 {
      LinkOpenEntries(tab, all[..|all| - 1]);
    }
  }

  /** Extending a chain by free clusters gives the longer chain and touches nothing else. */
  lemma ExtendIsChain(kind: FatType, tab: seq<nat>, ch: seq<nat>, ps: seq<nat>)
    requires IsChain(kind, tab, ch)
    requires Distinct(ps) && forall i | 0 <= i < |ps| :: 2 <= ps[i] < |tab| && tab[ps[i]] == 0
    ensures IsChain(kind, LinkClosed(kind, tab, [ch[|ch| - 1]] + ps), ch + ps)
    ensures forall c | 0 <= c < |tab| && c != ch[|ch| - 1] && c !in ps ::
              LinkClosed(kind, tab, [ch[|ch| - 1]] + ps)[c] == tab[c]
  {
    var n := |ch| - 1;
    var all := [ch[n]] + ps;
    var tab' := LinkClosed(kind, tab, all);
    ChainIsDistinct(kind, tab, ch);
    ChainIsUsed(kind, tab, ch);
    assert forall i | 0 < i < |all| :: all[i] == ps[i - 1];
    LinkOpenEntries(tab, all);
    forall c | 0 <= c < |tab| && c != ch[n] && c !in ps ensures tab'[c] == tab[c] {
      assert forall i | 0 <= i < |all| :: all[i] != c;
    }
    ChainPrefixKept(kind, tab, ch, ps, tab');
  }

  lemma ChainPrefixKept(kind: FatType, tab: seq<nat>, ch: seq<nat>, ps: seq<nat>, tab': seq<nat>)
    requires IsChain(kind, tab, ch) && Distinct(ch) && |tab'| == |tab|
    requires forall i | 0 <= i < |ch| :: tab[ch[i]] != 0
    requires forall i | 0 <= i < |ps| :: 2 <= ps[i] < |tab| && tab[ps[i]] == 0
    requires forall c | 0 <= c < |tab| && c != ch[|ch| - 1] && c !in ps :: tab'[c] == tab[c]
    requires var all := [ch[|ch| - 1]] + ps;
             && (forall i | 0 <= i < |all| - 1 :: tab'[all[i]] == all[i + 1])
             && tab'[all[|all| - 1]] == EocMarker(kind)
    ensures IsChain(kind, tab', ch + ps)
  {
    var n, ch' := |ch| - 1, ch + ps;
    var all := [ch[n]] + ps;
    forall i | 0 <= i < |ch'| - 1 ensures tab'[ch'[i]] == ch'[i + 1] {
      if n <= i {
        assert ch'[i] == all[i - n] && ch'[i + 1] == all[i - n + 1];
      } else {
        assert ch[i] !in ps && ch[i] != ch[n];
      }
    }
    assert ch'[|ch'| - 1] == all[|all| - 1];
  }

  lemma ChainIsUsed(kind: FatType, tab: seq<nat>, ch: seq<nat>)
    requires IsChain(kind, tab, ch)
    ensures forall i | 0 <= i < |ch| :: tab[ch[i]] != 0
  {
    forall i | 0 <= i < |ch| ensures tab[ch[i]] != 0 {
      if i < |ch| - 1 { assert tab[ch[i]] == ch[i + 1]; }
    }
  }

  // ----- clearing

  /** Entries of the listed clusters become free. */
  function Cleared(tab: seq<nat>, cs: seq<nat>): (r: seq<nat>)
    ensures |r| == |tab|
  {
    seq(|tab|, (c: nat) requires c < |tab| => if c in cs then 0 else tab[c])
  }

  lemma ClearedNext(tab: seq<nat>, cs: seq<nat>, i: nat)
    requires i < |cs| && cs[i] < |tab|
    ensures Cleared(tab, cs[..i])[cs[i] := 0] == Cleared(tab, cs[..i + 1])
  {
    assert cs[..i + 1] == cs[..i] + [cs[i]];
  }

  lemma NothingCleared(tab: seq<nat>, cs: seq<nat>)
    ensures Cleared(tab, cs[..0]) == tab
  {}

  // ----- counting

  /** Number of free clusters c with lo <= c < hi. */
  function CountFree(tab: seq<nat>, lo: nat, hi: nat): nat
    requires hi <= |tab|
  {
    if hi <= lo then 0 else CountFree(tab, lo, hi - 1) + if tab[hi - 1] == 0 then 1 else 0
  }

  lemma {:induction false} CountFreeIsLength(tab: seq<nat>, lo: nat, hi: nat)
    requires hi <= |tab|
    ensures CountFree(tab, lo, hi) == |FreeIn(tab, lo, hi)|
  {
    if lo < hi { CountFreeIsLength(tab, lo, hi - 1); }
  }

  /** Turning one entry from used to free, or back, moves the count by one. */
  lemma {:induction false} CountFreeUpdate(tab: seq<nat>, lo: nat, hi: nat, c: nat, v: nat)
    requires hi <= |tab| && lo <= c < |tab|
    ensures CountFree(tab[c := v], lo, hi) + (if c < hi && tab[c] == 0 then 1 else 0)
         == CountFree(tab, lo, hi) + (if c < hi && v == 0 then 1 else 0)
    decreases hi
  {
    if lo < hi {
      CountFreeUpdate(tab, lo, hi - 1, c, v);
    }
  }

  /** Clearing a chain frees exactly its clusters. */
  lemma {:induction false} CountFreeCleared(tab: seq<nat>, cs: seq<nat>)
    requires Distinct(cs) && forall i | 0 <= i < |cs| :: 2 <= cs[i] < |tab| && tab[cs[i]] != 0
    ensures CountFree(Cleared(tab, cs), 2, |tab|) == CountFree(tab, 2, |tab|) + |cs|
    decreases |cs|
  {
    if cs == [] {
      assert Cleared(tab, cs) == tab;
    } else {
      var k := |cs| - 1;
      CountFreeCleared(tab, cs[..k]);
      ClearedNext(tab, cs, k);
      assert cs[..k + 1] == cs;
      assert cs[k] !in cs[..k];
      CountFreeUpdate(Cleared(tab, cs[..k]), 2, |tab|, cs[k], 0);
    }
  }

  /** While a chain is being cleared behind position k, the rest of it is intact. */
  lemma ClearedBehind(kind: FatType, tab: seq<nat>, ch: seq<nat>, k: nat)
    requires IsChain(kind, tab, ch) && k < |ch|
    ensures LinkedFrom(kind, Cleared(tab, ch[..k]), ch, k)
  {
    ChainIsDistinct(kind, tab, ch);
    var tab' := Cleared(tab, ch[..k]);
    forall i | k <= i < |ch| ensures tab'[ch[i]] == tab[ch[i]] {
      assert ch[i] !in ch[..k];
    }
  }

  /** The first free cluster c with lo <= c < hi, or 0. */
  function FirstFree(tab: seq<nat>, lo: nat, hi: nat): (c: nat)
    requires 0 < lo && hi <= |tab|
    ensures c == 0 || (lo <= c < hi && tab[c] == 0)
    ensures forall d | lo <= d < (if c == 0 then hi else c) :: tab[d] != 0
    decreases hi - lo
  {
    if hi <= lo then 0 else if tab[lo] == 0 then lo else FirstFree(tab, lo + 1, hi)
  }
}
