/** Formatting: the cluster size and table size for a volume, what is written, and what mounting then finds. */
module Format {
  import opened Types
  import opened FatTable
  import opened Geometry
  import opened VolumeRuns
  import FatVolume

  const LEAST_SECTORS := 66581
  const LEAST_CLUSTERS := 65541

  /** Sectors of one table for the clusters that remain when both tables have f. */
  function Need(ns: nat, c: nat, f: nat): nat
    requires c > 0 && 32 + 2 * f <= ns
  {
    (Quot(ns - 32 - 2 * f, c) + 127) / 128
  }

  lemma {:induction false} QuotientGrows(x: nat, k: nat, c: nat)
    requires c > 0
    ensures Quot(x, c) <= Quot(x + k, c) <= Quot(x, c) + k
    ensures Quot(x, c) <= x
  {
    hide Quot, Rem;
    Recompose(x, c);
    Recompose(x + k, c);
    MultiplesOrdered(1, c, k);
    MultiplesOrdered(1, c, Quot(x, c));
    assert c * k == k * c && c * Quot(x, c) == Quot(x, c) * c;
    BoundedQuotient(Quot(x, c), Rem(x, c), Quot(x + k, c), Rem(x + k, c), k, c);
  }

  lemma BoundedQuotient(q: nat, r: nat, p: nat, t: nat, k: nat, c: nat)
    requires q * c + r + k == p * c + t && r < c && t < c && k <= k * c
    ensures q <= p <= q + k
  {
    if p < q { NextMultiple(p, q, c); }
    assert (q + k) * c == q * c + k * c;
    if q + k < p { NextMultiple(q + k, p, c); }
  }

  /** Larger tables leave fewer clusters, but 64 more sectors save at most one. */
  lemma NeedFalls(ns: nat, c: nat, f: nat, g: nat, d: nat)
    requires c > 0 && f <= g <= f + 64 * d && 32 + 2 * g <= ns
    ensures Need(ns, c, g) <= Need(ns, c, f) <= Need(ns, c, g) + d
  {
    QuotientGrows(ns - 32 - 2 * g, 2 * (g - f), c);
  }

  lemma NeedFits(ns: nat, c: nat, f: nat)
    requires c > 0 && 32 + 2 * f <= ns && LEAST_SECTORS <= ns
    ensures 128 * Need(ns, c, f) <= ns + 95 - 2 * f
    ensures 32 + 2 * Need(ns, c, f) <= ns
  {
    QuotientGrows(ns - 32 - 2 * f, 0, c);
  }

  function Refine(ns: nat, c: nat, f: nat, rounds: nat): (r: nat)
    requires c > 0 && LEAST_SECTORS <= ns && 32 + 2 * f <= ns
    ensures 32 + 2 * r <= ns
    decreases rounds
  {
    if rounds == 0 then f else
      NeedFits(ns, c, f);
      Refine(ns, c, Need(ns, c, f), rounds - 1)
  }

  /** Table size after the first guess and two rounds of two corrections. */
  function TableSize(ns: nat, c: nat): (f: nat)
    requires c > 0 && LEAST_SECTORS <= ns
    ensures 32 + 2 * f <= ns
  {
    Refine(ns, c, 0, 5)
  }

  function ClusterCount(ns: nat, c: nat): nat
    requires c > 0 && LEAST_SECTORS <= ns
  {
    Quot(ns - 32 - 2 * TableSize(ns, c), c)
  }

  /** A table of f sectors has as many entries as there are clusters beside it. */
  predicate Adequate(ns: nat, c: nat, f: nat)
    requires c > 0 && 32 + 2 * f <= ns
  {
    128 * f >= Quot(ns - 32 - 2 * f, c)
  }

  /** The first guess and the four corrections. */
  lemma Rounds(ns: nat, c: nat) returns (f0: nat, f1: nat, f2: nat, f3: nat, f4: nat)
    requires c > 0 && LEAST_SECTORS <= ns < TWO_TO_THE_32
    ensures 32 + 2 * f0 <= ns && 32 + 2 * f1 <= ns && 32 + 2 * f2 <= ns && 32 + 2 * f3 <= ns && 32 + 2 * f4 <= ns
    ensures 128 * f0 <= ns + 95
    ensures f0 == Need(ns, c, 0) && f1 == Need(ns, c, f0) && f2 == Need(ns, c, f1) && f3 == Need(ns, c, f2)
    ensures f4 == Need(ns, c, f3) == TableSize(ns, c)
  {
    hide Need, TableSize;
    f0 := Need(ns, c, 0);
    NeedFits(ns, c, 0);
    f1 := Need(ns, c, f0);
    NeedFits(ns, c, f0);
    f2 := Need(ns, c, f1);
    NeedFits(ns, c, f1);
    f3 := Need(ns, c, f2);
    NeedFits(ns, c, f2);
    f4 := Need(ns, c, f3);
    NeedFits(ns, c, f3);
    FiveRounds(ns, c, f0, f1, f2, f3);
  }

  /** The alternating corrections close in: the last is at or above the one before it, by no more than two. */
  lemma Corrections(ns: nat, c: nat) returns (f1: nat, f2: nat, f3: nat, f4: nat)
    requires c > 0 && LEAST_SECTORS <= ns < TWO_TO_THE_32
    ensures 32 + 2 * f3 <= ns && 32 + 2 * f4 <= ns && TableSize(ns, c) == f4 == Need(ns, c, f3)
    ensures f3 <= f4 <= f3 + 2
    ensures f4 <= (ns + 95 - 2 * f1) / 128 && f1 >= Need(ns, c, (ns + 95) / 128)
  {
    hide Need, TableSize;
    var f0;
    f0, f1, f2, f3, f4 := Rounds(ns, c);
    NeedFits(ns, c, f3);
    NeedFalls(ns, c, 0, f0, 0x8_0000);
    NeedFalls(ns, c, f1, f0, 0x2000);
    NeedFalls(ns, c, f1, f2, 0x80);
    NeedFalls(ns, c, f3, f2, 2);
    NeedFalls(ns, c, 0, f1, f1);
    NeedFalls(ns, c, f2, f0, f0);
    NeedFalls(ns, c, f0, (ns + 95) / 128, 0x8_0000);
  }

  lemma FiveRounds(ns: nat, c: nat, f0: nat, f1: nat, f2: nat, f3: nat)
    requires c > 0 && LEAST_SECTORS <= ns && f0 == Need(ns, c, 0)
    requires 32 + 2 * f0 <= ns && f1 == Need(ns, c, f0)
    requires 32 + 2 * f1 <= ns && f2 == Need(ns, c, f1)
    requires 32 + 2 * f2 <= ns && f3 == Need(ns, c, f2)
    requires 32 + 2 * f3 <= ns
    ensures TableSize(ns, c) == Need(ns, c, f3)
  {
    NeedFits(ns, c, f3);
    assert Refine(ns, c, 0, 5) == Refine(ns, c, f0, 4) == Refine(ns, c, f1, 3);
    assert Refine(ns, c, f1, 3) == Refine(ns, c, f2, 2) == Refine(ns, c, f3, 1);
    assert Refine(ns, c, f3, 1) == Refine(ns, c, Need(ns, c, f3), 0);
  }

  /** The table always covers the clusters beside it, and at most one sector of it could have been saved. */
  lemma SizingIsTight(ns: nat, c: nat, f: nat)
    requires c > 0 && LEAST_SECTORS <= ns < TWO_TO_THE_32 && 32 + 2 * f <= ns
    ensures Adequate(ns, c, TableSize(ns, c))
    ensures Adequate(ns, c, f) ==> TableSize(ns, c) <= f + 1
  {
    var f1, f2, f3, f4 := Corrections(ns, c);
    NeedFalls(ns, c, f3, f4, 1);
    if f + 1 < f4 {
      NeedFalls(ns, c, f, f3, f3);
    }
  }

  // ----- the threshold

  lemma EnoughForSmallestClusters(ns: nat)
    requires LEAST_SECTORS <= ns < TWO_TO_THE_32
    ensures ClusterCount(ns, 1) >= LEAST_CLUSTERS <==> ns >= 66599
  {
    hide TableSize, Need;
    var f1, f2, f3, f4 := Corrections(ns, 1);
    NeedForOne(ns, f3);
    NeedForOne(ns, (ns + 95) / 128);
    Threshold(ns, f1, f3, f4);
  }

  lemma NeedForOne(ns: nat, f: nat)
    requires 32 + 2 * f <= ns
    ensures Need(ns, 1, f) == (ns + 95 - 2 * f) / 128
  {}

  lemma Threshold(ns: nat, f1: nat, f3: nat, f4: nat)
    requires LEAST_SECTORS <= ns < TWO_TO_THE_32 && f3 <= f4 <= f3 + 2
    requires 2 * f3 <= ns + 95 && f4 == (ns + 95 - 2 * f3) / 128
    requires f4 <= (ns + 95 - 2 * f1) / 128 && f1 >= (ns + 95 - 2 * ((ns + 95) / 128)) / 128
    ensures ns - 32 - 2 * f4 >= LEAST_CLUSTERS <==> ns >= 66599
  {}

  lemma QuotientHalves(x: nat, c: nat)
    requires c > 1
    ensures 2 * Quot(x, c) <= x
  {
    hide Quot;
    Recompose(x, c);
    MultiplesOrdered(2, c, Quot(x, c));
    assert Quot(x, c) * c == c * Quot(x, c);
  }

  lemma LargerClustersAreFewer(ns: nat, c: nat)
    requires LEAST_SECTORS <= ns < 131000 && c > 0
    ensures c > 1 ==> ClusterCount(ns, c) < LEAST_CLUSTERS
  {
    hide TableSize, Quot;
    if c > 1 { QuotientHalves(ns - 32 - 2 * TableSize(ns, c), c); }
  }

  // ----- choosing

  predicate IsSize(c: nat) {
    c == 1 || c == 2 || c == 4 || c == 8 || c == 16 || c == 32 || c == 64
  }

  /** The first size from c down, halving, that leaves enough clusters; 0 when none does. */
  function Chosen(ns: nat, c: nat): (r: nat)
    requires LEAST_SECTORS <= ns
    ensures r <= c
  {
    if c == 0 then 0 else if ClusterCount(ns, c) >= LEAST_CLUSTERS then c else Chosen(ns, c / 2)
  }

  /** The size chosen is the largest that leaves enough clusters, and one is found exactly from 66599 sectors on. */
  lemma ChosenIsLargest(ns: nat, d: nat)
    requires LEAST_SECTORS <= ns < TWO_TO_THE_32
    ensures var c := Chosen(ns, 64);
      && (c > 0 <==> ns >= 66599)
      && (c > 0 ==> IsSize(c) && ClusterCount(ns, c) >= LEAST_CLUSTERS)
      && (IsSize(d) && ClusterCount(ns, d) >= LEAST_CLUSTERS ==> d <= c)
  {
    hide ClusterCount, Chosen;
    EnoughForSmallestClusters(ns);
    if IsSize(d) { ChosenFromIsLargest(ns, 64, d); assert d <= 64; }
    ChosenFromIsLargest(ns, 64, 1);
    var c := Chosen(ns, 64);
    if ns < 66599 && c > 0 { LargerClustersAreFewer(ns, c); }
  }

  lemma {:induction false} ChosenFromIsLargest(ns: nat, c: nat, d: nat)
    requires LEAST_SECTORS <= ns && IsSize(c) && IsSize(d)
    ensures Chosen(ns, c) > 0 ==> IsSize(Chosen(ns, c)) && ClusterCount(ns, Chosen(ns, c)) >= LEAST_CLUSTERS
    ensures d <= c && ClusterCount(ns, d) >= LEAST_CLUSTERS ==> d <= Chosen(ns, c)
  {
    hide ClusterCount;
    if c > 1 {
      ChosenFromIsLargest(ns, c / 2, d);
    } else {
      assert Chosen(ns, 0) == 0;
    }
  }

  // ----- the two reserved entries

  lemma QuotientAtMost(y: nat, c: nat, k: nat)
    requires c > 0
    ensures Quot(y, c) <= k <==> y < c * k + c
  {
    hide Quot, Rem;
    Recompose(y, c);
    var q := Quot(y, c);
    assert c * k == k * c;
    if q <= k { MultiplesOrdered(q, k, c); } else { NextMultiple(k, q, c); }
  }

  /** A table of f sectors and the clusters it has entries for. */
  function Span(c: nat): nat { 128 * c + 2 }

  lemma SpanOf(c: nat, f: nat)
    ensures f * Span(c) == 128 * (c * f) + 2 * f && c * (128 * f) == 128 * (c * f)
  {
    assert f * (128 * c) == 128 * (c * f);
  }

  /** What a table of f sectors covers, as a bound on the sectors behind the reserved ones. */
  lemma CoversBelow(ns: nat, c: nat, f: nat)
    requires c > 0 && 32 + 2 * f <= ns
    ensures Adequate(ns, c, f) <==> ns - 32 < f * Span(c) + c
    ensures 128 * f >= Quot(ns - 32 - 2 * f, c) + 2 <==> ns - 32 + c < f * Span(c)
  {
    hide Quot, Span;
    SpanOf(c, f);
    QuotientAtMost(ns - 32 - 2 * f, c, 128 * f);
    if f > 0 {
      QuotientAtMost(ns - 32 - 2 * f, c, 128 * f - 2);
      assert c * (128 * f - 2) == c * (128 * f) - 2 * c;
    }
  }

  lemma NeedAtMost(ns: nat, c: nat, f: nat, m: nat)
    requires c > 0 && 32 + 2 * f <= ns
    ensures Need(ns, c, f) <= m <==> ns - 32 - 2 * f < 128 * (c * m) + c
  {
    hide Quot;
    QuotientAtMost(ns - 32 - 2 * f, c, 128 * m);
    SpanOf(c, m);
  }

  /** For the size chosen the second correction already comes within one of the first. */
  lemma ChosenSettles(ns: nat, f0: nat, f1: nat, f2: nat)
    requires 66599 <= ns < TWO_TO_THE_32 && Chosen(ns, 64) > 0
    requires 32 + 2 * f0 <= ns && 32 + 2 * f1 <= ns && f0 == Need(ns, Chosen(ns, 64), 0)
    requires f1 == Need(ns, Chosen(ns, 64), f0) && f2 == Need(ns, Chosen(ns, 64), f1)
    ensures f2 <= f1 + 1
  {
    hide Chosen, ClusterCount, Need;
    var c := Chosen(ns, 64);
    ChosenIsLargest(ns, 2 * c);
    if c == 64 {
      NeedFalls64(ns, 0, f0, 129);
      NeedFalls64(ns, f1, f0, 1);
    } else {
      FewClustersFewSectors(ns, c);
      NeedFalls(ns, c, 0, f0, 64);
      NeedFalls(ns, c, f1, f0, 1);
    }
  }

  lemma NeedFalls64(ns: nat, f: nat, g: nat, d: nat)
    requires f <= g && 32 + 2 * g <= ns < TWO_TO_THE_32
    ensures Need(ns, 64, g) <= Need(ns, 64, f) && Need(ns, 64, 0) <= 0x8_1000
    ensures g <= f + 4096 * d ==> Need(ns, 64, f) <= Need(ns, 64, g) + d
  {}

  /** When clusters twice as large would be too few, the first guess is small. */
  lemma FewClustersFewSectors(ns: nat, c: nat)
    requires 0 < c && LEAST_SECTORS <= ns < TWO_TO_THE_32 && ClusterCount(ns, 2 * c) < LEAST_CLUSTERS
    ensures Need(ns, c, 0) <= 4096
  {
    hide TableSize, Quot;
    var f0, f1, f2, f3, f := Rounds(ns, 2 * c);
    NeedFits(ns, 2 * c, f3);
    QuotientAtMost(ns - 32 - 2 * f, 2 * c, LEAST_CLUSTERS - 1);
    QuotientAtMost(ns - 32, c, 500000);
  }

  /** Short of the least adequate size by little more than a cluster, the corrections end on it. */
  lemma EndsOnLeast(ns: nat, m: nat)
    requires 66599 <= ns < TWO_TO_THE_32 && Chosen(ns, 64) > 0 && m > 0 && 32 + 2 * m <= ns
    requires var c := Chosen(ns, 64);
      ns - 32 < m * Span(c) + c && ns - 32 >= (m - 1) * Span(c) + c && m * Span(c) <= ns - 32 + c
    ensures TableSize(ns, Chosen(ns, 64)) == m
  {
    hide Chosen, TableSize, Span, Need, Adequate;
    var c := Chosen(ns, 64);
    var f0, f1, f2, f3, f4 := Rounds(ns, c);
    ChosenSettles(ns, f0, f1, f2);
    SpanOf(c, m);
    SpanOf(c, m - 1);
    assert c * (m - 1) == c * m - c;
    NeedAtMost(ns, c, m, m);
    NeedAtMost(ns, c, m - 1, m - 1);
    RoundsMeet(ns, c, m, f0, f1, f2, f3, f4);
  }

  lemma RoundsMeet(ns: nat, c: nat, m: nat, f0: nat, f1: nat, f2: nat, f3: nat, f4: nat)
    requires c > 0 && m > 0 && 32 + 2 * m <= ns < TWO_TO_THE_32 && LEAST_SECTORS <= ns
    requires 32 + 2 * f0 <= ns && 32 + 2 * f1 <= ns && 32 + 2 * f2 <= ns && 32 + 2 * f3 <= ns
    requires f0 == Need(ns, c, 0) && f1 == Need(ns, c, f0) && f2 == Need(ns, c, f1) && f3 == Need(ns, c, f2)
    requires f4 == Need(ns, c, f3) && f2 <= f1 + 1
    requires Need(ns, c, m) <= m <= Need(ns, c, m - 1) && 128 * (c * m) + 2 * m <= ns - 32 + c
    ensures f4 == m
  {
    hide Need;
    SecondIsAbove(ns, c, m, f0, f1, f2);
    NeedFalls(ns, c, m, f2, f2);
    ThirdMeets(ns, c, m, f2);
  }

  /** The first correction is at or below the least size, the second at or above it. */
  lemma SecondIsAbove(ns: nat, c: nat, m: nat, f0: nat, f1: nat, f2: nat)
    requires c > 0 && m > 0 && 32 + 2 * m <= ns && 32 + 2 * f0 <= ns && 32 + 2 * f1 <= ns
    requires f0 == Need(ns, c, 0) && f1 == Need(ns, c, f0) && f2 == Need(ns, c, f1)
    requires Need(ns, c, m) <= m <= Need(ns, c, m - 1)
    ensures f1 <= m <= f2
  {
    hide Need;
    NeedFalls(ns, c, 0, m - 1, m);
    NeedFalls(ns, c, m, f0, f0);
    NeedFalls(ns, c, Min(f1, m - 1), m - 1, m);
  }

  lemma ThirdMeets(ns: nat, c: nat, m: nat, f2: nat)
    requires c > 0 && m > 0 && 32 + 2 * f2 <= ns && m <= f2 <= m + 1
    requires 128 * (c * m) + 2 * m <= ns - 32 + c
    ensures Need(ns, c, f2) >= m
  {
    hide Need;
    NeedAtMost(ns, c, f2, m - 1);
    assert c * (m - 1) == c * m - c;
  }

  /**
   The table chosen has entries for the two reserved numbers besides one for
   every cluster exactly when the sectors behind the reserved ones, counted
   modulo what one sector of each table and its clusters take, keep a cluster's
   distance from both ends.
   */
  lemma CoversReservedExactly(ns: nat)
    requires 66599 <= ns < TWO_TO_THE_32
    ensures Chosen(ns, 64) > 0
    ensures var c := Chosen(ns, 64);
      128 * TableSize(ns, c) >= ClusterCount(ns, c) + 2 <==> c <= (ns - 32) % (128 * c + 2) < 128 * c + 2 - c
  {
    hide Chosen, TableSize, ClusterCount, Quot, Rem, Span;
    ChosenIsLargest(ns, 1);
    var c := Chosen(ns, 64);
    SpanIs(c);
    RemIs(ns - 32, Span(c));
    CoversByResidue(ns, Quot(ns - 32, Span(c)), Rem(ns - 32, Span(c)));
  }

  /** The same for the quotient and the remainder. */
  lemma CoversByResidue(ns: nat, q: nat, r: nat)
    requires 66599 <= ns < TWO_TO_THE_32 && Chosen(ns, 64) > 0 && IsSize(Chosen(ns, 64))
    requires q == Quot(ns - 32, Span(Chosen(ns, 64))) && r == Rem(ns - 32, Span(Chosen(ns, 64)))
    ensures var c := Chosen(ns, 64);
      128 * TableSize(ns, c) >= ClusterCount(ns, c) + 2 <==> c <= r < Span(c) - c
  {
    hide Chosen, TableSize, Quot, Rem, Adequate, Span;
    var c, x := Chosen(ns, 64), ns - 32;
    var p, f, m := Span(c), TableSize(ns, c), if r >= c then q + 1 else q;
    SpanIs(c);
    Recompose(x, p);
    QuotientAtMost(x, p, 0);
    Neighbours(q, p);
    SizingIsTight(ns, c, 0);
    CoversBelow(ns, c, f);
    SmallTables(ns, c, m);
    if c <= r < p - c {
      if f < m { MultiplesOrdered(f, q, p); }
      MultiplesOrdered(m, Max(f, m), p);
    } else {
      EndsOnLeast(ns, m);
    }
  }

  lemma SpanIs(c: nat)
    ensures Span(c) == 128 * c + 2
  {}

  lemma Neighbours(q: nat, p: nat)
    ensures (q + 1) * p == q * p + p && (q - 1) * p == q * p - p
  {}

  lemma RemIs(x: nat, p: nat)
    requires p > 0
    ensures Rem(x, p) == x % p
  {}

  lemma SmallTables(ns: nat, c: nat, m: nat)
    requires c > 0 && LEAST_SECTORS <= ns && (m > 0 ==> (m - 1) * Span(c) <= ns - 32)
    ensures 32 + 2 * m <= ns
  {
    if m > 0 {
      MultiplesOrdered(130, Span(c), m - 1);
      assert (m - 1) * Span(c) == Span(c) * (m - 1);
    }
  }

  /** A volume whose table is two entries short of its clusters' numbers. */
  lemma ShortByTwo()
    ensures Chosen(66722, 64) == 1 && TableSize(66722, 1) == 513 && ClusterCount(66722, 1) == 65664 == 128 * 513
    ensures 128 * TableSize(66722, 1) < ClusterCount(66722, 1) + 2
  {
    hide Chosen, TableSize, Adequate;
    ChosenIsLargest(66722, 1);
    var c := Chosen(66722, 64);
    LargerClustersAreFewer(66722, c);
    CoversReservedExactly(66722);
    SizingIsTight(66722, 1, 0);
    CoversBelow(66722, 1, TableSize(66722, 1));
  }

  /** The table size for the clusters that tables of the size given leave. */
  method Correct(ns: nat, c: nat, fs: nat) returns (fs': nat)
    requires c > 0 && LEAST_SECTORS <= ns < TWO_TO_THE_32 && 32 + 2 * fs <= ns
    ensures fs' == Need(ns, c, fs) && 32 + 2 * fs' <= ns
  {
    NeedFits(ns, c, fs);
    var ds := ns - 32 - 2 * fs;
    fs' := (ds / c + 127) / 128;
  }

  /** The alternating estimates for one cluster size. */
  method SizeTables(ns: nat, c: nat) returns (fs: nat, dc: nat)
    requires c > 0 && LEAST_SECTORS <= ns < TWO_TO_THE_32
    ensures fs == TableSize(ns, c) && dc == ClusterCount(ns, c)
  {
    hide Refine, Need;
    fs := Correct(ns, c, 0);
    RefineStep(ns, c, 0, 4);
    var cc := 0;
    while cc < 2
      invariant cc <= 2 && 32 + 2 * fs <= ns
      invariant Refine(ns, c, fs, 4 - 2 * cc) == TableSize(ns, c)
    {
      RefineStep(ns, c, fs, 3 - 2 * cc);
      fs := Correct(ns, c, fs);
      RefineStep(ns, c, fs, 2 - 2 * cc);
      fs := Correct(ns, c, fs);
      cc := cc + 1;
    }
    RefineNone(ns, c, fs);
    dc := (ns - 32 - 2 * fs) / c;
  }

  lemma RefineStep(ns: nat, c: nat, f: nat, rounds: nat)
    requires c > 0 && LEAST_SECTORS <= ns && 32 + 2 * f <= ns
    ensures 32 + 2 * Need(ns, c, f) <= ns
    ensures Refine(ns, c, f, rounds + 1) == Refine(ns, c, Need(ns, c, f), rounds)
  {
    NeedFits(ns, c, f);
  }

  lemma RefineNone(ns: nat, c: nat, f: nat)
    requires c > 0 && LEAST_SECTORS <= ns && 32 + 2 * f <= ns
    ensures Refine(ns, c, f, 0) == f
  {}

  /** The sizes written: the first from 64 down that leaves enough clusters, else 0 with the tables for 1. */
  method ChooseSizes(ns: nat) returns (c: nat, fs: nat)
    requires LEAST_SECTORS <= ns < TWO_TO_THE_32
    ensures c == Chosen(ns, 64) && fs == TableSize(ns, Max(c, 1))
  {
    hide ClusterCount, TableSize;
    c, fs := 64, 0;
    while c >= 1
      invariant Chosen(ns, c) == Chosen(ns, 64) && (c == 0 ==> fs == TableSize(ns, 1))
    {
      var dc;
      fs, dc := SizeTables(ns, c);
      if dc >= LEAST_CLUSTERS {
        break;
      }
      c := c / 2;
    }
  }

  // ----- writing

  /** Bytes stored into a sector buffer. */
  function Put(b: Sector, at: nat, x: seq<byte>): Sector
    requires at + |x| <= 512
  {
    seq(512, (i: nat) requires i < 512 => if at <= i < at + |x| then x[i - at] else b[i])
  }

  function Blank(): Sector { seq(512, _ => 0) }

  const NAME: seq<byte> := [0x44, 0x53, 0x43, 0x4F, 0x53, 0x4D, 0x53, 0x48]
  const LABEL: seq<byte> := [0x44, 0x49, 0x53, 0x43, 0x4F, 0x53, 0x4D, 0x41, 0x53, 0x48, 0x21]
  const SYSTEM: seq<byte> := [0x46, 0x41, 0x54, 0x33, 0x32, 0x20, 0x20, 0x20]

  /** The boot sector; fields not stored are 0. */
  function BootSector(ns: nat, c: byte, fs: nat): Sector {
    WithTables(WithTotals(WithCounts(Put(Put(Blank(), 0, [0xE9, 0, 0]), 3, NAME), c), ns), fs)
  }

  function WithCounts(b: Sector, c: byte): Sector {
    Put(Put(Put(Put(Put(b, 11, Little16(512)), 13, [c]), 14, Little16(32)), 16, [2]), 17, Little16(0))
  }

  function WithTotals(b: Sector, ns: nat): Sector {
    Put(Put(Put(Put(b, 19, Little16(0)), 21, [0xF8]), 22, Little16(0)), 32, Little32(ns))
  }

  function WithTables(b: Sector, fs: nat): Sector {
    var b := Put(Put(Put(b, 36, Little32(fs)), 44, Little32(2)), 67, Little32(0x1337_1337));
    Put(Put(Put(b, 71, LABEL), 82, SYSTEM), 510, [0x55, 0xAA])
  }

  /** The first sector of a table: the two reserved entries, and a root directory of one cluster. */
  function FirstTableSector(): Sector {
    Put(Put(Put(Blank(), 0, Little32(0x0FFF_FFF8)), 4, Little32(0x0FFF_FFFF)), 8, Little32(0x0FFF_FFF8))
  }

  method PutBytes(buf: array<byte>, at: nat, x: seq<byte>)
    requires buf.Length == 512 && at + |x| <= 512
    modifies buf
    ensures buf[..] == Put(old(buf[..]), at, x)
  {
    for k := 0 to |x|
      invariant forall i | 0 <= i < 512 :: buf[i] == if at <= i < at + k then x[i - at] else old(buf[i])
    {
      buf[at + k] := x[k];
    }
  }

  method FillBootSector(buf: array<byte>, ns: nat, c: byte, fs: nat)
    requires buf.Length == 512 && buf[..] == Blank()
    modifies buf
    ensures buf[..] == BootSector(ns, c, fs)
  {
    hide Put, Blank;
    PutBytes(buf, 0, [0xE9, 0, 0]);
    PutBytes(buf, 3, NAME);
    PutBytes(buf, 11, Little16(512));
    PutBytes(buf, 13, [c]);
    PutBytes(buf, 14, Little16(32));
    PutBytes(buf, 16, [2]);
    PutBytes(buf, 17, Little16(0));
    PutBytes(buf, 19, Little16(0));
    PutBytes(buf, 21, [0xF8]);
    PutBytes(buf, 22, Little16(0));
    PutBytes(buf, 32, Little32(ns));
    PutBytes(buf, 36, Little32(fs));
    PutBytes(buf, 44, Little32(2));
    PutBytes(buf, 67, Little32(0x1337_1337));
    PutBytes(buf, 71, LABEL);
    PutBytes(buf, 82, SYSTEM);
    PutBytes(buf, 510, [0x55, 0xAA]);
  }

  /** The volume after formatting, sector by sector. */
  ghost predicate Formatted(disc: seq<Sector>, disc': seq<Sector>, c: nat, fs: nat)
    requires c < 256
  {
    && |disc'| == |disc| && 32 + 2 * fs <= |disc| && 0 < fs
    && disc'[0] == BootSector(|disc|, c, fs)
    && disc'[32] == disc'[32 + fs] == FirstTableSector()
    && (forall s | 32 < s < 32 + 2 * fs && s != 32 + fs :: disc'[s] == Blank())
    && (forall s | 0 < s < |disc| && !(32 <= s < 32 + 2 * fs) :: disc'[s] == disc[s])
  }

  method EmptyTables(disc: array<Sector>, fs: nat)
    requires 0 < fs && 32 + 2 * fs <= disc.Length
    modifies disc
    ensures disc[32] == disc[32 + fs] == FirstTableSector()
    ensures forall s | 32 < s < 32 + 2 * fs && s != 32 + fs :: disc[s] == Blank()
    ensures forall s | 0 <= s < disc.Length && !(32 <= s < 32 + 2 * fs) :: disc[s] == old(disc[s])
  {
    hide Put, Blank;
    var c := 32;
    while c < 32 + 2 * fs
      invariant 32 <= c <= 32 + 2 * fs
      invariant forall s | 32 <= s < c :: disc[s] == Blank()
      invariant forall s | 0 <= s < disc.Length && !(32 <= s < c) :: disc[s] == old(disc[s])
    {
      disc[c] := Blank();
      c := c + 1;
    }
    var buf := Cleared();
    PutBytes(buf, 0, Little32(0x0FFF_FFF8));
    PutBytes(buf, 4, Little32(0x0FFF_FFFF));
    PutBytes(buf, 8, Little32(0x0FFF_FFF8));
    disc[32] := buf[..];
    disc[32 + fs] := buf[..];
  }

  method Cleared() returns (buf: array<byte>)
    ensures fresh(buf) && buf.Length == 512 && buf[..] == Blank()
  {
    buf := new byte[512](_ => 0);
  }

  /** Refused below the least size; above it, written whatever size was chosen. */
  method MakeVfat(disc: array<Sector>) returns (r: int)
    requires disc.Length < TWO_TO_THE_32
    modifies disc
    ensures if disc.Length < LEAST_SECTORS then r == 1 && disc[..] == old(disc[..])
            else r == 0 && var c := Chosen(disc.Length, 64);
              Formatted(old(disc[..]), disc[..], c, TableSize(disc.Length, Max(c, 1)))
  {
    hide Blank, BootSector, TableSize, Chosen, FirstTableSector;
    var ns := disc.Length;
    if ns < LEAST_SECTORS {
      return 1;
    }
    var c, fs := ChooseSizes(ns);
    TableIsThere(ns, Max(c, 1));
    var buf := Cleared();
    FillBootSector(buf, ns, c, fs);
    disc[0] := buf[..];
    EmptyTables(disc, fs);
    r := 0;
  }

  lemma TableIsThere(ns: nat, c: nat)
    requires c > 0 && c <= 64 && LEAST_SECTORS <= ns < TWO_TO_THE_32
    ensures 0 < TableSize(ns, c)
  {
    hide Quot, TableSize;
    SizingIsTight(ns, c, 0);
    ManyClusters(ns, c);
  }

  lemma ManyClusters(ns: nat, c: nat)
    requires 0 < c <= 64 && LEAST_SECTORS <= ns
    ensures Quot(ns - 32, c) > 0
  {
    hide Quot, Rem;
    Recompose(ns - 32, c);
    var q := Quot(ns - 32, c);
    assert q * c > 0;
  }

  // ----- mounting what was written

  /** The fields mounting reads from a boot sector. */
  function VolumeIdOf(b: Sector): VolumeId {
    VolumeId(Unpack16(b[11], b[12]), b[13], Unpack16(b[14], b[15]), b[16], Unpack16(b[17], b[18]), Unpack16(b[19], b[20]),
             Unpack32(b[32], b[33], b[34], b[35]), Unpack16(b[22], b[23]), Unpack32(b[36], b[37], b[38], b[39]),
             Unpack32(b[44], b[45], b[46], b[47]))
  }

  predicate IsValidFat(b: Sector) { Unpack16(b[510], b[511]) == 0xAA55 }

  /** What mounting answers to a boot sector. */
  function InitFs(b: Sector, numSectors: nat): int {
    if !IsValidFat(b) then -1 else if !VerifySanity(VolumeIdOf(b), numSectors) then -2 else 0
  }

  lemma CountsStored(b: Sector, c: byte)
    ensures var r := WithCounts(b, c);
      r[11] == 0 && r[12] == 2 && r[13] == c && r[14] == 32 && r[15] == 0 && r[16] == 2 && r[17] == 0 && r[18] == 0
      && forall i | 0 <= i < 11 :: r[i] == b[i]
  {}

  lemma TotalsStored(b: Sector, ns: nat)
    ensures var r := WithTotals(b, ns);
      && (forall i | 0 <= i < 19 :: r[i] == b[i]) && r[19] == 0 && r[20] == 0 && r[21] == 0xF8 && r[22] == 0 && r[23] == 0
      && r[32] == Little32(ns)[0] && r[33] == Little32(ns)[1] && r[34] == Little32(ns)[2] && r[35] == Little32(ns)[3]
  {}

  lemma TablesStored(b: Sector, fs: nat)
    ensures var r := WithTables(b, fs);
      && (forall i | 0 <= i < 36 :: r[i] == b[i])
      && r[36] == Little32(fs)[0] && r[37] == Little32(fs)[1] && r[38] == Little32(fs)[2] && r[39] == Little32(fs)[3]
      && r[44] == Little32(2)[0] && r[45] == Little32(2)[1] && r[46] == Little32(2)[2] && r[47] == Little32(2)[3] && r[510] == 0x55 && r[511] == 0xAA
  {}

  lemma LabelsStored(b: Sector, fs: nat)
    ensures var r, id := WithTables(b, fs), Little32(0x1337_1337);
      && r[71..82] == LABEL && r[82..90] == SYSTEM
      && r[67] == id[0] && r[68] == id[1] && r[69] == id[2] && r[70] == id[3]
  {
    hide Little32;
    var r := WithTables(b, fs);
    assert forall i | 0 <= i < 11 :: r[71..82][i] == LABEL[i];
    assert forall i | 0 <= i < 8 :: r[82..90][i] == SYSTEM[i];
  }

  lemma BootSectorReadsBack(ns: nat, c: byte, fs: nat)
    requires ns < TWO_TO_THE_32 && fs < TWO_TO_THE_32
    ensures VolumeIdOf(BootSector(ns, c, fs)) == VolumeId(512, c, 32, 2, 0, 0, ns, 0, fs, 2)
    ensures IsValidFat(BootSector(ns, c, fs))
  {
    hide Put, Blank, WithCounts, WithTotals, WithTables, Little32, Unpack32;
    var b0 := Put(Put(Blank(), 0, [0xE9, 0, 0]), 3, NAME);
    var b1 := WithCounts(b0, c);
    var b2 := WithTotals(b1, ns);
    CountsStored(b0, c);
    TotalsStored(b1, ns);
    TablesStored(b2, fs);
    LittleReadsBack(ns);
    LittleReadsBack(fs);
    LittleReadsBack(2);
  }

  /** What other systems look for: the jump, the names at their places, and the media byte with which the table begins, too. */
  lemma LabelsReadBack(ns: nat, c: byte, fs: nat)
    ensures var b := BootSector(ns, c, fs);
      && b[0] == 0xE9 && b[3..11] == NAME && b[71..82] == LABEL && b[82..90] == SYSTEM && b[21] == FirstTableSector()[0]
      && Unpack32(b[67], b[68], b[69], b[70]) == 0x1337_1337
  {
    hide WithTables, WithTotals, WithCounts, Little32;
    var b0 := Put(Put(Blank(), 0, [0xE9, 0, 0]), 3, NAME);
    var b1 := WithCounts(b0, c);
    var b2 := WithTotals(b1, ns);
    CountsStored(b0, c);
    TotalsStored(b1, ns);
    TablesStored(b2, fs);
    LabelsStored(b2, fs);
    LittleReadsBack(0x1337_1337);
    FirstBytes();
    assert b0[3..11] == NAME;
    assert WithTables(b2, fs)[3..11] == b0[3..11];
  }

  /** A formatted volume mounts exactly from 66599 sectors on; the smaller ones let through are refused for their cluster size. */
  lemma FormattedMountsExactly(disc: seq<Sector>, disc': seq<Sector>)
    requires LEAST_SECTORS <= |disc| < TWO_TO_THE_32
    requires Formatted(disc, disc', Chosen(|disc|, 64), TableSize(|disc|, Max(Chosen(|disc|, 64), 1)))
    ensures InitFs(disc'[0], |disc|) == if |disc| >= 66599 then 0 else -2
  {
    hide BootSector, TableSize, Chosen, IsValidFat, VolumeIdOf;
    var ns, c := |disc|, Chosen(|disc|, 64);
    ChosenIsLargest(ns, 1);
    BootSectorReadsBack(ns, c, TableSize(ns, Max(c, 1)));
  }

  /** From 66599 sectors on, the volume mounts as FAT32 with the clusters and tables it was sized for, all of them on it. */
  lemma MountsAsSized(disc: seq<Sector>, disc': seq<Sector>)
    requires 66599 <= |disc| < TWO_TO_THE_32
    requires Formatted(disc, disc', Chosen(|disc|, 64), TableSize(|disc|, Max(Chosen(|disc|, 64), 1)))
    ensures var c := Chosen(|disc|, 64);
      && c > 0 && VolumeIdOf(disc'[0]).sectorsPerCluster == c && FirstClusterRootDir(VolumeIdOf(disc'[0])) == VolumeIdOf(disc'[0]).rootCluster == 2
      && Mounted(VolumeIdOf(disc'[0])) == FileSystem(FAT32, c, 32, 2, 0, TableSize(|disc|, c), ClusterCount(|disc|, c))
      && DataOnDisc(Mounted(VolumeIdOf(disc'[0])), |disc|) && OnDisc(Mounted(VolumeIdOf(disc'[0])), disc')
  {
    hide BootSector, TableSize, Chosen, Mounted;
    var ns, c := |disc|, Chosen(|disc|, 64);
    ChosenIsLargest(ns, 1);
    var fs := TableSize(ns, c);
    BootSectorReadsBack(ns, c, fs);
    MountedAs(ns, c, fs);
  }

  lemma MountedAs(ns: nat, c: nat, fs: nat)
    requires c > 0 && 32 + 2 * fs <= ns < TWO_TO_THE_32 && Quot(ns - 32 - 2 * fs, c) >= LEAST_CLUSTERS
    ensures var v := VolumeId(512, c, 32, 2, 0, 0, ns, 0, fs, 2);
      && Mounted(v) == FileSystem(FAT32, c, 32, 2, 0, fs, Quot(ns - 32 - 2 * fs, c))
      && DataOnDisc(Mounted(v), ns)
  {
    hide DataOnDisc;
    var v := VolumeId(512, c, 32, 2, 0, 0, ns, 0, fs, 2);
    assert OverheadSectors(v) == 32 + 2 * fs;
    assert (ns - 32 - 2 * fs) % TWO_TO_THE_32 == ns - 32 - 2 * fs;
    MountedClustersFit(v);
  }

  /** No chosen size makes so many clusters that their numbers would mean the end of a chain. */
  lemma ClusterNumbersAreLinks(ns: nat)
    requires 66599 <= ns < TWO_TO_THE_32
    ensures Chosen(ns, 64) > 0 && ClusterCount(ns, Chosen(ns, 64)) + 2 < LeastEoc(FAT32)
  {
    hide TableSize, Chosen, ClusterCount;
    ChosenIsLargest(ns, 64);
    var c := Chosen(ns, 64);
    ClustersBelowSectors(ns, c);
    ClustersBelowSectors(ns, 64);
  }

  lemma ClustersBelowSectors(ns: nat, c: nat)
    requires c > 0 && LEAST_SECTORS <= ns < TWO_TO_THE_32
    ensures ClusterCount(ns, c) <= ns && (c == 64 ==> 64 * ClusterCount(ns, c) <= ns)
    ensures c == 64 && ns >= 0x800_0000 ==> ClusterCount(ns, c) >= LEAST_CLUSTERS
  {
    hide TableSize, Need;
    var f1, f2, f3, f4 := Corrections(ns, c);
    NeedFits(ns, c, f3);
    QuotientGrows(ns - 32 - 2 * f4, 0, c);
  }

  function RootOnly(c: nat): nat {
    if c == 0 || c == 2 then 0x0FFF_FFF8 else if c == 1 then 0x0FFF_FFFF else 0
  }

  lemma FirstSectorAt(c: nat)
    requires c < 128
    ensures var b := FirstTableSector(); Unpack32(b[4 * c], b[4 * c + 1], b[4 * c + 2], b[4 * c + 3]) == RootOnly(c)
  {
    hide FirstTableSector, Unpack32;
    FirstBytes();
    EntryValues();
  }

  /** The bytes of the three entries stored, and zeros behind them. */
  lemma FirstBytes()
    ensures var b := FirstTableSector();
      && b[0] == b[8] == 0xF8 && b[1] == b[2] == b[9] == b[10] == 0xFF && b[3] == b[11] == 0x0F
      && b[4] == b[5] == b[6] == 0xFF && b[7] == 0x0F && forall i | 12 <= i < 512 :: b[i] == 0
  {}

  lemma EntryValues()
    ensures Unpack32(0xF8, 0xFF, 0xFF, 0x0F) == 0x0FFF_FFF8 && Unpack32(0xFF, 0xFF, 0xFF, 0x0F) == 0x0FFF_FFFF
    ensures Unpack32(0, 0, 0, 0) == 0
  {}

  lemma FirstEntries(disc': seq<Sector>, fs: FileSystem, c: nat)
    requires OnDisc(fs, disc') && fs.kind == FAT32 && fs.reservedSectorCount == 32 && 4 * c + 4 <= 512 * fs.fatSectorCount
    requires 32 + fs.fatSectorCount < |disc'|
    requires disc'[32] == FirstTableSector()
    requires forall s | 32 < s < 32 + fs.fatSectorCount :: disc'[s] == Blank()
    ensures Entry(FAT32, TableBytes(fs, disc'), c) == RootOnly(c)
  {
    hide FatVolume.DecodeEntry, Entry, TableBytes, SectorAddress, RootOnly;
    FatVolume.DecodeIsEntry(fs, disc', c);
    DecodeRootOnly(fs, disc', c, c / 128, c % 128);
  }

  lemma DecodeRootOnly(fs: FileSystem, disc': seq<Sector>, c: nat, i: nat, k: nat)
    requires OnDisc(fs, disc') && fs.kind == FAT32 && fs.reservedSectorCount == 32
    requires c == 128 * i + k && k < 128 && i < fs.fatSectorCount && 32 + fs.fatSectorCount < |disc'|
    requires disc'[32] == FirstTableSector()
    requires forall s | 32 < s < 32 + fs.fatSectorCount :: disc'[s] == Blank()
    ensures FatVolume.DecodeEntry(fs, disc', c, SectorAddress(fs, c)) == RootOnly(c)
  {
    hide FirstTableSector, Blank, Unpack32, SectorAddress, RootOnly, Fat12Offset, FatVolume.StraddledByte;
    PositionOf(fs, c, i, k);
    if i == 0 {
      FirstSectorAt(k);
    } else {
      assert disc'[32 + i] == Blank();
      BlankAt(k);
      NoRootEntry(c);
    }
  }

  lemma NoRootEntry(c: nat)
    requires c > 2
    ensures RootOnly(c) == 0
  {}

  lemma PositionOf(fs: FileSystem, c: nat, i: nat, k: nat)
    requires fs.kind == FAT32 && fs.reservedSectorCount == 32 && c == 128 * i + k && k < 128 && i < fs.fatSectorCount
    ensures SectorAddress(fs, c) == 32 + i && c % 128 == k
  {}

  lemma BlankAt(k: nat)
    requires k < 128
    ensures var b := Blank(); Unpack32(b[4 * k], b[4 * k + 1], b[4 * k + 2], b[4 * k + 3]) == 0
  {}

  /** The entries that the table has for the clusters are a consistent volume with the chain of the root cluster alone. */
  ghost predicate RootChainAlone(v: VolumeId, disc: seq<Sector>)
    requires v.sectorsPerCluster > 0
  {
    var fs := Mounted(v);
    && OnDisc(fs, disc) && fs.kind == FAT32 && 4 <= fs.dataClusterCount <= 128 * fs.fatSectorCount
    && Consistent(Fat(FAT32, Table(FAT32, TableBytes(fs, disc), Min(fs.dataClusterCount + 2, 128 * fs.fatSectorCount)), [[v.rootCluster]]))
  }

  /**
   The volume as mounted: the entries its table has for its clusters are a
   consistent volume with the one-cluster chain of the root directory that the
   boot sector names, and nothing else. They are all the entries the other layers ask for exactly under the
   condition on the number of sectors.
   */
  lemma FormattedIsConsistent(disc: seq<Sector>, disc': seq<Sector>)
    requires 66599 <= |disc| < TWO_TO_THE_32
    requires Formatted(disc, disc', Chosen(|disc|, 64), TableSize(|disc|, Max(Chosen(|disc|, 64), 1)))
    ensures VolumeIdOf(disc'[0]).sectorsPerCluster == Chosen(|disc|, 64) > 0
    ensures RootChainAlone(VolumeIdOf(disc'[0]), disc')
    ensures var fs, c := Mounted(VolumeIdOf(disc'[0])), Chosen(|disc|, 64);
      (CoversClusters(fs) <==> c <= (|disc| - 32) % (128 * c + 2) < 128 * c + 2 - c)
  {
    hide Formatted, BootSector, TableSize, Chosen, Mounted, VolumeIdOf, ClusterCount, Consistent, Table, TableBytes;
    MountsAsSized(disc, disc');
    ChosenIsLargest(|disc|, 1);
    ClusterNumbersAreLinks(|disc|);
    CoversReservedExactly(|disc|);
    SizedForClusters(|disc|, Chosen(|disc|, 64));
    var fs := Mounted(VolumeIdOf(disc'[0]));
    FormattedTable(disc, disc', fs);
    RootAloneIsConsistent(disc', fs, Min(fs.dataClusterCount + 2, 128 * fs.fatSectorCount));
  }

  lemma SizedForClusters(ns: nat, c: nat)
    requires c > 0 && LEAST_SECTORS <= ns < TWO_TO_THE_32
    ensures ClusterCount(ns, c) <= 128 * TableSize(ns, c)
  {
    hide TableSize, Quot;
    SizingIsTight(ns, c, 0);
  }

  lemma RootAloneIsConsistent(disc': seq<Sector>, fs: FileSystem, entries: nat)
    requires OnDisc(fs, disc') && fs.kind == FAT32 && fs.reservedSectorCount == 32
    requires 4 <= entries <= 128 * fs.fatSectorCount && entries < LeastEoc(FAT32)
    requires 32 + fs.fatSectorCount < |disc'|
    requires disc'[32] == FirstTableSector()
    requires forall s | 32 < s < 32 + fs.fatSectorCount :: disc'[s] == Blank()
    ensures Consistent(Fat(FAT32, Table(FAT32, TableBytes(fs, disc'), entries), [[2]]))
  {
    hide FirstTableSector, Blank;
    var tab := Table(FAT32, TableBytes(fs, disc'), entries);
    forall c | 0 <= c < |tab| ensures tab[c] == RootOnly(c) {
      FirstEntries(disc', fs, c);
    }
    var s := Fat(FAT32, tab, [[2]]);
    assert forall c | 2 <= c < |tab| && c != 2 :: tab[c] == 0;
    assert s.files[0] == [2] && Owned(s.files, 2);
  }

  lemma FormattedTable(disc: seq<Sector>, disc': seq<Sector>, fs: FileSystem)
    requires LEAST_SECTORS <= |disc| < TWO_TO_THE_32
    requires Formatted(disc, disc', Chosen(|disc|, 64), TableSize(|disc|, Max(Chosen(|disc|, 64), 1)))
    requires fs.fatSectorCount == TableSize(|disc|, Max(Chosen(|disc|, 64), 1))
    ensures disc'[32] == FirstTableSector()
    ensures 32 + fs.fatSectorCount < |disc'| && forall s | 32 < s < 32 + fs.fatSectorCount :: disc'[s] == Blank()
  {}
}
