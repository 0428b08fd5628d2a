/** How many more clusters a write needs, in the source's unsigned 32-bit arithmetic. */
module RequiredClusters {
  import opened Types
  import opened Geometry

  /** The formula, for a file of hc clusters of cs bytes. */
  function RequiredFor(fileSize: nat, offset: nat, size: nat, hc: nat, cs: nat): nat
    requires cs > 0
  {
    if Add32(offset, size) > fileSize then
      if Add32(Sub32(size, fileSize), offset) > Mul32(Sub32(hc, Quot(Add32(fileSize, cs - 1), cs)), cs) then
        Quot(Add32(Sub32(Add32(offset, size), Mul32(hc, cs)), cs - 1), cs)
      else 0
    else 0
  }

  lemma ModSmall(x: nat)
    requires x < TWO_TO_THE_32
    ensures x % TWO_TO_THE_32 == x
  {}

  /** Adding after a wrapped subtraction undoes the wrap when the total is small and not negative. */
  lemma WrapsBack(a: nat, b: nat, c: nat)
    requires b <= a + c && a + c - b < TWO_TO_THE_32
    ensures Add32(Sub32(a, b), c) == a + c - b
  {
    var q, r := (a - b) / TWO_TO_THE_32, (a - b) % TWO_TO_THE_32;
    assert a - b == TWO_TO_THE_32 * q + r;
  }

  /** The least number of clusters that, with those already there, holds `end` bytes. */
  ghost predicate IsLeastCover(r: nat, end: nat, hc: nat, cs: nat) {
    end <= (hc + r) * cs && (r > 0 ==> (hc + r - 1) * cs < end)
  }

  /**
   While the clusters counted hold the file and nothing exceeds 32 bits, the
   formula asks for exactly the clusters that are missing. Its subtraction goes
   below zero by less than one cluster, which the addition behind it makes good.
   */
  lemma RequiredIsLeastCover(fileSize: nat, offset: nat, size: nat, hc: nat, cs: nat)
    requires 0 < cs && fileSize <= hc * cs < TWO_TO_THE_32
    requires fileSize + cs <= TWO_TO_THE_32 && offset + size + cs <= TWO_TO_THE_32
    ensures IsLeastCover(RequiredFor(fileSize, offset, size, hc, cs), offset + size, hc, cs)
  {
    hide IsLeastCover, RequiredFor;
    NoWrapAround(fileSize, offset, size, hc, cs);
    PlainIsLeastCover(fileSize, offset + size, hc, cs);
  }

  function UsedBy(fileSize: nat, cs: nat): nat
    requires cs > 0
  {
    Quot(fileSize + cs - 1, cs)
  }

  /** The formula without its 32-bit arithmetic: `held` bytes fit the clusters there are, `spare` of them unused clusters'. */
  function PlainRequired(fileSize: nat, end: nat, cs: nat, held: nat, spare: nat): nat
    requires 0 < cs
  {
    if end > fileSize && end - fileSize > spare && end + (cs - 1) >= held then Quot(end + (cs - 1) - held, cs) else 0
  }

  lemma NoWrapAround(fileSize: nat, offset: nat, size: nat, hc: nat, cs: nat)
    requires 0 < cs && fileSize <= hc * cs < TWO_TO_THE_32
    requires fileSize + cs <= TWO_TO_THE_32 && offset + size + cs <= TWO_TO_THE_32
    ensures UsedBy(fileSize, cs) <= hc
    ensures RequiredFor(fileSize, offset, size, hc, cs)
         == PlainRequired(fileSize, offset + size, cs, hc * cs, (hc - UsedBy(fileSize, cs)) * cs)
  {
    hide Add32, Sub32, Mul32, Quot, RequiredFor;
    var used := UsedBy(fileSize, cs);
    UsedClusters(fileSize, hc, cs);
    HcIsSmall(hc, cs);
    MultiplesOrdered(hc - used, hc, cs);
    Distributes(hc, used, cs);
    SmallDifference(hc, used);
    SmallProduct(hc - used, cs);
    SmallProduct(hc, cs);
    PlainFormula(fileSize, offset, size, hc, cs, used, hc * cs, (hc - used) * cs);
  }

  lemma PlainFormula(fileSize: nat, offset: nat, size: nat, hc: nat, cs: nat, used: nat, held: nat, spare: nat)
    requires 0 < cs && used <= hc && used == UsedBy(fileSize, cs) && fileSize + spare + cs > held
    requires held < TWO_TO_THE_32 && fileSize + cs <= TWO_TO_THE_32 && offset + size + cs <= TWO_TO_THE_32
    requires Sub32(hc, used) == hc - used && Mul32(hc - used, cs) == spare && Mul32(hc, cs) == held
    ensures RequiredFor(fileSize, offset, size, hc, cs) == PlainRequired(fileSize, offset + size, cs, held, spare)
  {
    hide Add32, Sub32, Mul32, Quot;
    var end := offset + size;
    SmallSums(offset, size);
    SmallSums(fileSize, cs - 1);
    if end > fileSize {
      WrapsBack(size, fileSize, offset);
      if end - fileSize > spare { WrapsBack(end, held, cs - 1); }
    }
  }

  lemma SmallSums(x: nat, y: nat)
    ensures x + y < TWO_TO_THE_32 ==> Add32(x, y) == x + y
  {}

  lemma SmallDifference(x: nat, y: nat)
    ensures y <= x < TWO_TO_THE_32 ==> Sub32(x, y) == x - y
  {}

  lemma SmallProduct(x: nat, y: nat)
    ensures x * y < TWO_TO_THE_32 ==> Mul32(x, y) == x * y
  {
    if x * y < TWO_TO_THE_32 { ModSmall(x * y); }
  }

  lemma Distributes(hc: nat, used: nat, cs: nat)
    requires used <= hc
    ensures (hc - used) * cs == hc * cs - used * cs
  {}

  lemma PlainIsLeastCover(fileSize: nat, end: nat, hc: nat, cs: nat)
    requires 0 < cs && fileSize <= hc * cs && UsedBy(fileSize, cs) <= hc
    ensures IsLeastCover(PlainRequired(fileSize, end, cs, hc * cs, (hc - UsedBy(fileSize, cs)) * cs), end, hc, cs)
  {
    hide Quot;
    var used := UsedBy(fileSize, cs);
    UsedClusters(fileSize, hc, cs);
    Distributes(hc, used, cs);
    if end > fileSize && end - fileSize > (hc - used) * cs {
      CeilIsLeast(end, hc, cs);
    }
  }

  lemma HcIsSmall(hc: nat, cs: nat)
    requires 0 < cs && hc * cs < TWO_TO_THE_32
    ensures hc < TWO_TO_THE_32
  {
    MultiplesOrdered(1, cs, hc);
    assert cs * hc == hc * cs;
  }

  /** The clusters that the file fills, the last one in part. */
  lemma UsedClusters(fileSize: nat, hc: nat, cs: nat)
    requires 0 < cs && fileSize <= hc * cs
    ensures var used := UsedBy(fileSize, cs);
      used <= hc && fileSize <= used * cs < fileSize + cs
  {
    var used, r := (fileSize + cs - 1) / cs, (fileSize + cs - 1) % cs;
    assert fileSize + cs - 1 == cs * used + r && cs * used == used * cs;
    assert (hc + 1) * cs == hc * cs + cs;
    QuotientBelow(fileSize + cs - 1, hc + 1, cs);
  }

  lemma CeilIsLeast(end: nat, hc: nat, cs: nat)
    requires 0 < cs && hc * cs < end + cs
    ensures IsLeastCover(Quot(end + (cs - 1) - hc * cs, cs), end, hc, cs)
  {
    var x := end + (cs - 1) - hc * cs;
    var r, m := x / cs, x % cs;
    assert x == cs * r + m && cs * r == r * cs;
    assert (hc + r) * cs == hc * cs + r * cs;
    if r > 0 { assert (hc + r - 1) * cs == (hc + r) * cs - cs; }
  }
}
