/**
 The buffer manager as a value: slots that hold sectors, each with a stack of
 sectors it has been taken away from, in front of a disc. The operations follow
 ioman.c; the device always succeeds.
 */
module SectorCache {
  import opened Types

  /** A sector pushed aside, with its status and use count. */
  datatype Saved = Saved(sector: nat, valid: bool, writable: bool, usage: nat)

  datatype Slot = Slot(sector: nat, valid: bool, writable: bool, usage: nat, reference: nat, stack: seq<Saved>, mem: Sector)

  datatype Cache = Cache(slots: seq<Slot>, disc: seq<Sector>)

  // request modes: bit 0 read-only, bit 1 read-write, bit 2 expected to be used once
  const READWRITE := 2

  predicate IsReqRw(mode: nat) { mode / 2 % 2 == 1 }

  predicate IsReqExp(mode: nat) { mode / 4 % 2 == 1 }

  /** Saturating 8-bit counters. */
  function Inc(x: nat): nat { if x == 0xFF then x else x + 1 }

  function Dec(x: nat): nat { if x == 0 then x else x - 1 }

  // ----- searches

  /** The first slot from c on that holds the sector, or -1. */
  function FindSector(slots: seq<Slot>, address: nat, c: nat): (r: int)
    requires c <= |slots|
    ensures r == -1 || (c <= r < |slots| && slots[r].valid && slots[r].sector == address)
    ensures forall i | c <= i < (if r == -1 then |slots| else r) :: !(slots[i].valid && slots[i].sector == address)
    decreases |slots| - c
  {
    if c == |slots| then -1
    else if slots[c].valid && slots[c].sector == address then c
    else FindSector(slots, address, c + 1)
  }

  /** The first slot from c on that holds nothing, or -1. */
  function FindFree(slots: seq<Slot>, c: nat): (r: int)
    requires c <= |slots|
    ensures r == -1 || (c <= r < |slots| && !slots[r].valid)
    ensures forall i | c <= i < (if r == -1 then |slots| else r) :: slots[i].valid
    decreases |slots| - c
  {
    if c == |slots| then -1 else if !slots[c].valid then c else FindFree(slots, c + 1)
  }

  /** An unused slot i is at least as good a victim as j: clean before written to, then the fewer references. */
  predicate NoWorseVictim(i: Slot, j: Slot) {
    (!i.writable && j.writable) || (i.writable == j.writable && i.reference <= j.reference)
  }

  /** The victim among the first n slots, the last one of equals; -1 when all are in use. */
  function FindUnused(slots: seq<Slot>, n: nat): (r: int)
    requires n <= |slots|
    ensures -1 <= r < n && (r != -1 ==> slots[r].usage == 0)
  {
    if n == 0 then -1 else
      var b, c := FindUnused(slots, n - 1), n - 1;
      if slots[c].usage != 0 then b
      else if b == -1 || NoWorseVictim(slots[c], slots[b]) then c
      else b
  }

  /** Score of a slot that could be pushed aside; the source keeps it in 8 bits. */
  function Points(s: Slot, numit: nat): nat
    requires |s.stack| < numit
  {
    (if s.writable then 0x7F else 0) + StackPoints(|s.stack|, numit) + ReferencePoints(s.reference)
  }

  function StackPoints(depth: nat, numit: nat): nat
    requires depth < numit
  {
    depth * 0x4D / numit
  }

  function ReferencePoints(reference: nat): nat { reference * 0x33 / 0xFF }

  /** The slot with the lowest score among the first n that have room on their stack, the first of equals. */
  function FindOverallocable(slots: seq<Slot>, numit: nat, n: nat): (r: int)
    requires n <= |slots|
    ensures -1 <= r < n && (r != -1 ==> |slots[r].stack| < numit)
  {
    if n == 0 then -1 else
      var b, c := FindOverallocable(slots, numit, n - 1), n - 1;
      if |slots[c].stack| >= numit then b
      else if b == -1 || Points(slots[c], numit) < Points(slots[b], numit) then c
      else b
  }

  // ----- operations

  predicate OnDisc(cs: Cache, bp: nat) {
    bp < |cs.slots| && cs.slots[bp].sector < |cs.disc|
  }

  /** A buffer marked as written to is stored; any other is left alone. */
  function FlushIfWritable(cs: Cache, bp: nat): (r: Cache)
    requires OnDisc(cs, bp)
    ensures r.slots == cs.slots && |r.disc| == |cs.disc|
  {
    var s := cs.slots[bp];
    if s.writable then cs.(disc := cs.disc[s.sector := s.mem]) else cs
  }

  function WithSlot(cs: Cache, bp: nat, s: Slot): (r: Cache)
    requires bp < |cs.slots|
  {
    cs.(slots := cs.slots[bp := s])
  }

  /** A slot freshly filled for a first user. */
  function Filled(cs: Cache, address: nat, writable: bool, exp: bool, stack: seq<Saved>): Slot
    requires address < |cs.disc|
  {
    Slot(address, true, writable, 1, if exp then 0 else 1, stack, cs.disc[address])
  }

  predicate Addressable(cs: Cache, address: nat) {
    address < |cs.disc| && forall i | 0 <= i < |cs.slots| :: cs.slots[i].sector < |cs.disc|
  }

  /** A buffer for the sector, or -1 when there is none to be had. */
  function GetSector(cs: Cache, numit: nat, address: nat, mode: nat): (r: (Cache, int))
    requires Addressable(cs, address)
    ensures -1 <= r.1 < |cs.slots|
  {
    var hit := FindSector(cs.slots, address, 0);
    if hit != -1 then
      var s := cs.slots[hit];
      (WithSlot(cs, hit, s.(writable := s.writable || IsReqRw(mode), usage := Inc(s.usage),
                            reference := if IsReqExp(mode) then s.reference else Inc(s.reference))), hit)
    else
      var free := FindFree(cs.slots, 0);
      var unused := FindUnused(cs.slots, |cs.slots|);
      if free != -1 then
        (WithSlot(cs, free, Filled(cs, address, mode == READWRITE, IsReqExp(mode), cs.slots[free].stack)), free)
      else if unused != -1 then
        var cs1 := FlushIfWritable(cs, unused);
        (WithSlot(cs1, unused, Filled(cs1, address, mode == READWRITE, IsReqExp(mode), cs.slots[unused].stack)), unused)
      else
        var over := FindOverallocable(cs.slots, numit, |cs.slots|);
        if over == -1 then (cs, -1) else
          var s := cs.slots[over];
          var cs1 := FlushIfWritable(cs, over);
          var stack := s.stack + [Saved(s.sector, s.valid, s.writable, s.usage)];
          (WithSlot(cs1, over, Filled(cs1, address, IsReqRw(mode), IsReqExp(mode), stack)), over)
  }

  /** The buffer is given up; its slot returns to the sector it was taken from once nobody uses it. */
  function ReleaseSector(cs: Cache, bp: nat): (r: Cache)
    requires OnDisc(cs, bp) && forall i | 0 <= i < |cs.slots[bp].stack| :: cs.slots[bp].stack[i].sector < |cs.disc|
    ensures |r.slots| == |cs.slots| && |r.disc| == |cs.disc|
  {
    var s := cs.slots[bp].(usage := Dec(cs.slots[bp].usage));
    if s.usage == 0 && s.stack != [] then
      var cs1 := FlushIfWritable(cs, bp);
      var k := |s.stack| - 1;
      var top := s.stack[k];
      WithSlot(cs1, bp, Slot(top.sector, true, top.writable, top.usage, s.reference, s.stack[..k], cs1.disc[top.sector]))
    else WithSlot(cs, bp, s)
  }

  /** The contents of a sector, which may become cached on the way. */
  function DirectSectorRead(cs: Cache, address: nat): (r: (Cache, Sector))
    requires address < |cs.disc|
    ensures |r.0.slots| == |cs.slots|
  {
    var hit := FindSector(cs.slots, address, 0);
    if hit != -1 then (cs, cs.slots[hit].mem)
    else
      var free := FindFree(cs.slots, 0);
      if free != -1 then
        var s := cs.slots[free].(sector := address, valid := true, mem := cs.disc[address]);
        (WithSlot(cs, free, s), s.mem)
      else (cs, cs.disc[address])
  }

  function DirectSectorWrite(cs: Cache, address: nat, data: Sector): (r: Cache)
    requires address < |cs.disc|
    ensures |r.slots| == |cs.slots| && |r.disc| == |cs.disc|
  {
    var hit := FindSector(cs.slots, address, 0);
    if hit != -1 then WithSlot(cs, hit, cs.slots[hit].(mem := data, writable := true))
    else
      var free := FindFree(cs.slots, 0);
      if free != -1 then WithSlot(cs, free, Slot(address, true, true, 0, 0, cs.slots[free].stack, data))
      else cs.(disc := cs.disc[address := data])
  }

  /** A slot in the range that was written to is stored; unless in use, it is clean again. */
  function FlushSlot(cs: Cache, low: nat, high: nat, c: nat): (r: Cache)
    requires OnDisc(cs, c)
    ensures |r.slots| == |cs.slots| && |r.disc| == |cs.disc|
    ensures forall i | 0 <= i < |cs.slots| :: r.slots[i].sector == cs.slots[i].sector
  {
    var s := cs.slots[c];
    if low <= s.sector <= high && s.writable then
      WithSlot(FlushIfWritable(cs, c), c, s.(writable := s.usage != 0))
    else cs
  }

  /** The first n slots are flushed in turn. */
  function FlushRange(cs: Cache, low: nat, high: nat, n: nat): (r: Cache)
    requires n <= |cs.slots| && forall i | 0 <= i < |cs.slots| :: cs.slots[i].sector < |cs.disc|
    ensures |r.slots| == |cs.slots| && |r.disc| == |cs.disc|
    ensures forall i | 0 <= i < |cs.slots| :: r.slots[i].sector == cs.slots[i].sector
  {
    if n == 0 then cs else FlushSlot(FlushRange(cs, low, high, n - 1), low, high, n - 1)
  }

  // ----- what the searches find

  lemma {:induction false} UnusedIsBest(slots: seq<Slot>, n: nat)
    requires n <= |slots|
    ensures FindUnused(slots, n) == -1 <==> forall i | 0 <= i < n :: slots[i].usage != 0
    ensures forall i | 0 <= i < n && slots[i].usage == 0 :: NoWorseVictim(slots[FindUnused(slots, n)], slots[i])
    ensures forall i | FindUnused(slots, n) < i < n && slots[i].usage == 0 :: !NoWorseVictim(slots[i], slots[FindUnused(slots, n)])
  {
    if n > 0 { UnusedIsBest(slots, n - 1); }
  }

  /** The score always fits in 8 bits and stays below the loop's initial bound of 255. */
  lemma PointsBelowLimit(s: Slot, numit: nat)
    requires |s.stack| < numit && s.reference <= 0xFF
    ensures Points(s, numit) <= 254
  {
    QuotientBelow(|s.stack| * 0x4D, 0x4D, numit);
  }

  /**
   Deeper stacks, more references and changes to be written make a slot no
   better a victim, and a clean slot never scores above a changed one.
   */
  lemma PointsFollowCost(s: Slot, t: Slot, numit: nat)
    requires |s.stack| < numit && |t.stack| < numit && s.reference <= 0xFF && t.reference <= 0xFF
    ensures (s.writable ==> t.writable) && |s.stack| <= |t.stack| && s.reference <= t.reference ==> Points(s, numit) <= Points(t, numit)
    ensures !s.writable && t.writable ==> Points(s, numit) <= Points(t, numit)
    ensures s.writable == t.writable && |s.stack| == |t.stack| && s.reference + 5 <= t.reference ==> Points(s, numit) < Points(t, numit)
    ensures s.writable == t.writable && s.reference == t.reference && |s.stack| < |t.stack| && numit <= 0x4D ==>
      Points(s, numit) < Points(t, numit)
  {
    hide StackPoints;
    StackPointsGrow(|s.stack|, |t.stack|, numit);
    StackPointsGrow(0, |s.stack|, numit);
    StackPointsGrow(0, |t.stack|, numit);
  }

  lemma StackPointsGrow(d: nat, e: nat, numit: nat)
    requires d < numit && e < numit
    ensures StackPoints(e, numit) <= 0x4C
    ensures d <= e ==> StackPoints(d, numit) <= StackPoints(e, numit)
    ensures d < e && numit <= 0x4D ==> StackPoints(d, numit) < StackPoints(e, numit)
  {
    QuotientsGrow(d * 0x4D, e * 0x4D, numit);
    QuotientBelow(e * 0x4D, 0x4D, numit);
  }

  lemma QuotientBelow(x: nat, k: nat, n: nat)
    requires x < n * k
    ensures x / n < k
  {
    var p := x / n;
    assert n * p <= x;
    assert p >= k ==> n * p >= n * k;
  }

  lemma QuotientsGrow(x: nat, y: nat, n: nat)
    requires n > 0
    ensures x <= y ==> x / n <= y / n
    ensures x + n <= y ==> x / n < y / n
  {
    var q := y / n;
    assert y < n * q + n && n * (q + 1) == n * q + n;
    if x <= y { QuotientBelow(x, q + 1, n); }
    if x + n <= y { QuotientBelow(x, q, n); }
  }

  lemma {:induction false} OverallocableIsLowest(slots: seq<Slot>, numit: nat, n: nat)
    requires n <= |slots|
    ensures FindOverallocable(slots, numit, n) == -1 <==> forall i | 0 <= i < n :: |slots[i].stack| >= numit
    ensures forall i | 0 <= i < n && |slots[i].stack| < numit ::
              Points(slots[FindOverallocable(slots, numit, n)], numit) <= Points(slots[i], numit)
    ensures forall i | 0 <= i < FindOverallocable(slots, numit, n) && |slots[i].stack| < numit ::
              Points(slots[FindOverallocable(slots, numit, n)], numit) < Points(slots[i], numit)
  {
    hide Points;
    if n > 0 { OverallocableIsLowest(slots, numit, n - 1); }
  }

  /**
   A request that expects no further use leaves its slot with fewer references
   than the same request without that mark, and so the better victim, unless the
   count was saturated; a cached sector's count it does not raise at all.
   */
  lemma ExpectedOnceGoesFirst(cs: Cache, numit: nat, address: nat, mode: nat)
    requires Addressable(cs, address) && IsReqExp(mode) && GetSector(cs, numit, address, mode).1 != -1
    ensures var hit := FindSector(cs.slots, address, 0);
      var (once, bp), (again, bp') := GetSector(cs, numit, address, mode), GetSector(cs, numit, address, mode - 4);
      && bp' == bp && once.slots[bp].reference <= again.slots[bp].reference
      && (hit == -1 || cs.slots[hit].reference < 0xFF ==> once.slots[bp].reference < again.slots[bp].reference)
      && (hit != -1 ==> once.slots[bp].reference == cs.slots[hit].reference)
  {}

  /** Writing is put off: a request stores nothing but the changed sector whose slot it takes, and for a cached sector nothing at all. */
  lemma GetStoresVictimOnly(cs: Cache, numit: nat, address: nat, mode: nat)
    requires Addressable(cs, address)
    ensures var (cs', bp) := GetSector(cs, numit, address, mode);
      && |cs'.disc| == |cs.disc|
      && (FindSector(cs.slots, address, 0) != -1 || bp == -1 || !cs.slots[bp].writable ==> cs'.disc == cs.disc)
      && forall a | 0 <= a < |cs.disc| && (bp == -1 || a != cs.slots[bp].sector) :: cs'.disc[a] == cs.disc[a]
  {}

  /** A direct transfer leaves the sector cached, and the disc alone, exactly when it was cached or a slot was free. */
  lemma DirectTransfersCache(cs: Cache, address: nat, data: Sector)
    requires address < |cs.disc|
    ensures var held := FindSector(cs.slots, address, 0) != -1 || FindFree(cs.slots, 0) != -1;
      var read, written := DirectSectorRead(cs, address).0, DirectSectorWrite(cs, address, data);
      && (FindSector(read.slots, address, 0) != -1 <==> held) && read.disc == cs.disc
      && (FindSector(written.slots, address, 0) != -1 <==> held)
      && written.disc == if held then cs.disc else cs.disc[address := data]
  {
    var read, written := DirectSectorRead(cs, address).0, DirectSectorWrite(cs, address, data);
    var free := FindFree(cs.slots, 0);
    var hit := FindSector(cs.slots, address, 0);
    if hit != -1 {
      assert written.slots[hit].sector == address;
    } else if free != -1 {
      assert read.slots[free].sector == written.slots[free].sector == address;
    }
  }

  /** A request fails exactly when the sector is not cached, every slot is in use and every stack is full. */
  lemma GetFailsExactly(cs: Cache, numit: nat, address: nat, mode: nat)
    requires Addressable(cs, address)
    ensures GetSector(cs, numit, address, mode).1 == -1 <==>
      forall i | 0 <= i < |cs.slots| ::
        cs.slots[i].valid && cs.slots[i].sector != address && cs.slots[i].usage != 0 && |cs.slots[i].stack| >= numit
  {
    UnusedIsBest(cs.slots, |cs.slots|);
    OverallocableIsLowest(cs.slots, numit, |cs.slots|);
  }
}
