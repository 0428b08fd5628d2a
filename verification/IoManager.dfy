/**
 The buffer manager in place: parallel arrays per buffer, as in ioman.c, each
 operation proved to do to them what the value-level operation does.
 */
module IoManagement {
  import opened Types
  import opened SectorCache
  import CacheRuns

  datatype Status = Status(valid: bool, writable: bool)

  /** A slot's sector, status and use count moved onto its stack, and back. */
  function Pushed(s: Slot): Slot {
    s.(stack := s.stack + [Saved(s.sector, s.valid, s.writable, s.usage)])
  }

  function Popped(s: Slot): Slot
    requires s.stack != []
  {
    var k := |s.stack| - 1;
    var top := s.stack[k];
    s.(sector := top.sector, valid := top.valid, writable := top.writable, usage := top.usage, stack := s.stack[..k])
  }

  lemma WithSlotTwice(cs: Cache, bp: nat, s: Slot, t: Slot)
    requires bp < |cs.slots|
    ensures WithSlot(WithSlot(cs, bp, s), bp, t) == WithSlot(cs, bp, t)
  {}

  /** One slot more in the search. */
  lemma OverallocableFrom(slots: seq<Slot>, numit: nat, n: nat)
    requires n <= |slots|
    ensures FindOverallocable(slots, numit, 0) == -1
    ensures n < |slots| ==>
      FindOverallocable(slots, numit, n + 1) ==
        var b := FindOverallocable(slots, numit, n);
        if |slots[n].stack| < numit && (b == -1 || Points(slots[n], numit) < Points(slots[b], numit)) then n else b
  {}

  lemma EightBitSum(x: nat, y: nat, z: nat)
    ensures x + y + z <= 254 ==> ((x + y) % 0x100 + z) % 0x100 == x + y + z
  {}

  class IoManager {
    const numbuf: nat
    const numit: nat
    const sector: array<nat>
    const status: array<Status>
    const usage: array<nat>
    const reference: array<nat>
    const itptr: array<nat>
    const stack: array2<Saved>
    const mem: array<Sector>
    const disc: array<Sector>

    /** The arrays are separate and of the sizes the counts ask for; stack rows are indexed from 1. */
    ghost predicate Layout() {
      && sector.Length == status.Length == usage.Length == reference.Length == itptr.Length == mem.Length == numbuf
      && stack.Length0 == numbuf && stack.Length1 == numit + 1
      && sector != usage && sector != reference && sector != itptr && usage != reference && usage != itptr && reference != itptr
      && mem != disc
      && 0 < disc.Length && numit <= 0xFF
    }

    ghost const Arrays: set<object> := {sector, status, usage, reference, itptr, stack, mem, disc}

    ghost predicate Valid()
      reads Arrays
    {
      && Layout()
      && (forall i | 0 <= i < numbuf :: itptr[i] <= numit && sector[i] < disc.Length && usage[i] <= 0xFF && reference[i] <= 0xFF)
      && (forall i, k | 0 <= i < numbuf && 0 < k <= itptr[i] ::
            stack[i, k].sector < disc.Length && stack[i, k].usage <= 0xFF)
    }

    ghost function StackUpTo(i: nat, n: nat): (r: seq<Saved>)
      requires i < stack.Length0 && n < stack.Length1
      reads stack
      ensures |r| == n && forall k | 0 <= k < n :: r[k] == stack[i, k + 1]
    {
      if n == 0 then [] else StackUpTo(i, n - 1) + [stack[i, n]]
    }

    ghost function SlotAt(i: nat): Slot
      requires Valid() && i < numbuf
      reads Arrays
    {
      Slot(sector[i], status[i].valid, status[i].writable, usage[i], reference[i], StackUpTo(i, itptr[i]), mem[i])
    }

    ghost function SlotsUpTo(n: nat): (r: seq<Slot>)
      requires Valid() && n <= numbuf
      reads Arrays
      ensures |r| == n && forall i | 0 <= i < n :: r[i] == SlotAt(i)
    {
      if n == 0 then [] else SlotsUpTo(n - 1) + [SlotAt(n - 1)]
    }

    ghost function Model(): (cs: Cache)
      requires Valid()
      reads Arrays
      ensures |cs.slots| == numbuf && cs.disc == disc[..]
      ensures forall i | 0 <= i < numbuf :: cs.slots[i] == SlotAt(i)
    {
      Cache(SlotsUpTo(numbuf), disc[..])
    }

    /** The reference counts start as whatever the memory held. */
    constructor (numbuf: nat, numit: nat, disc: array<Sector>, references: seq<byte>)
      requires numit <= 0xFF && disc.Length > 0 && |references| == numbuf
      ensures this.numbuf == numbuf && this.numit == numit && this.disc == disc
      ensures fresh(Arrays - {disc}) && Valid() && Model().disc == disc[..]
      ensures forall i | 0 <= i < numbuf ::
        var s := Model().slots[i];
        s.sector == 0 && !s.valid && !s.writable && s.usage == 0 && s.reference == references[i] && s.stack == []
    {
      this.numbuf, this.numit, this.disc := numbuf, numit, disc;
      sector := new nat[numbuf](_ => 0);
      status := new Status[numbuf](_ => Status(false, false));
      usage := new nat[numbuf](_ => 0);
      reference := new nat[numbuf](i requires 0 <= i < numbuf => references[i]);
      itptr := new nat[numbuf](_ => 0);
      stack := new Saved[numbuf, numit + 1]((_, _) => Saved(0, false, false, 0));
      mem := new Sector[numbuf];
    }

    /** Everything but slot bp is as it was. */
    twostate predicate OnlySlot(bp: nat, s: Slot)
      requires old(Valid()) && bp < numbuf
      reads Arrays
    {
      Valid() && Model() == WithSlot(old(Model()), bp, s)
    }

    method IncUseCnt(bp: nat)
      requires Valid() && bp < numbuf
      modifies usage
      ensures OnlySlot(bp, old(SlotAt(bp)).(usage := Inc(old(usage[bp]))))
    {
      if usage[bp] == 0xFF {
        return;
      }
      usage[bp] := usage[bp] + 1;
    }

    method DecUseCnt(bp: nat)
      requires Valid() && bp < numbuf
      modifies usage
      ensures OnlySlot(bp, old(SlotAt(bp)).(usage := Dec(old(usage[bp]))))
    {
      if usage[bp] == 0 {
        return;
      }
      usage[bp] := usage[bp] - 1;
    }

    method IncRefCnt(bp: nat)
      requires Valid() && bp < numbuf
      modifies reference
      ensures OnlySlot(bp, old(SlotAt(bp)).(reference := Inc(old(reference[bp]))))
    {
      if reference[bp] == 0xFF {
        return;
      }
      reference[bp] := reference[bp] + 1;
    }

    method SetWritable(bp: nat, val: bool)
      requires Valid() && bp < numbuf
      modifies status
      ensures OnlySlot(bp, old(SlotAt(bp)).(writable := val))
    {
      status[bp] := status[bp].(writable := val);
    }

    /** The stack is not touched. */
    method ResetCacheItem(bp: nat)
      requires Valid() && bp < numbuf
      modifies sector, status, usage, reference
      ensures OnlySlot(bp, old(SlotAt(bp)).(sector := 0, valid := false, writable := false, usage := 0, reference := 0))
    {
      sector[bp] := 0;
      status[bp] := Status(false, false);
      usage[bp] := 0;
      reference[bp] := 0;
    }

    method PutSectorInCache(address: nat, bp: nat)
      requires Valid() && bp < numbuf && address < disc.Length
      modifies sector, status, mem
      ensures OnlySlot(bp, old(SlotAt(bp)).(sector := address, valid := true, mem := old(disc[address])))
    {
      mem[bp] := disc[address];
      status[bp] := status[bp].(valid := true);
      sector[bp] := address;
    }

    /** The stack rows are filled from index 1. */
    method Push(bp: nat) returns (r: int)
      requires Valid() && bp < numbuf
      modifies itptr, stack
      ensures r == if old(itptr[bp]) < numit then 0 else -1
      ensures OnlySlot(bp, if r == 0 then Pushed(old(SlotAt(bp))) else old(SlotAt(bp)))
    {
      if itptr[bp] >= numit {
        return -1;
      }
      var top := itptr[bp] + 1;
      itptr[bp] := top;
      stack[bp, top] := Saved(sector[bp], status[bp].valid, status[bp].writable, usage[bp]);
      forall i | 0 <= i < numbuf ensures StackUpTo(i, if i == bp then top - 1 else itptr[i]) == old(StackUpTo(i, itptr[i])) {
        assert |StackUpTo(i, if i == bp then top - 1 else itptr[i])| == |old(StackUpTo(i, itptr[i]))|;
      }
      r := 0;
    }

    method Pop(bp: nat) returns (r: int)
      requires Valid() && bp < numbuf
      modifies sector, status, usage, itptr
      ensures r == if old(itptr[bp]) != 0 then 0 else -1
      ensures OnlySlot(bp, if r == 0 then Popped(old(SlotAt(bp))) else old(SlotAt(bp)))
    {
      if itptr[bp] == 0 {
        return -1;
      }
      var top := stack[bp, itptr[bp]];
      sector[bp] := top.sector;
      status[bp] := Status(top.valid, top.writable);
      usage[bp] := top.usage;
      itptr[bp] := itptr[bp] - 1;
      r := 0;
    }

    // ----- the device, which reports success as 0

    method WriteSector(address: nat, bp: nat) returns (r: int)
      requires Valid() && bp < numbuf && address < disc.Length
      modifies disc
      ensures Valid() && Model() == old(Model()).(disc := old(disc[..])[address := old(mem[bp])])
      ensures r == -1
    {
      disc[address] := mem[bp];
      var code := 0;
      if code <= 0 {
        return -1;
      }
      return 0;
    }

    /** The code of the write is read the other way round: success is what -1 comes back as. */
    method FlushSector(bp: nat) returns (r: int)
      requires Valid() && bp < numbuf
      modifies disc
      ensures Valid() && Model() == FlushIfWritable(old(Model()), bp)
      ensures r == if status[bp].writable then 0 else -1
    {
      if !status[bp].writable {
        return -1;
      }
      var code := WriteSector(sector[bp], bp);
      if code == 0 {
        return -1;
      }
      return 0;
    }

    // ----- searches

    method FindSectorInCache(address: nat) returns (r: int)
      requires Valid()
      ensures r == FindSector(Model().slots, address, 0)
    {
      var c := 0;
      while c < numbuf
        invariant c <= numbuf && FindSector(Model().slots, address, 0) == FindSector(Model().slots, address, c)
      {
        if status[c].valid && sector[c] == address {
          return c;
        }
        c := c + 1;
      }
      return -1;
    }

    method FindFreeSpot() returns (r: int)
      requires Valid()
      ensures r == FindFree(Model().slots, 0)
    {
      var c := 0;
      while c < numbuf
        invariant c <= numbuf && FindFree(Model().slots, 0) == FindFree(Model().slots, c)
      {
        if !status[c].valid {
          return c;
        }
        c := c + 1;
      }
      return -1;
    }

    method FindUnusedSpot() returns (r: int)
      requires Valid()
      ensures r == FindUnused(Model().slots, numbuf)
    {
      var fr, lr := false, 0xFF;
      r := -1;
      var c := 0;
      while c < numbuf
        invariant c <= numbuf && r == FindUnused(Model().slots, c)
        invariant fr <==> r != -1 && !status[r].writable
        invariant lr == if r == -1 then 0xFF else reference[r]
      {
        if usage[c] == 0 {
          if !status[c].writable && !fr {
            fr := true;
            lr := 0xFF;
            r := -1;
          }
          if status[c].writable && !fr {
            if reference[c] <= lr {
              r := c;
              lr := reference[c];
            }
          }
          if fr && !status[c].writable {
            if reference[c] <= lr {
              r := c;
              lr := reference[c];
            }
          }
        }
        c := c + 1;
      }
    }

    /** The score, summed up in 8 bits. */
    method Score(c: nat) returns (points: nat)
      requires Valid() && c < numbuf && itptr[c] < numit
      ensures points == Points(SlotAt(c), numit) <= 254
    {
      hide StackUpTo, StackPoints, ReferencePoints;
      PointsBelowLimit(SlotAt(c), numit);
      EightBitSum(if status[c].writable then 0x7F else 0, StackPoints(itptr[c], numit), ReferencePoints(reference[c]));
      points := 0;
      if status[c].writable {
        points := points + 0x7F;
      }
      points := (points + StackPoints(itptr[c], numit)) % 0x100;
      points := (points + ReferencePoints(reference[c])) % 0x100;
    }

    method FindOverallocableSpot() returns (r: int)
      requires Valid()
      ensures r == FindOverallocable(Model().slots, numit, numbuf)
    {
      hide Points, StackUpTo, SlotsUpTo, Model, FindOverallocable;
      ghost var slots := Model().slots;
      var lp := 0xFF;
      r := -1;
      var c := 0;
      OverallocableFrom(slots, numit, 0);
      while c < numbuf
        invariant c <= numbuf && r == FindOverallocable(slots, numit, c)
        invariant lp == if r == -1 then 0xFF else Points(slots[r], numit)
      {
        OverallocableFrom(slots, numit, c);
        if itptr[c] < numit {
          var points := Score(c);
          if points < lp {
            lp := points;
            r := c;
          }
        }
        c := c + 1;
      }
    }

    // ----- the operations

    /** A use is counted. */
    method CountUse(bp: nat, exp: bool)
      requires Valid() && bp < numbuf
      modifies usage, reference
      ensures OnlySlot(bp, var s := old(SlotAt(bp));
        s.(usage := Inc(s.usage), reference := if exp then s.reference else Inc(s.reference)))
    {
      hide Model, SlotsUpTo, StackUpTo;
      ghost var m := Model();
      IncUseCnt(bp);
      ghost var s := SlotAt(bp);
      if !exp {
        IncRefCnt(bp);
        WithSlotTwice(m, bp, s, SlotAt(bp));
      }
    }

    /** A slot is given the sector for a first use; its stack stays. */
    method Fill(bp: nat, address: nat, writable: bool, exp: bool)
      requires Valid() && bp < numbuf && address < disc.Length
      modifies sector, status, usage, reference, mem
      ensures OnlySlot(bp, Filled(old(Model()), address, writable, exp, old(SlotAt(bp)).stack))
    {
      hide Model, SlotsUpTo, StackUpTo;
      ghost var m := Model();
      ResetCacheItem(bp);
      ghost var s1 := SlotAt(bp);
      PutSectorInCache(address, bp);
      ghost var s2 := SlotAt(bp);
      WithSlotTwice(m, bp, s1, s2);
      if writable {
        SetWritable(bp, true);
        WithSlotTwice(m, bp, s2, SlotAt(bp));
      }
      ghost var s3 := SlotAt(bp);
      CountUse(bp, exp);
      WithSlotTwice(m, bp, s3, SlotAt(bp));
    }

    /** The sector is cached already. */
    method Hit(bp: nat, mode: nat)
      requires Valid() && bp < numbuf
      modifies status, usage, reference
      ensures OnlySlot(bp, var s := old(SlotAt(bp));
        s.(writable := s.writable || IsReqRw(mode), usage := Inc(s.usage),
           reference := if IsReqExp(mode) then s.reference else Inc(s.reference)))
    {
      hide Model, SlotsUpTo, StackUpTo;
      ghost var m := Model();
      if IsReqRw(mode) {
        SetWritable(bp, true);
      }
      ghost var s := SlotAt(bp);
      assert Model() == WithSlot(m, bp, s);
      CountUse(bp, IsReqExp(mode));
      WithSlotTwice(m, bp, s, SlotAt(bp));
    }

    /** A buffer in use is stored, pushed aside and filled anew. */
    method PushAside(bp: nat, address: nat, mode: nat)
      requires Valid() && bp < numbuf && address < disc.Length && itptr[bp] < numit
      modifies Arrays
      ensures Valid() && OnDisc(old(Model()), bp)
      ensures var cs1 := FlushIfWritable(old(Model()), bp);
        Model() == WithSlot(cs1, bp, Filled(cs1, address, IsReqRw(mode), IsReqExp(mode), Pushed(old(SlotAt(bp))).stack))
    {
      hide Model, SlotsUpTo, StackUpTo;
      if status[bp].writable {
        var _ := FlushSector(bp);
      }
      ghost var m := Model();
      var _ := Push(bp);
      ghost var s := SlotAt(bp);
      Fill(bp, address, IsReqRw(mode), IsReqExp(mode));
      WithSlotTwice(m, bp, s, SlotAt(bp));
    }

    /** The buffer's index, or -1 for the null pointer. */
    method GetSector(address: nat, mode: nat) returns (bp: int)
      requires Valid() && address < disc.Length
      modifies Arrays
      ensures Valid() && Addressable(old(Model()), address)
      ensures (Model(), bp) == SectorCache.GetSector(old(Model()), numit, address, mode)
    {
      hide Model, SlotsUpTo, StackUpTo, Filled, Inc, IsReqRw, IsReqExp, FindSector, FindFree, FindUnused, FindOverallocable;
      bp := FindSectorInCache(address);
      if bp != -1 {
        Hit(bp, mode);
        return;
      }
      bp := FindFreeSpot();
      if bp == -1 {
        bp := FindUnusedSpot();
        if bp != -1 && status[bp].writable {
          var _ := FlushSector(bp);
        }
      }
      if bp != -1 {
        Fill(bp, address, mode == READWRITE, IsReqExp(mode));
        return;
      }
      bp := FindOverallocableSpot();
      if bp != -1 {
        PushAside(bp, address, mode);
      }
    }

    /** A slot no longer used returns to the sector on top of its stack, read again from the disc. */
    method TakeBack(bp: nat)
      requires Valid() && bp < numbuf && itptr[bp] != 0
      modifies Arrays
      ensures Valid() && OnDisc(old(Model()), bp) && old(SlotAt(bp)).stack != []
      ensures Popped(old(SlotAt(bp))).sector < disc.Length
      ensures var cs1, top := FlushIfWritable(old(Model()), bp), Popped(old(SlotAt(bp)));
        Model() == WithSlot(cs1, bp, top.(valid := true, mem := cs1.disc[top.sector]))
    {
      hide Model, SlotsUpTo, StackUpTo;
      if status[bp].writable {
        var _ := FlushSector(bp);
      }
      ghost var m := Model();
      var _ := Pop(bp);
      ghost var s := SlotAt(bp);
      PutSectorInCache(sector[bp], bp);
      WithSlotTwice(m, bp, s, SlotAt(bp));
    }

    method ReleaseSector(bp: nat)
      requires Valid() && bp < numbuf
      modifies Arrays
      ensures Valid() && OnDisc(old(Model()), bp)
      ensures forall i | 0 <= i < |old(SlotAt(bp)).stack| :: old(SlotAt(bp)).stack[i].sector < disc.Length
      ensures Model() == SectorCache.ReleaseSector(old(Model()), bp)
    {
      hide Model, SlotsUpTo, StackUpTo;
      ghost var m := Model();
      DecUseCnt(bp);
      ghost var s := SlotAt(bp);
      if usage[bp] == 0 && itptr[bp] != 0 {
        TakeBack(bp);
        WithSlotTwice(FlushIfWritable(m, bp), bp, s, SlotAt(bp));
      }
    }

    method DirectSectorRead(address: nat) returns (data: Sector)
      requires Valid() && address < disc.Length
      modifies sector, status, mem
      ensures Valid() && (Model(), data) == SectorCache.DirectSectorRead(old(Model()), address)
    {
      hide Model, SlotsUpTo, StackUpTo;
      ghost var m := Model();
      var bp := FindSectorInCache(address);
      if bp != -1 {
        return mem[bp];
      }
      bp := FindFreeSpot();
      if bp != -1 {
        PutSectorInCache(address, bp);
        assert Model() == WithSlot(m, bp, m.slots[bp].(sector := address, valid := true, mem := m.disc[address]));
        assert mem[bp] == Model().slots[bp].mem;
        return mem[bp];
      }
      return disc[address];
    }

    method CopyIn(bp: nat, data: Sector)
      requires Valid() && bp < numbuf
      modifies mem
      ensures OnlySlot(bp, old(SlotAt(bp)).(mem := data))
    {
      mem[bp] := data;
    }

    /** The slot's contents count as the sector's, still to be stored. */
    method Adopt(bp: nat, address: nat)
      requires Valid() && bp < numbuf && address < disc.Length
      modifies sector, status
      ensures OnlySlot(bp, old(SlotAt(bp)).(sector := address, valid := true, writable := true))
    {
      sector[bp] := address;
      status[bp] := Status(true, true);
    }

    /** A cached sector is overwritten. */
    method Overwrite(bp: nat, data: Sector)
      requires Valid() && bp < numbuf
      modifies status, mem
      ensures OnlySlot(bp, old(SlotAt(bp)).(mem := data, writable := true))
    {
      hide Model, SlotsUpTo, StackUpTo;
      ghost var m := Model();
      CopyIn(bp, data);
      ghost var s := SlotAt(bp);
      SetWritable(bp, true);
      WithSlotTwice(m, bp, s, SlotAt(bp));
    }

    /** A free slot takes the data for a sector. */
    method TakeIn(bp: nat, address: nat, data: Sector)
      requires Valid() && bp < numbuf && address < disc.Length
      modifies sector, status, usage, reference, mem
      ensures OnlySlot(bp, Slot(address, true, true, 0, 0, old(SlotAt(bp)).stack, data))
    {
      hide Model, SlotsUpTo, StackUpTo;
      ghost var m := Model();
      CopyIn(bp, data);
      ghost var s1 := SlotAt(bp);
      ResetCacheItem(bp);
      ghost var s2 := SlotAt(bp);
      WithSlotTwice(m, bp, s1, s2);
      Adopt(bp, address);
      WithSlotTwice(m, bp, s2, SlotAt(bp));
    }

    /** Written through to the device, the code is -1 although the data has arrived. */
    method DirectSectorWrite(address: nat, data: Sector) returns (r: int)
      requires Valid() && address < disc.Length
      modifies Arrays
      ensures Valid() && Model() == SectorCache.DirectSectorWrite(old(Model()), address, data)
      ensures r == -1 <==> old(FindSector(Model().slots, address, 0) == -1 && FindFree(Model().slots, 0) == -1)
    {
      hide SlotsUpTo, StackUpTo, FindSector, FindFree;
      var bp := FindSectorInCache(address);
      if bp != -1 {
        Overwrite(bp, data);
        return 0;
      }
      bp := FindFreeSpot();
      if bp != -1 {
        TakeIn(bp, address, data);
        return 0;
      }
      disc[address] := data;
      return -1;
    }

    /** One round of a flush. */
    method FlushOne(c: nat, low: nat, high: nat)
      requires Valid() && c < numbuf
      modifies disc, status
      ensures Valid() && OnDisc(old(Model()), c) && Model() == FlushSlot(old(Model()), low, high, c)
    {
      hide Model, SlotsUpTo, StackUpTo;
      if low <= sector[c] <= high && status[c].writable {
        var _ := FlushSector(c);
        if usage[c] == 0 {
          SetWritable(c, false);
        }
      }
    }

    method FlushRange(addressLow: nat, addressHigh: nat)
      requires Valid()
      modifies disc, status
      ensures Valid() && forall i | 0 <= i < numbuf :: old(Model()).slots[i].sector < |old(Model()).disc|
      ensures Model() == SectorCache.FlushRange(old(Model()), Min(addressLow, addressHigh), Max(addressLow, addressHigh), numbuf)
      ensures old(CacheRuns.Inv(Model(), numit)) ==>
        && |old(Model()).disc| == disc.Length
        && forall a | 0 <= a < disc.Length ::
             disc[a] == if Min(addressLow, addressHigh) <= a <= Max(addressLow, addressHigh) then CacheRuns.Flat(old(Model()))[a] else old(disc[a])
    {
      hide Model, SlotsUpTo, StackUpTo, SlotAt, CacheRuns.Inv, CacheRuns.Flat;
      ghost var m := Model();
      var low, high := addressLow, addressHigh;
      if low > high {
        low, high := high, low;
      }
      SectorsOnDisc();
      var c := 0;
      while c < numbuf
        invariant Valid() && c <= numbuf
        invariant Model() == SectorCache.FlushRange(m, low, high, c)
      {
        FlushOne(c, low, high);
        c := c + 1;
      }
      if CacheRuns.Inv(m, numit) { CacheRuns.FlushStores(m, numit, low, high); }
    }

    lemma SectorsOnDisc()
      requires Valid()
      ensures forall i | 0 <= i < numbuf :: Model().slots[i].sector < |Model().disc|
    {}

    /** A flush of everything is a flush of the widest range. */
    method FlushAll()
      requires Valid()
      modifies disc, status
      ensures Valid() && forall i | 0 <= i < numbuf :: old(Model()).slots[i].sector < |old(Model()).disc|
      ensures Model() == SectorCache.FlushRange(old(Model()), 0, disc.Length, numbuf)
      ensures old(CacheRuns.Inv(Model(), numit)) ==> disc[..] == CacheRuns.Flat(old(Model()))
    {
      hide Model, SlotsUpTo, StackUpTo, SlotAt, CacheRuns.Inv, CacheRuns.Flat;
      ghost var m := Model();
      SectorsOnDisc();
      var c := 0;
      while c < numbuf
        invariant Valid() && c <= numbuf
        invariant Model() == SectorCache.FlushRange(m, 0, disc.Length, c)
      {
        FlushOne(c, 0, disc.Length);
        c := c + 1;
      }
      if CacheRuns.Inv(m, numit) { CacheRuns.FlushAllStoresFlat(m, numit); }
    }
  }
}
