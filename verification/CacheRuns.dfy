/**
 The buffer manager refines a flat array of sectors: every properly nested use
 of buffers, mixed with direct transfers and flushes, shows what the flat array
 would show under the same writes.
 */
module CacheRuns {
  import opened Types
  import opened SectorCache

  // ----- the invariant

  ghost predicate GoodSlot(cs: Cache, numit: nat, s: Slot) {
    && s.sector < |cs.disc| && s.usage <= 0xFF && s.reference <= 0xFF
    && |s.stack| <= numit
    && (s.usage == 0 ==> s.stack == [])
    && (s.usage > 0 || s.writable ==> s.valid)
    && (s.valid && !s.writable ==> s.mem == cs.disc[s.sector])
    && (forall k | 0 <= k < |s.stack| ::
          s.stack[k].valid && s.stack[k].sector < |cs.disc| && 0 < s.stack[k].usage <= 0xFF)
  }

  /** In particular: an unused slot has an empty stack, and cached sectors are distinct. */
  ghost predicate Inv(cs: Cache, numit: nat) {
    && (forall i | 0 <= i < |cs.slots| :: GoodSlot(cs, numit, cs.slots[i]))
    && (forall i, j | 0 <= i < j < |cs.slots| && cs.slots[i].valid && cs.slots[j].valid ::
          cs.slots[i].sector != cs.slots[j].sector)
  }

  // ----- the flat array shown

  function Content(cs: Cache, a: nat): Sector
    requires a < |cs.disc|
  {
    var i := FindSector(cs.slots, a, 0);
    if i == -1 then cs.disc[a] else cs.slots[i].mem
  }

  function Flat(cs: Cache): (flat: seq<Sector>)
    ensures |flat| == |cs.disc|
  {
    seq(|cs.disc|, (a: nat) requires a < |cs.disc| => Content(cs, a))
  }

  lemma ContentCached(cs: Cache, numit: nat, i: nat)
    requires Inv(cs, numit) && i < |cs.slots| && cs.slots[i].valid
    ensures FindSector(cs.slots, cs.slots[i].sector, 0) == i
    ensures Content(cs, cs.slots[i].sector) == cs.slots[i].mem
  {
    var j := FindSector(cs.slots, cs.slots[i].sector, 0);
    assert j != -1;
  }

  // ----- replacing one slot

  /**
   Slot bp is given a valid sector that no other slot holds. The disc may change
   where that sector lies, and where the sector lies that the slot gives up: it
   must then have been stored.
   */
  ghost predicate Replaced(cs: Cache, cs': Cache, bp: nat) {
    && bp < |cs.slots| == |cs'.slots| && |cs'.disc| == |cs.disc|
    && (forall i | 0 <= i < |cs.slots| && i != bp :: cs'.slots[i] == cs.slots[i])
    && var was, now := cs.slots[bp], cs'.slots[bp];
    && now.valid
    && (forall i | 0 <= i < |cs.slots| && i != bp && cs.slots[i].valid :: cs.slots[i].sector != now.sector)
    && (forall a | 0 <= a < |cs.disc| && a != now.sector && !(was.valid && a == was.sector) :: cs'.disc[a] == cs.disc[a])
    && (was.valid && was.sector != now.sector && was.sector < |cs.disc| ==> cs'.disc[was.sector] == was.mem)
  }

  lemma ReplacedInv(cs: Cache, cs': Cache, numit: nat, bp: nat)
    requires Inv(cs, numit) && Replaced(cs, cs', bp) && GoodSlot(cs', numit, cs'.slots[bp])
    ensures Inv(cs', numit)
  {
    forall i | 0 <= i < |cs'.slots| ensures GoodSlot(cs', numit, cs'.slots[i]) {
      if i != bp { assert GoodSlot(cs, numit, cs.slots[i]); }
    }
  }

  lemma ReplacedContent(cs: Cache, cs': Cache, numit: nat, bp: nat, a: nat)
    requires Inv(cs, numit) && Inv(cs', numit) && Replaced(cs, cs', bp) && a < |cs.disc|
    ensures Content(cs', a) == if a == cs'.slots[bp].sector then cs'.slots[bp].mem else Content(cs, a)
  {
    ContentCached(cs', numit, bp);
    if a != cs'.slots[bp].sector {
      var i, j := FindSector(cs.slots, a, 0), FindSector(cs'.slots, a, 0);
      assert i == -1 || i == bp || cs'.slots[i] == cs.slots[i];
      assert j == -1 || j == bp || cs'.slots[j] == cs.slots[j];
    }
  }

  lemma ReplacedFlat(cs: Cache, cs': Cache, numit: nat, bp: nat)
    requires Inv(cs, numit) && Replaced(cs, cs', bp) && GoodSlot(cs', numit, cs'.slots[bp])
    ensures Inv(cs', numit)
    ensures Flat(cs') == Flat(cs)[cs'.slots[bp].sector := cs'.slots[bp].mem]
  {
    ReplacedInv(cs, cs', numit, bp);
    forall a: nat | a < |cs.disc|
      ensures Flat(cs')[a] == Flat(cs)[cs'.slots[bp].sector := cs'.slots[bp].mem][a]
    {
      ReplacedContent(cs, cs', numit, bp, a);
    }
  }

  // ----- single operations

  lemma NotFound(cs: Cache, numit: nat, a: nat)
    requires Inv(cs, numit) && a < |cs.disc|
    ensures Addressable(cs, a)
    ensures FindSector(cs.slots, a, 0) == -1 ==> Flat(cs)[a] == cs.disc[a]
  {
    assert forall i | 0 <= i < |cs.slots| :: GoodSlot(cs, numit, cs.slots[i]);
  }

  /** A sector not cached is read into the slot, whose own sector has been stored; the slot is free, unused or pushed aside. */
  lemma MissFills(cs: Cache, numit: nat, a: nat, mode: nat)
    requires Inv(cs, numit) && Addressable(cs, a) && FindSector(cs.slots, a, 0) == -1
    ensures var (cs', bp) := GetSector(cs, numit, a, mode);
      bp != -1 ==>
        var s' := cs'.slots[bp];
        && OnDisc(cs, bp) && cs' == WithSlot(FlushIfWritable(cs, bp), bp, s')
        && s'.valid && s'.sector == a && s'.mem == FlushIfWritable(cs, bp).disc[a] && GoodSlot(cs', numit, s')
  {
    var bp := GetSector(cs, numit, a, mode).1;
    UnusedIsBest(cs.slots, |cs.slots|);
    assert bp == -1 || GoodSlot(cs, numit, cs.slots[bp]);
  }

  lemma FillShowsFlat(cs: Cache, numit: nat, a: nat, bp: nat, s': Slot)
    requires Inv(cs, numit) && a < |cs.disc| && FindSector(cs.slots, a, 0) == -1 && OnDisc(cs, bp)
    requires var cs' := WithSlot(FlushIfWritable(cs, bp), bp, s');
      s'.valid && s'.sector == a && s'.mem == FlushIfWritable(cs, bp).disc[a] && GoodSlot(cs', numit, s')
    ensures var cs' := WithSlot(FlushIfWritable(cs, bp), bp, s');
      Inv(cs', numit) && Flat(cs') == Flat(cs) && s'.mem == Flat(cs)[a]
  {
    var cs' := WithSlot(FlushIfWritable(cs, bp), bp, s');
    NotFound(cs, numit, a);
    assert GoodSlot(cs, numit, cs.slots[bp]);
    assert Replaced(cs, cs', bp);
    ReplacedFlat(cs, cs', numit, bp);
  }

  lemma HitShowsFlat(cs: Cache, numit: nat, a: nat, mode: nat)
    requires Inv(cs, numit) && Addressable(cs, a) && FindSector(cs.slots, a, 0) != -1
    ensures var (cs', bp) := GetSector(cs, numit, a, mode);
      && bp != -1 && Inv(cs', numit) && Flat(cs') == Flat(cs) && |cs'.disc| == |cs.disc|
      && cs'.slots[bp].valid && cs'.slots[bp].sector == a && cs'.slots[bp].mem == Flat(cs)[a]
  {
    hide FindUnused, FindOverallocable, FindFree;
    var (cs', bp) := GetSector(cs, numit, a, mode);
    assert GoodSlot(cs, numit, cs.slots[bp]);
    ContentCached(cs, numit, bp);
    assert GoodSlot(cs', numit, cs'.slots[bp]);
    assert Replaced(cs, cs', bp);
    ReplacedFlat(cs, cs', numit, bp);
  }

  /** Getting a buffer shows the flat array's sector and leaves the flat array alone. */
  lemma GetShowsFlat(cs: Cache, numit: nat, a: nat, mode: nat)
    requires Inv(cs, numit) && a < |cs.disc|
    ensures Addressable(cs, a)
    ensures var (cs', bp) := GetSector(cs, numit, a, mode);
      && Inv(cs', numit) && Flat(cs') == Flat(cs) && |cs'.disc| == |cs.disc|
      && (bp != -1 ==> cs'.slots[bp].valid && cs'.slots[bp].sector == a && cs'.slots[bp].mem == Flat(cs)[a])
  {
    hide Flat, Inv, GetSector, GoodSlot, FlushIfWritable;
    NotFound(cs, numit, a);
    if FindSector(cs.slots, a, 0) != -1 {
      HitShowsFlat(cs, numit, a, mode);
    } else {
      var (cs', bp) := GetSector(cs, numit, a, mode);
      MissFills(cs, numit, a, mode);
      NoBufferChangesNothing(cs, numit, a, mode);
      if bp != -1 { FillShowsFlat(cs, numit, a, bp, cs'.slots[bp]); }
    }
  }

  lemma NoBufferChangesNothing(cs: Cache, numit: nat, a: nat, mode: nat)
    requires Addressable(cs, a)
    ensures GetSector(cs, numit, a, mode).1 == -1 ==> GetSector(cs, numit, a, mode).0 == cs
  {}

  lemma DirectReadShowsFlat(cs: Cache, numit: nat, a: nat)
    requires Inv(cs, numit) && a < |cs.disc|
    ensures var (cs', data) := DirectSectorRead(cs, a);
      && Inv(cs', numit) && Flat(cs') == Flat(cs) && data == Flat(cs)[a] && Framed(cs, cs')
  {
    NotFound(cs, numit, a);
    var (cs', data) := DirectSectorRead(cs, a);
    var free := FindFree(cs.slots, 0);
    if FindSector(cs.slots, a, 0) == -1 && free != -1 {
      assert GoodSlot(cs, numit, cs.slots[free]);
      assert GoodSlot(cs', numit, cs'.slots[free]);
      assert Replaced(cs, cs', free);
      ReplacedFlat(cs, cs', numit, free);
    }
  }

  lemma DirectWriteWritesFlat(cs: Cache, numit: nat, a: nat, data: Sector)
    requires Inv(cs, numit) && a < |cs.disc|
    ensures var cs' := DirectSectorWrite(cs, a, data);
      Inv(cs', numit) && Flat(cs') == Flat(cs)[a := data] && Framed(cs, cs')
  {
    NotFound(cs, numit, a);
    var cs' := DirectSectorWrite(cs, a, data);
    var hit, free := FindSector(cs.slots, a, 0), FindFree(cs.slots, 0);
    if hit != -1 || free != -1 {
      var bp := if hit != -1 then hit else free;
      assert GoodSlot(cs, numit, cs.slots[bp]);
      assert GoodSlot(cs', numit, cs'.slots[bp]);
      assert Replaced(cs, cs', bp);
      ReplacedFlat(cs, cs', numit, bp);
    } else {
      forall i | 0 <= i < |cs'.slots| ensures GoodSlot(cs', numit, cs'.slots[i]) {
        assert GoodSlot(cs, numit, cs.slots[i]);
      }
      assert Flat(cs') == Flat(cs)[a := data];
    }
  }

  /** Storing through a buffer that is marked writable. */
  function EditBuffer(cs: Cache, bp: nat, data: Sector): (r: Cache)
    requires bp < |cs.slots|
    ensures |r.disc| == |cs.disc|
  {
    WithSlot(cs, bp, cs.slots[bp].(mem := data))
  }

  lemma EditWritesFlat(cs: Cache, numit: nat, bp: nat, data: Sector)
    requires Inv(cs, numit) && bp < |cs.slots| && cs.slots[bp].valid && cs.slots[bp].writable
    ensures var cs' := EditBuffer(cs, bp, data);
      && cs.slots[bp].sector < |cs.disc|
      && Inv(cs', numit) && Flat(cs') == Flat(cs)[cs.slots[bp].sector := data] && Framed(cs, cs')
  {
    var cs' := EditBuffer(cs, bp, data);
    assert GoodSlot(cs, numit, cs.slots[bp]);
    assert GoodSlot(cs', numit, cs'.slots[bp]);
    assert Replaced(cs, cs', bp);
    ReplacedFlat(cs, cs', numit, bp);
  }

  lemma InvOnDisc(cs: Cache, numit: nat)
    requires Inv(cs, numit)
    ensures forall i | 0 <= i < |cs.slots| :: cs.slots[i].sector < |cs.disc|
  {
    forall i | 0 <= i < |cs.slots| ensures cs.slots[i].sector < |cs.disc| {
      assert GoodSlot(cs, numit, cs.slots[i]);
    }
  }

  lemma FlushSlotKeepsFlat(cs: Cache, numit: nat, low: nat, high: nat, c: nat)
    requires Inv(cs, numit) && c < |cs.slots|
    ensures OnDisc(cs, c)
    ensures var cs' := FlushSlot(cs, low, high, c);
      Inv(cs', numit) && Flat(cs') == Flat(cs) && Framed(cs, cs')
  {
    var cs' := FlushSlot(cs, low, high, c);
    var s := cs.slots[c];
    assert GoodSlot(cs, numit, s);
    if low <= s.sector <= high && s.writable {
      assert GoodSlot(cs', numit, cs'.slots[c]);
      assert Replaced(cs, cs', c);
      ReplacedFlat(cs, cs', numit, c);
      ContentCached(cs, numit, c);
    }
  }

  /** A flush changes neither the flat array nor what any holder sees. */
  lemma {:induction false} FlushKeepsFlat(cs: Cache, numit: nat, low: nat, high: nat, n: nat)
    requires Inv(cs, numit) && n <= |cs.slots|
    ensures forall i | 0 <= i < |cs.slots| :: cs.slots[i].sector < |cs.disc|
    ensures var cs' := FlushRange(cs, low, high, n);
      Inv(cs', numit) && Flat(cs') == Flat(cs) && Framed(cs, cs')
  {
    hide Inv, Flat, FlushSlot, Framed;
    InvOnDisc(cs, numit);
    FramedSelf(cs);
    if n > 0 {
      FlushKeepsFlat(cs, numit, low, high, n - 1);
      var cs1 := FlushRange(cs, low, high, n - 1);
      FlushSlotKeepsFlat(cs1, numit, low, high, n - 1);
      FramedTransitive(cs, cs1, FlushSlot(cs1, low, high, n - 1));
    }
  }

  /** What the first n rounds of a flush make of slot i. */
  lemma {:induction false} SlotFlushed(cs: Cache, low: nat, high: nat, n: nat, i: nat)
    requires n <= |cs.slots| && i < |cs.slots| && forall j | 0 <= j < |cs.slots| :: cs.slots[j].sector < |cs.disc|
    ensures var s := cs.slots[i];
      FlushRange(cs, low, high, n).slots[i] ==
        if i < n && low <= s.sector <= high && s.writable then s.(writable := s.usage != 0) else s
  {
    if n > 0 { SlotFlushed(cs, low, high, n - 1, i); }
  }

  /** What the first n rounds of a flush make of sector a. */
  lemma {:induction false} SectorFlushed(cs: Cache, numit: nat, low: nat, high: nat, n: nat, a: nat)
    requires Inv(cs, numit) && n <= |cs.slots| && a < |cs.disc|
    ensures forall i | 0 <= i < |cs.slots| :: cs.slots[i].sector < |cs.disc|
    ensures var i := FindSector(cs.slots, a, 0);
      FlushRange(cs, low, high, n).disc[a] == if low <= a <= high && 0 <= i < n then cs.slots[i].mem else cs.disc[a]
  {
    hide Inv, FindSector, FlushSlot;
    InvOnDisc(cs, numit);
    if n > 0 {
      SectorFlushed(cs, numit, low, high, n - 1, a);
      SlotFlushed(cs, low, high, n - 1, n - 1);
      HeldSector(cs, numit, n - 1, a);
      RoundFlushes(FlushRange(cs, low, high, n - 1), low, high, n - 1, a);
    }
  }

  /** One round of a flush on the disc. */
  lemma RoundFlushes(cs: Cache, low: nat, high: nat, c: nat, a: nat)
    requires OnDisc(cs, c) && a < |cs.disc|
    ensures var s := cs.slots[c];
      FlushSlot(cs, low, high, c).disc[a] == if low <= a <= high && s.writable && s.sector == a then s.mem else cs.disc[a]
  {}

  /** Slot c is the one that holds sector a, or it is clean or holds another. */
  lemma HeldSector(cs: Cache, numit: nat, c: nat, a: nat)
    requires Inv(cs, numit) && c < |cs.slots| && a < |cs.disc|
    ensures var s, i := cs.slots[c], FindSector(cs.slots, a, 0);
      && (s.writable && s.sector == a ==> i == c)
      && (i == c ==> s.sector == a && (s.writable || s.mem == cs.disc[a]))
  {
    assert GoodSlot(cs, numit, cs.slots[c]);
    if cs.slots[c].valid { ContentCached(cs, numit, c); }
  }

  /**
   After a flush of a range every sector of it is on the disc as the flat array
   shows it, every idle slot of it is clean, and the rest of the disc is as it was.
   */
  lemma FlushStores(cs: Cache, numit: nat, low: nat, high: nat)
    requires Inv(cs, numit)
    ensures forall i | 0 <= i < |cs.slots| :: cs.slots[i].sector < |cs.disc|
    ensures var cs' := FlushRange(cs, low, high, |cs.slots|);
      && (forall a | 0 <= a < |cs.disc| :: cs'.disc[a] == if low <= a <= high then Flat(cs)[a] else cs.disc[a])
      && (forall i | 0 <= i < |cs.slots| && low <= cs.slots[i].sector <= high && cs.slots[i].usage == 0 :: !cs'.slots[i].writable)
  {
    hide Inv, FlushRange;
    InvOnDisc(cs, numit);
    var n := |cs.slots|;
    forall a: nat | a < |cs.disc|
      ensures FlushRange(cs, low, high, n).disc[a] == if low <= a <= high then Flat(cs)[a] else cs.disc[a]
    {
      SectorFlushed(cs, numit, low, high, n, a);
    }
    forall i: nat | i < n && low <= cs.slots[i].sector <= high && cs.slots[i].usage == 0
      ensures !FlushRange(cs, low, high, n).slots[i].writable
    {
      SlotFlushed(cs, low, high, n, i);
    }
  }

  /** A flush of everything leaves the flat array itself on the disc. */
  lemma FlushAllStoresFlat(cs: Cache, numit: nat)
    requires Inv(cs, numit)
    ensures forall i | 0 <= i < |cs.slots| :: cs.slots[i].sector < |cs.disc|
    ensures FlushRange(cs, 0, |cs.disc|, |cs.slots|).disc == Flat(cs)
  {
    hide Inv, Flat, FlushRange;
    FlushStores(cs, numit, 0, |cs.disc|);
  }

  // ----- nested use

  lemma FramedSelf(cs: Cache)
    ensures Framed(cs, cs)
  {}

  /** What enclosing holders rely on: their slots still hold the same sectors, use counts and stacks. */
  ghost predicate Framed(cs: Cache, cs': Cache) {
    && |cs'.slots| == |cs.slots| && |cs'.disc| == |cs.disc|
    && forall i | 0 <= i < |cs.slots| :: SameForHolders(cs.slots[i], cs'.slots[i])
  }

  ghost predicate SameForHolders(s: Slot, s': Slot) {
    && s'.usage == s.usage
    && (s.usage > 0 ==> s'.sector == s.sector && s'.valid == s.valid && s'.stack == s.stack && (s.writable ==> s'.writable))
  }

  lemma FramedTransitive(cs: Cache, cs1: Cache, cs2: Cache)
    requires Framed(cs, cs1) && Framed(cs1, cs2)
    ensures Framed(cs, cs2)
  {
    forall i | 0 <= i < |cs.slots| ensures SameForHolders(cs.slots[i], cs2.slots[i]) {
      assert SameForHolders(cs.slots[i], cs1.slots[i]) && SameForHolders(cs1.slots[i], cs2.slots[i]);
    }
  }

  /** A buffer released after a body that kept its frame leaves the frame of the enclosing holders. */
  ghost predicate Restored(cs: Cache, cs2: Cache, numit: nat, bp: nat) {
    && bp < |cs2.slots|
    && OnDisc(cs2, bp) && (forall i | 0 <= i < |cs2.slots[bp].stack| :: cs2.slots[bp].stack[i].sector < |cs2.disc|)
    && var cs3 := ReleaseSector(cs2, bp);
       Inv(cs3, numit) && Flat(cs3) == Flat(cs2) && Framed(cs, cs3)
  }

  /** The slot was shared with its users, or idle: it is not pushed aside by the request. */
  lemma UseOfOwnSlot(cs: Cache, cs1: Cache, cs2: Cache, numit: nat, bp: nat)
    requires Inv(cs, numit) && Inv(cs2, numit) && bp < |cs.slots| == |cs1.slots| && |cs1.disc| == |cs.disc|
    requires forall i | 0 <= i < |cs.slots| && i != bp :: cs1.slots[i] == cs.slots[i]
    requires var s, s1 := cs.slots[bp], cs1.slots[bp];
      && s1.usage == s.usage + 1 && s1.stack == s.stack && s1.valid
      && (s.usage > 0 ==> s1.sector == s.sector && (s.writable ==> s1.writable))
    requires Framed(cs1, cs2)
    ensures Restored(cs, cs2, numit, bp)
  {
    var s, s2 := cs.slots[bp], cs2.slots[bp];
    assert GoodSlot(cs, numit, s) && GoodSlot(cs2, numit, s2);
    assert SameForHolders(cs1.slots[bp], s2);
    var cs3 := ReleaseSector(cs2, bp);
    assert cs3 == WithSlot(cs2, bp, s2.(usage := s.usage));
    assert GoodSlot(cs3, numit, cs3.slots[bp]);
    assert Replaced(cs2, cs3, bp);
    ReplacedFlat(cs2, cs3, numit, bp);
    ContentCached(cs2, numit, bp);
    forall i | 0 <= i < |cs.slots| ensures SameForHolders(cs.slots[i], cs3.slots[i]) {
      assert SameForHolders(cs1.slots[i], cs2.slots[i]);
    }
  }

  /** The slot was taken from its users: every slot was in use, so none can have picked up its sector meanwhile. */
  lemma UseOfTakenSlot(cs: Cache, cs1: Cache, cs2: Cache, numit: nat, bp: nat, a: nat)
    requires Inv(cs, numit) && Inv(cs2, numit) && bp < |cs.slots| == |cs1.slots| && |cs1.disc| == |cs.disc|
    requires forall i | 0 <= i < |cs.slots| :: cs.slots[i].valid && cs.slots[i].usage > 0 && cs.slots[i].sector != a
    requires forall i | 0 <= i < |cs.slots| && i != bp :: cs1.slots[i] == cs.slots[i]
    requires var s, s1 := cs.slots[bp], cs1.slots[bp];
      && s1.usage == 1 && s1.valid && s1.sector == a
      && s1.stack == s.stack + [Saved(s.sector, s.valid, s.writable, s.usage)]
    requires Framed(cs1, cs2)
    ensures Restored(cs, cs2, numit, bp)
  {
    var s, s2 := cs.slots[bp], cs2.slots[bp];
    assert GoodSlot(cs, numit, s) && GoodSlot(cs2, numit, s2);
    assert SameForHolders(cs1.slots[bp], s2);
    var cs3 := ReleaseSector(cs2, bp);
    var disc := FlushIfWritable(cs2, bp).disc;
    assert s2.stack[..|s2.stack| - 1] == s.stack;
    assert cs3.slots[bp] == Slot(s.sector, true, s.writable, s.usage, s2.reference, s.stack, disc[s.sector]);
    assert GoodSlot(cs3, numit, cs3.slots[bp]);
    forall i | 0 <= i < |cs.slots| && i != bp ensures cs2.slots[i].sector != s.sector {
      assert SameForHolders(cs1.slots[i], cs2.slots[i]);
    }
    assert Replaced(cs2, cs3, bp);
    ReplacedFlat(cs2, cs3, numit, bp);
    assert FindSector(cs2.slots, s.sector, 0) == -1;
    forall i | 0 <= i < |cs.slots| ensures SameForHolders(cs.slots[i], cs3.slots[i]) {
      assert SameForHolders(cs1.slots[i], cs2.slots[i]);
    }
  }

  /** Balanced use restores the outer holders, as long as the use count of the sector, if it is cached, has room for one more. */
  lemma UseRestores(cs: Cache, cs2: Cache, numit: nat, a: nat, mode: nat)
    requires Inv(cs, numit) && a < |cs.disc| && Addressable(cs, a)
    requires FindSector(cs.slots, a, 0) != -1 ==> cs.slots[FindSector(cs.slots, a, 0)].usage < 0xFF
    requires var (cs1, bp) := GetSector(cs, numit, a, mode);
      bp != -1 && Inv(cs1, numit) && Inv(cs2, numit) && Framed(cs1, cs2)
    ensures Restored(cs, cs2, numit, GetSector(cs, numit, a, mode).1)
  {
    var (cs1, bp) := GetSector(cs, numit, a, mode);
    assert GoodSlot(cs, numit, cs.slots[bp]);
    UnusedIsBest(cs.slots, |cs.slots|);
    if FindSector(cs.slots, a, 0) == -1 && FindFree(cs.slots, 0) == -1 && FindUnused(cs.slots, |cs.slots|) == -1 {
      UseOfTakenSlot(cs, cs1, cs2, numit, bp, a);
    } else {
      UseOfOwnSlot(cs, cs1, cs2, numit, bp);
    }
  }

  // ----- properly nested programs

  datatype Act =
    | Use(address: nat, mode: nat, body: seq<Act>)  // getSector ... body ... releaseSector
    | Look(depth: nat)                              // read the buffer of an enclosing holder
    | Edit(depth: nat, data: Sector)                // overwrite the buffer of an enclosing holder
    | DirectRead(address: nat)
    | DirectWrite(address: nat, data: Sector)
    | FlushSectors(low: nat, high: nat)

  /** An enclosing use: the slot it was given and the sector it asked for. */
  datatype Holder = Holder(slot: nat, address: nat)

  /** How a run ends. A run is misused when it reads or writes a buffer that does not show
      the holder's sector at the time, writes one that is not marked writable, or leaves the disc. */
  datatype Outcome =
    | Done(cs: Cache, shown: seq<Sector>)
    | NoBuffer
    | Misused

  predicate Visible(cs: Cache, h: Holder) {
    h.slot < |cs.slots| && cs.slots[h.slot].valid && cs.slots[h.slot].sector == h.address
  }

  /** The run of one action on the buffer manager. */
  ghost function ExecAct(cs: Cache, numit: nat, env: seq<Holder>, act: Act): Outcome
    decreases act
  {
    match act
    case Use(a, mode, body) =>
      if !Addressable(cs, a) then Misused else
        var (cs1, bp) := GetSector(cs, numit, a, mode);
        if bp == -1 then NoBuffer else
          (match Exec(cs1, numit, [Holder(bp, a)] + env, body)
           case Done(cs2, shown) =>
             if OnDisc(cs2, bp) && (forall i | 0 <= i < |cs2.slots[bp].stack| :: cs2.slots[bp].stack[i].sector < |cs2.disc|)
             then Done(ReleaseSector(cs2, bp), shown) else Misused
           case other => other)
    case Look(k) =>
      if k < |env| && Visible(cs, env[k]) then Done(cs, [cs.slots[env[k].slot].mem]) else Misused
    case Edit(k, data) =>
      if k < |env| && Visible(cs, env[k]) && cs.slots[env[k].slot].writable
      then Done(EditBuffer(cs, env[k].slot, data), []) else Misused
    case DirectRead(a) =>
      if a < |cs.disc| then var (cs', data) := DirectSectorRead(cs, a); Done(cs', [data]) else Misused
    case DirectWrite(a, data) =>
      if a < |cs.disc| then Done(DirectSectorWrite(cs, a, data), []) else Misused
    case FlushSectors(low, high) =>
      if forall i | 0 <= i < |cs.slots| :: cs.slots[i].sector < |cs.disc|
      then Done(FlushRange(cs, Min(low, high), Max(low, high), |cs.slots|), []) else Misused
  }

  ghost function Exec(cs: Cache, numit: nat, env: seq<Holder>, acts: seq<Act>): Outcome
    decreases acts
  {
    if acts == [] then Done(cs, []) else
      match ExecAct(cs, numit, env, acts[0])
      case Done(cs1, shown1) =>
        (match Exec(cs1, numit, env, acts[1..])
         case Done(cs2, shown2) => Done(cs2, shown1 + shown2)
         case other => other)
      case other => other
  }

  /** The same program on a flat array; `env` lists the sectors of the enclosing uses. */
  ghost function FlatAct(flat: seq<Sector>, env: seq<nat>, act: Act): (seq<Sector>, seq<Sector>)
    decreases act
  {
    match act
    case Use(a, mode, body) => FlatExec(flat, [a] + env, body)
    case Look(k) => (flat, if k < |env| && env[k] < |flat| then [flat[env[k]]] else [])
    case Edit(k, data) => (if k < |env| && env[k] < |flat| then flat[env[k] := data] else flat, [])
    case DirectRead(a) => (flat, if a < |flat| then [flat[a]] else [])
    case DirectWrite(a, data) => (if a < |flat| then flat[a := data] else flat, [])
    case FlushSectors(_, _) => (flat, [])
  }

  ghost function FlatExec(flat: seq<Sector>, env: seq<nat>, acts: seq<Act>): (seq<Sector>, seq<Sector>)
    decreases acts
  {
    if acts == [] then (flat, []) else
      var (flat1, shown1) := FlatAct(flat, env, acts[0]);
      var (flat2, shown2) := FlatExec(flat1, env, acts[1..]);
      (flat2, shown1 + shown2)
  }

  /** The deepest nesting of uses in a program. */
  ghost function ActDepth(act: Act): nat
    decreases act
  {
    match act
    case Use(_, _, body) => 1 + Depth(body)
    case _ => 0
  }

  ghost function Depth(acts: seq<Act>): nat
    decreases acts
  {
    if acts == [] then 0 else
      var d, r := ActDepth(acts[0]), Depth(acts[1..]);
      if d <= r then r else d
  }

  function Addresses(env: seq<Holder>): seq<nat> {
    seq(|env|, (i: nat) requires i < |env| => env[i].address)
  }

  /** No use count can saturate within `depth` further nested uses. */
  ghost predicate Room(cs: Cache, depth: nat) {
    forall i | 0 <= i < |cs.slots| :: cs.slots[i].usage + depth <= 0xFF
  }

  ghost predicate Refines(cs: Cache, numit: nat, o: Outcome, result: (seq<Sector>, seq<Sector>)) {
    o.Done? ==> Inv(o.cs, numit) && Framed(cs, o.cs) && Flat(o.cs) == result.0 && o.shown == result.1
  }

  lemma FramedRoom(cs: Cache, cs': Cache, depth: nat)
    requires Framed(cs, cs') && Room(cs, depth)
    ensures Room(cs', depth)
  {
    assert forall i | 0 <= i < |cs.slots| :: SameForHolders(cs.slots[i], cs'.slots[i]);
  }

  lemma GetRoom(cs: Cache, numit: nat, a: nat, mode: nat, depth: nat)
    requires Inv(cs, numit) && Addressable(cs, a) && Room(cs, depth + 1)
    ensures Room(GetSector(cs, numit, a, mode).0, depth)
    ensures |GetSector(cs, numit, a, mode).0.slots| == |cs.slots|
  {
    UnusedIsBest(cs.slots, |cs.slots|);
    var bp := GetSector(cs, numit, a, mode).1;
    assert bp == -1 || GoodSlot(cs, numit, cs.slots[bp]);
  }

  lemma {:induction false} ActRefinesFlat(cs: Cache, numit: nat, env: seq<Holder>, act: Act)
    requires Inv(cs, numit) && Room(cs, ActDepth(act))
    ensures Refines(cs, numit, ExecAct(cs, numit, env, act), FlatAct(Flat(cs), Addresses(env), act))
    decreases act
  {
    hide GetSector, ReleaseSector, DirectSectorRead, DirectSectorWrite, FlushRange, EditBuffer;
    match act
    case Use(a, mode, body) =>
      if Addressable(cs, a) {
        var (cs1, bp) := GetSector(cs, numit, a, mode);
        GetShowsFlat(cs, numit, a, mode);
        GetRoom(cs, numit, a, mode, Depth(body));
        if bp != -1 {
          var env1 := [Holder(bp, a)] + env;
          RunRefinesFlat(cs1, numit, env1, body);
          assert Addresses(env1) == [a] + Addresses(env);
          var o := Exec(cs1, numit, env1, body);
          if o.Done? {
            UseRestores(cs, o.cs, numit, a, mode);
          }
        }
      }
    case Look(k) =>
      if k < |env| && Visible(cs, env[k]) {
        assert GoodSlot(cs, numit, cs.slots[env[k].slot]);
        ContentCached(cs, numit, env[k].slot);
      }
    case Edit(k, data) =>
      if k < |env| && Visible(cs, env[k]) && cs.slots[env[k].slot].writable {
        EditWritesFlat(cs, numit, env[k].slot, data);
      }
    case DirectRead(a) => if a < |cs.disc| { DirectReadShowsFlat(cs, numit, a); }
    case DirectWrite(a, data) => if a < |cs.disc| { DirectWriteWritesFlat(cs, numit, a, data); }
    case FlushSectors(low, high) => FlushKeepsFlat(cs, numit, Min(low, high), Max(low, high), |cs.slots|);
  }

  /**
   Every properly nested run shows, at each look and each direct read, what the
   flat array shows, and leaves the flat array's final contents; enclosing
   holders find their slots as they left them.
   */
  lemma {:induction false} RunRefinesFlat(cs: Cache, numit: nat, env: seq<Holder>, acts: seq<Act>)
    requires Inv(cs, numit) && Room(cs, Depth(acts))
    ensures Refines(cs, numit, Exec(cs, numit, env, acts), FlatExec(Flat(cs), Addresses(env), acts))
    decreases acts
  {
    if acts != [] {
      ActRefinesFlat(cs, numit, env, acts[0]);
      var o := ExecAct(cs, numit, env, acts[0]);
      if o.Done? {
        FramedRoom(cs, o.cs, Depth(acts[1..]));
        RunRefinesFlat(o.cs, numit, env, acts[1..]);
        var o2 := Exec(o.cs, numit, env, acts[1..]);
        if o2.Done? { FramedTransitive(cs, o.cs, o2.cs); }
      }
    }
  }

  // ----- how deep a program may nest

  /** Users of a slot, those of the sectors pushed aside included. */
  function StackUsers(stack: seq<Saved>): nat {
    if stack == [] then 0 else StackUsers(stack[..|stack| - 1]) + stack[|stack| - 1].usage
  }

  function Users(s: Slot): nat { s.usage + StackUsers(s.stack) }

  function TotalUsers(slots: seq<Slot>, n: nat): nat
    requires n <= |slots|
  {
    if n == 0 then 0 else TotalUsers(slots, n - 1) + Users(slots[n - 1])
  }

  lemma {:induction false} FullStackUsers(stack: seq<Saved>)
    requires forall k | 0 <= k < |stack| :: stack[k].usage > 0
    ensures StackUsers(stack) >= |stack|
  {
    if stack != [] { FullStackUsers(stack[..|stack| - 1]); }
  }

  lemma {:induction false} FullSlotsUsers(slots: seq<Slot>, numit: nat, n: nat)
    requires n <= |slots| && forall i | 0 <= i < n :: Users(slots[i]) >= numit + 1
    ensures TotalUsers(slots, n) >= n * (numit + 1)
  {
    if n > 0 {
      FullSlotsUsers(slots, numit, n - 1);
      assert n * (numit + 1) == (n - 1) * (numit + 1) + (numit + 1);
    }
  }

  /** Without a buffer to be had, there are as many users as slots and stacks can carry. */
  lemma NoBufferMeansFull(cs: Cache, numit: nat, a: nat, mode: nat)
    requires Inv(cs, numit) && Addressable(cs, a) && GetSector(cs, numit, a, mode).1 == -1
    ensures TotalUsers(cs.slots, |cs.slots|) >= |cs.slots| * (numit + 1)
  {
    GetFailsExactly(cs, numit, a, mode);
    forall i | 0 <= i < |cs.slots| ensures Users(cs.slots[i]) >= numit + 1 {
      assert GoodSlot(cs, numit, cs.slots[i]);
      FullStackUsers(cs.slots[i].stack);
    }
    FullSlotsUsers(cs.slots, numit, |cs.slots|);
  }

  lemma {:induction false} UsersFrame(slots: seq<Slot>, slots': seq<Slot>, n: nat, bp: nat)
    requires n <= |slots| == |slots'|
    requires forall i | 0 <= i < n && i != bp :: Users(slots'[i]) == Users(slots[i])
    requires bp < n ==> Users(slots'[bp]) == Users(slots[bp]) + 1
    ensures TotalUsers(slots', n) == TotalUsers(slots, n) + if bp < n then 1 else 0
  {
    if n > 0 { UsersFrame(slots, slots', n - 1, bp); }
  }

  lemma FramedUsers(cs: Cache, cs': Cache, numit: nat)
    requires Inv(cs, numit) && Inv(cs', numit) && Framed(cs, cs')
    ensures TotalUsers(cs'.slots, |cs'.slots|) == TotalUsers(cs.slots, |cs.slots|)
  {
    forall i | 0 <= i < |cs.slots| ensures Users(cs'.slots[i]) == Users(cs.slots[i]) {
      assert SameForHolders(cs.slots[i], cs'.slots[i]);
      assert GoodSlot(cs, numit, cs.slots[i]) && GoodSlot(cs', numit, cs'.slots[i]);
    }
    UsersFrame(cs.slots, cs'.slots, |cs.slots|, |cs.slots|);
  }

  lemma GetAddsUser(cs: Cache, numit: nat, a: nat, mode: nat)
    requires Inv(cs, numit) && Addressable(cs, a) && Room(cs, 1) && GetSector(cs, numit, a, mode).1 != -1
    ensures var cs1 := GetSector(cs, numit, a, mode).0;
      |cs1.slots| == |cs.slots| && TotalUsers(cs1.slots, |cs1.slots|) == TotalUsers(cs.slots, |cs.slots|) + 1
  {
    hide TotalUsers, Users, GetSector, Inv;
    OneSlotGainsUser(cs, numit, a, mode);
    UsersFrame(cs.slots, GetSector(cs, numit, a, mode).0.slots, |cs.slots|, GetSector(cs, numit, a, mode).1);
  }

  lemma OneSlotGainsUser(cs: Cache, numit: nat, a: nat, mode: nat)
    requires Inv(cs, numit) && Addressable(cs, a) && Room(cs, 1) && GetSector(cs, numit, a, mode).1 != -1
    ensures var (cs1, bp) := GetSector(cs, numit, a, mode);
      && |cs1.slots| == |cs.slots| && Users(cs1.slots[bp]) == Users(cs.slots[bp]) + 1
      && forall i | 0 <= i < |cs.slots| && i != bp :: cs1.slots[i] == cs.slots[i]
  {
    var (cs1, bp) := GetSector(cs, numit, a, mode);
    var s, s1 := cs.slots[bp], cs1.slots[bp];
    assert GoodSlot(cs, numit, s);
    UnusedIsBest(cs.slots, |cs.slots|);
    if s1.stack != s.stack {
      assert s1.stack[..|s1.stack| - 1] == s.stack;
    }
  }

  /**
   A program that nests no deeper than numbuf * (numit + 1) uses, the users
   already there included, always finds its buffers.
   */
  lemma {:induction false} NestingWithinCapacity(cs: Cache, numit: nat, env: seq<Holder>, acts: seq<Act>)
    requires Inv(cs, numit) && Room(cs, Depth(acts))
    requires TotalUsers(cs.slots, |cs.slots|) + Depth(acts) <= |cs.slots| * (numit + 1)
    ensures !Exec(cs, numit, env, acts).NoBuffer?
    decreases acts
  {
    if acts != [] {
      ActWithinCapacity(cs, numit, env, acts[0]);
      ActRefinesFlat(cs, numit, env, acts[0]);
      var o := ExecAct(cs, numit, env, acts[0]);
      if o.Done? {
        FramedRoom(cs, o.cs, Depth(acts[1..]));
        FramedUsers(cs, o.cs, numit);
        NestingWithinCapacity(o.cs, numit, env, acts[1..]);
      }
    }
  }

  lemma {:induction false} ActWithinCapacity(cs: Cache, numit: nat, env: seq<Holder>, act: Act)
    requires Inv(cs, numit) && Room(cs, ActDepth(act))
    requires TotalUsers(cs.slots, |cs.slots|) + ActDepth(act) <= |cs.slots| * (numit + 1)
    ensures !ExecAct(cs, numit, env, act).NoBuffer?
    decreases act
  {
    if act.Use? && Addressable(cs, act.address) {
      var Use(a, mode, body) := act;
      var (cs1, bp) := GetSector(cs, numit, a, mode);
      GetShowsFlat(cs, numit, a, mode);
      GetRoom(cs, numit, a, mode, Depth(body));
      if bp == -1 {
        NoBufferMeansFull(cs, numit, a, mode);
      } else {
        GetAddsUser(cs, numit, a, mode);
        NestingWithinCapacity(cs1, numit, [Holder(bp, a)] + env, body);
      }
    }
  }

  // ----- where the promises end

  /** The mode a request must have for its buffer to be marked writable when it asks for that. */
  lemma WritableExactly(cs: Cache, numit: nat, a: nat, mode: nat)
    requires Inv(cs, numit) && Addressable(cs, a) && IsReqRw(mode) && GetSector(cs, numit, a, mode).1 != -1
    ensures var (cs', bp) := GetSector(cs, numit, a, mode);
      cs'.slots[bp].writable <==>
        mode == READWRITE || FindSector(cs.slots, a, 0) != -1 || forall i | 0 <= i < |cs.slots| :: cs.slots[i].usage != 0
  {
    UnusedIsBest(cs.slots, |cs.slots|);
    var free := FindFree(cs.slots, 0);
    assert free != -1 ==> GoodSlot(cs, numit, cs.slots[free]);
  }

  /** A further use of a cached sector leaves its slot as it was, once released, unless the use count is saturated. */
  lemma UseCountRestoredExactly(cs: Cache, numit: nat, a: nat, mode: nat)
    requires Inv(cs, numit) && Addressable(cs, a) && FindSector(cs.slots, a, 0) != -1
    ensures var (cs1, bp) := GetSector(cs, numit, a, mode);
      && bp != -1 && OnDisc(cs1, bp)
      && (forall i | 0 <= i < |cs1.slots[bp].stack| :: cs1.slots[bp].stack[i].sector < |cs1.disc|)
      && (SameForHolders(cs.slots[bp], ReleaseSector(cs1, bp).slots[bp]) <==> cs.slots[bp].usage < 0xFF)
  {
    assert GoodSlot(cs, numit, cs.slots[FindSector(cs.slots, a, 0)]);
  }

  /** A sector with 255 users is left with 254 by one more use of it. */
  lemma SaturatedUseIsLost(mem: Sector)
    ensures var cs := Cache([Slot(0, true, false, 0xFF, 0, [], mem)], [mem]);
      && Inv(cs, 1) && GetSector(cs, 1, 0, 1).1 == 0
      && ReleaseSector(GetSector(cs, 1, 0, 1).0, 0).slots[0].usage == 0xFE
  {}

  /** Asked for writing and expected to be used once, a sector of an empty cache is not marked writable. */
  lemma ExpectedWriteIsNotMarked(mem: Sector)
    ensures var cs := Cache([Slot(0, false, false, 0, 0, [], mem)], [mem]);
      && Inv(cs, 1) && IsReqRw(6) && GetSector(cs, 1, 0, 6).1 == 0
      && !GetSector(cs, 1, 0, 6).0.slots[0].writable
  {
    assert FindSector([Slot(0, false, false, 0, 0, [], mem)], 0, 0) == -1;
  }

  /** An empty buffer manager in front of a disc shows the disc and satisfies the invariant. */
  lemma EmptyCacheShowsDisc(cs: Cache, numit: nat)
    requires forall i | 0 <= i < |cs.slots| ::
      cs.slots[i].sector == 0 < |cs.disc| && !cs.slots[i].valid && !cs.slots[i].writable
      && cs.slots[i].usage == 0 && cs.slots[i].reference <= 0xFF && cs.slots[i].stack == []
    ensures Inv(cs, numit) && Flat(cs) == cs.disc && Room(cs, 0xFF) && TotalUsers(cs.slots, |cs.slots|) == 0
  {
    assert Flat(cs) == cs.disc;
    NoUsers(cs.slots, |cs.slots|);
  }

  lemma {:induction false} NoUsers(slots: seq<Slot>, n: nat)
    requires n <= |slots| && forall i | 0 <= i < |slots| :: slots[i].usage == 0 && slots[i].stack == []
    ensures TotalUsers(slots, n) == 0
  {
    if n > 0 { NoUsers(slots, n - 1); }
  }

  /** The shipped configuration, one buffer and one level of stack, cannot nest three sectors deep. */
  lemma ShippedDepthIsTwo(cs: Cache, a: nat, b: nat, c: nat)
    requires |cs.slots| == 1 && !cs.slots[0].valid && cs.slots[0].usage == 0 && cs.slots[0].stack == []
    requires cs.slots[0].sector < |cs.disc| && !cs.slots[0].writable && cs.slots[0].reference <= 0xFF
    requires a < |cs.disc| && b < |cs.disc| && c < |cs.disc| && a != b && b != c && a != c
    ensures Exec(cs, 1, [], [Use(a, 1, [Use(b, 1, [Use(c, 1, [])])])]) == NoBuffer
  {
    var inner, middle := Use(c, 1, []), Use(b, 1, [Use(c, 1, [])]);
    var (cs1, b1) := GetSector(cs, 1, a, 1);
    assert FindUnused(cs1.slots, 0) == -1 && FindUnused(cs1.slots, 1) == -1;
    assert FindOverallocable(cs1.slots, 1, 0) == -1;
    var (cs2, b2) := GetSector(cs1, 1, b, 1);
    assert b1 == 0 && b2 == 0 && |cs2.slots| == 1;
    GetFailsExactly(cs2, 1, c, 1);
    var env1 := [Holder(0, a)] + [];
    var env2 := [Holder(0, b)] + env1;
    assert ExecAct(cs2, 1, env2, inner) == NoBuffer;
    assert [inner][0] == inner;
    assert Exec(cs2, 1, env2, [inner]) == NoBuffer;
    assert ExecAct(cs1, 1, env1, middle) == NoBuffer;
    assert [middle][0] == middle;
    assert Exec(cs1, 1, env1, [middle]) == NoBuffer;
  }
}
