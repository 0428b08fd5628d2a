/** The table functions as programs on the buffer manager: how deep they nest, and where the shipped configuration is too small. */
module TablePrograms {
  import opened Types
  import opened SectorCache
  import opened CacheRuns
  import opened CachePrograms
  import opened FatTable
  import opened Allocation

  // ----- single entries; s is the sector of the entry's first byte

  /** Reading an entry of the sector in hand; the second byte of a straddling one is fetched from the next sector. */
  function ReadWithBuffer(s: nat, straddles: bool): seq<Act> {
    [Look(0)] + if straddles then [Use(s + 1, READONLY, [Look(0)])] else []
  }

  /** Writing an entry of the sector in hand: what its sector and, if it straddles, the next one are to hold. */
  function WriteWithBuffer(s: nat, straddles: bool, data: Sector, next: Sector): seq<Act> {
    [Look(0), Edit(0, data)] + if straddles then [Use(s + 1, READWRITE, [Look(0), Edit(0, next)])] else []
  }

  /** The first sector is given up before the second is fetched. */
  function GetEntry(s: nat, straddles: bool): seq<Act> {
    [Use(s, READONLY, [Look(0)])] + if straddles then [Use(s + 1, READONLY, [Look(0)])] else []
  }

  function SetEntry(s: nat, straddles: bool, data: Sector, next: Sector): seq<Act> {
    [Use(s, READWRITE, WriteWithBuffer(s, straddles, data, next))]
  }

  // ----- a step along a chain, and an allocation

  /** The entries that a step and its lookahead read from one sector. */
  function Reads(s: nat, straddling: seq<bool>): seq<Act> {
    if straddling == [] then [] else ReadWithBuffer(s, straddling[0]) + Reads(s, straddling[1..])
  }

  function ChainStep(s: nat, straddling: seq<bool>): seq<Act> {
    [Use(s, READONLY, Reads(s, straddling))]
  }

  /** One cluster examined in sector a and, if it is free, linked to behind the entry in sector b. */
  datatype Round = Round(a: nat, straddlesA: bool, free: bool, b: nat, straddlesB: bool, data: Sector, next: Sector)

  function Link(r: Round): seq<Act> {
    if r.free then SetEntry(r.b, r.straddlesB, r.data, r.next) else []
  }

  function TryCluster(r: Round): seq<Act> {
    [Use(r.a, READONLY, ReadWithBuffer(r.a, r.straddlesA) + Link(r))]
  }

  /** The rounds of an allocation, and its last entry's end-of-chain marker. */
  function Rounds(rs: seq<Round>, end: seq<Act>): seq<Act> {
    if rs == [] then end else TryCluster(rs[0]) + Rounds(rs[1..], end)
  }

  // ----- sequences of actions

  lemma {:induction false} DepthOfBoth(x: seq<Act>, y: seq<Act>)
    ensures Depth(x + y) == Max(Depth(x), Depth(y))
    decreases |x|
  {
    if x == [] {
      assert x + y == y;
    } else {
      assert (x + y)[1..] == x[1..] + y;
      DepthOfBoth(x[1..], y);
    }
  }

  lemma {:induction false} ProperBoth(x: seq<Act>, y: seq<Act>, grip: Grip, sectors: nat)
    ensures Proper(x + y, grip, sectors) <==> Proper(x, grip, sectors) && Proper(y, grip, sectors)
    decreases |x|
  {
    if x == [] {
      assert x + y == y;
    } else {
      assert (x + y)[1..] == x[1..] + y;
      ProperBoth(x[1..], y, grip, sectors);
    }
  }

  lemma DepthOfOne(act: Act)
    ensures Depth([act]) == ActDepth(act)
  {}

  lemma ProperOne(act: Act, grip: Grip, sectors: nat)
    ensures Proper([act], grip, sectors) <==> ProperAct(act, grip, sectors)
  {}

  // ----- depths

  lemma ReadDepth(s: nat, straddles: bool, grip: Grip, sectors: nat)
    requires !grip.Empty? && (straddles ==> s + 1 < sectors)
    ensures Depth(ReadWithBuffer(s, straddles)) == (if straddles then 1 else 0)
    ensures Proper(ReadWithBuffer(s, straddles), grip, sectors)
  {
    var more := if straddles then [Use(s + 1, READONLY, [Look(0)])] else [];
    DepthOfBoth([Look(0)], more);
    ProperBoth([Look(0)], more, grip, sectors);
    ProperOne(Look(0), Reading, sectors);
  }

  lemma WriteDepth(s: nat, straddles: bool, data: Sector, next: Sector, sectors: nat)
    requires straddles ==> s + 1 < sectors
    ensures Depth(WriteWithBuffer(s, straddles, data, next)) == (if straddles then 1 else 0)
    ensures Proper(WriteWithBuffer(s, straddles, data, next), Writing, sectors)
  {
    var more := if straddles then [Use(s + 1, READWRITE, [Look(0), Edit(0, next)])] else [];
    LookThenEdit(data, sectors);
    LookThenEdit(next, sectors);
    DepthOfBoth([Look(0), Edit(0, data)], more);
    ProperBoth([Look(0), Edit(0, data)], more, Writing, sectors);
  }

  lemma LookThenEdit(data: Sector, sectors: nat)
    ensures Depth([Look(0), Edit(0, data)]) == 0 && Proper([Look(0), Edit(0, data)], Writing, sectors)
  {
    assert [Look(0), Edit(0, data)] == [Look(0)] + [Edit(0, data)];
    DepthOfBoth([Look(0)], [Edit(0, data)]);
    ProperBoth([Look(0)], [Edit(0, data)], Writing, sectors);
  }

  /** Reading an entry takes one place, setting one takes a second one when it straddles. */
  lemma EntryDepth(s: nat, straddles: bool, data: Sector, next: Sector, sectors: nat)
    requires s < sectors && (straddles ==> s + 1 < sectors)
    ensures Depth(GetEntry(s, straddles)) == 1 && Proper(GetEntry(s, straddles), Empty, sectors)
    ensures Depth(SetEntry(s, straddles, data, next)) == (if straddles then 2 else 1)
    ensures forall grip :: Proper(SetEntry(s, straddles, data, next), grip, sectors)
  {
    var more := if straddles then [Use(s + 1, READONLY, [Look(0)])] else [];
    ProperOne(Look(0), Reading, sectors);
    DepthOfOne(Look(0));
    DepthOfBoth([Use(s, READONLY, [Look(0)])], more);
    ProperBoth([Use(s, READONLY, [Look(0)])], more, Empty, sectors);
    WriteDepth(s, straddles, data, next, sectors);
    hide WriteWithBuffer;
    DepthOfOne(Use(s, READWRITE, WriteWithBuffer(s, straddles, data, next)));
  }

  lemma {:induction false} ReadsDepth(s: nat, straddling: seq<bool>, sectors: nat)
    requires true in straddling ==> s + 1 < sectors
    ensures Depth(Reads(s, straddling)) == (if true in straddling then 1 else 0)
    ensures Proper(Reads(s, straddling), Reading, sectors)
    decreases |straddling|
  {
    if straddling != [] {
      var first, rest := ReadWithBuffer(s, straddling[0]), Reads(s, straddling[1..]);
      ReadDepth(s, straddling[0], Reading, sectors);
      ReadsDepth(s, straddling[1..], sectors);
      DepthOfBoth(first, rest);
      ProperBoth(first, rest, Reading, sectors);
      assert straddling == [straddling[0]] + straddling[1..];
    }
  }

  /** A step along a chain takes two places when one of the entries it reads straddles. */
  lemma ChainStepDepth(s: nat, straddling: seq<bool>, sectors: nat)
    requires s < sectors && (true in straddling ==> s + 1 < sectors)
    ensures Depth(ChainStep(s, straddling)) == (if true in straddling then 2 else 1)
    ensures Proper(ChainStep(s, straddling), Empty, sectors)
  {
    ReadsDepth(s, straddling, sectors);
  }

  predicate OnSectors(r: Round, sectors: nat) {
    && r.a < sectors && (r.straddlesA ==> r.a + 1 < sectors)
    && (r.free ==> r.b < sectors && (r.straddlesB ==> r.b + 1 < sectors))
  }

  /** Places a round takes: three when it links behind a straddling entry. */
  function RoundDepth(r: Round): nat {
    if r.free then (if r.straddlesB then 3 else 2) else if r.straddlesA then 2 else 1
  }

  lemma TryClusterDepth(r: Round, sectors: nat)
    requires OnSectors(r, sectors)
    ensures Depth(TryCluster(r)) == RoundDepth(r) && Proper(TryCluster(r), Empty, sectors)
  {
    hide ReadWithBuffer, SetEntry;
    ReadDepth(r.a, r.straddlesA, Reading, sectors);
    if r.free { EntryDepth(r.b, r.straddlesB, r.data, r.next, sectors); }
    DepthOfBoth(ReadWithBuffer(r.a, r.straddlesA), Link(r));
    ProperBoth(ReadWithBuffer(r.a, r.straddlesA), Link(r), Reading, sectors);
    DepthOfOne(Use(r.a, READONLY, ReadWithBuffer(r.a, r.straddlesA) + Link(r)));
  }

  /** An allocation never takes more than three places, and no more than two unless it links behind a straddling entry. */
  lemma {:induction false} AllocationDepth(rs: seq<Round>, end: seq<Act>, limit: nat, sectors: nat)
    requires Depth(end) <= limit && Proper(end, Empty, sectors)
    requires forall i | 0 <= i < |rs| :: OnSectors(rs[i], sectors) && RoundDepth(rs[i]) <= limit
    ensures Depth(Rounds(rs, end)) <= limit && Proper(Rounds(rs, end), Empty, sectors)
    decreases |rs|
  {
    hide TryCluster;
    if rs != [] {
      TryClusterDepth(rs[0], sectors);
      AllocationDepth(rs[1..], end, limit, sectors);
      DepthOfBoth(TryCluster(rs[0]), Rounds(rs[1..], end));
      ProperBoth(TryCluster(rs[0]), Rounds(rs[1..], end), Empty, sectors);
    }
  }

  /**
   With three places every allocation runs to its end as on the flat array;
   with two, every one that links behind no straddling entry.
   */
  lemma AllocationRuns(cs: Cache, numit: nat, rs: seq<Round>, end: Round)
    requires Inv(cs, numit) && TotalUsers(cs.slots, |cs.slots|) == 0 && Room(cs, 3)
    requires forall i | 0 <= i < |rs| :: OnSectors(rs[i], |cs.disc|)
    requires end.free && OnSectors(end, |cs.disc|)
    requires |cs.slots| * (numit + 1) >= 3 ||
      (|cs.slots| * (numit + 1) == 2 && forall i | 0 <= i < |rs| :: !(rs[i].free && rs[i].straddlesB))
    ensures var o := Exec(cs, numit, [], Rounds(rs, Link(end)));
      o.Done? && Inv(o.cs, numit) && (Flat(o.cs), o.shown) == FlatExec(Flat(cs), [], Rounds(rs, Link(end)))
  {
    hide Inv, Flat, Exec, FlatExec, SetEntry;
    var limit := if |cs.slots| * (numit + 1) >= 3 then 3 else 2;
    EntryDepth(end.b, end.straddlesB, end.data, end.next, |cs.disc|);
    AllocationDepth(rs, Link(end), limit, |cs.disc|);
    RoomForLess(cs, Depth(Rounds(rs, Link(end))), 3);
    ProperRunsRefineFlat(cs, numit, Rounds(rs, Link(end)));
  }

  lemma RoomForLess(cs: Cache, depth: nat, more: nat)
    requires Room(cs, more) && depth <= more
    ensures Room(cs, depth)
  {}

  // ----- what the programs do to a flat array

  lemma {:induction false} FlatBoth(flat: seq<Sector>, env: seq<nat>, x: seq<Act>, y: seq<Act>)
    ensures var (flat1, shown1) := FlatExec(flat, env, x);
      var (flat2, shown2) := FlatExec(flat1, env, y);
      FlatExec(flat, env, x + y) == (flat2, shown1 + shown2)
    decreases |x|
  {
    hide FlatAct;
    if x == [] {
      assert x + y == y;
      var shown := FlatExec(flat, env, y).1;
      assert [] + shown == shown;
    } else {
      assert (x + y)[1..] == x[1..] + y;
      var (flat1, shown1) := FlatAct(flat, env, x[0]);
      FlatBoth(flat1, env, x[1..], y);
      var (flat2, shown2) := FlatExec(flat1, env, x[1..]);
      var shown3 := FlatExec(flat2, env, y).1;
      assert (shown1 + shown2) + shown3 == shown1 + (shown2 + shown3);
    }
  }

  lemma FlatOne(flat: seq<Sector>, env: seq<nat>, act: Act)
    ensures FlatExec(flat, env, [act]) == FlatAct(flat, env, act)
  {
    hide FlatAct;
    var (flat1, shown1) := FlatAct(flat, env, act);
    assert [act][1..] == [] && FlatExec(flat1, env, []) == (flat1, []);
    assert shown1 + [] == shown1;
  }

  /** The array with the entry's sector and, for a straddling one, the next sector written. */
  function EntryWritten(flat: seq<Sector>, s: nat, straddles: bool, data: Sector, next: Sector): (r: seq<Sector>)
    requires s < |flat| && (straddles ==> s + 1 < |flat|)
    ensures |r| == |flat|
  {
    if straddles then flat[s := data][s + 1 := next] else flat[s := data]
  }

  lemma LookEditFlat(flat: seq<Sector>, env: seq<nat>, data: Sector)
    requires env != [] && env[0] < |flat|
    ensures FlatExec(flat, env, [Look(0), Edit(0, data)]) == (flat[env[0] := data], [flat[env[0]]])
  {
    assert [Look(0), Edit(0, data)] == [Look(0)] + [Edit(0, data)];
    FlatBoth(flat, env, [Look(0)], [Edit(0, data)]);
    FlatOne(flat, env, Look(0));
    FlatOne(flat, env, Edit(0, data));
  }

  /** Setting an entry sees the sectors it lies in as they were, and writes those and no other. */
  lemma SetEntryWrites(flat: seq<Sector>, env: seq<nat>, s: nat, straddles: bool, data: Sector, next: Sector)
    requires s < |flat| && (straddles ==> s + 1 < |flat|)
    ensures FlatExec(flat, env, SetEntry(s, straddles, data, next)) ==
      (EntryWritten(flat, s, straddles, data, next), if straddles then [flat[s], flat[s + 1]] else [flat[s]])
  {
    hide FlatExec;
    var here := [s] + env;
    var start := [Look(0), Edit(0, data)];
    FlatOne(flat, env, Use(s, READWRITE, WriteWithBuffer(s, straddles, data, next)));
    LookEditFlat(flat, here, data);
    if straddles {
      var act := Use(s + 1, READWRITE, [Look(0), Edit(0, next)]);
      FlatBoth(flat, here, start, [act]);
      FlatOne(flat[s := data], here, act);
      LookEditFlat(flat[s := data], [s + 1] + here, next);
      assert [flat[s]] + [flat[s + 1]] == [flat[s], flat[s + 1]];
    } else {
      assert start + [] == start;
    }
  }

  lemma ReadShows(flat: seq<Sector>, env: seq<nat>, s: nat, straddles: bool)
    requires env != [] && env[0] == s < |flat| && (straddles ==> s + 1 < |flat|)
    ensures FlatExec(flat, env, ReadWithBuffer(s, straddles)) == (flat, if straddles then [flat[s], flat[s + 1]] else [flat[s]])
  {
    hide FlatExec;
    FlatOne(flat, env, Look(0));
    if straddles {
      var act := Use(s + 1, READONLY, [Look(0)]);
      FlatBoth(flat, env, [Look(0)], [act]);
      FlatOne(flat, env, act);
      FlatOne(flat, [s + 1] + env, Look(0));
      assert [flat[s]] + [flat[s + 1]] == [flat[s], flat[s + 1]];
    } else {
      assert [Look(0)] + [] == [Look(0)];
    }
  }

  /** Reading an entry sees the sectors it lies in and writes nothing. */
  lemma GetEntryShows(flat: seq<Sector>, env: seq<nat>, s: nat, straddles: bool)
    requires s < |flat| && (straddles ==> s + 1 < |flat|)
    ensures FlatExec(flat, env, GetEntry(s, straddles)) == (flat, if straddles then [flat[s], flat[s + 1]] else [flat[s]])
  {
    hide FlatExec;
    FlatOne(flat, env, Use(s, READONLY, [Look(0)]));
    FlatOne(flat, [s] + env, Look(0));
    if straddles {
      var act := Use(s + 1, READONLY, [Look(0)]);
      FlatBoth(flat, env, [Use(s, READONLY, [Look(0)])], [act]);
      FlatOne(flat, env, act);
      FlatOne(flat, [s + 1] + env, Look(0));
      assert [flat[s]] + [flat[s + 1]] == [flat[s], flat[s + 1]];
    } else {
      assert [Use(s, READONLY, [Look(0)])] + [] == [Use(s, READONLY, [Look(0)])];
    }
  }

  lemma {:induction false} ReadsWriteNothing(flat: seq<Sector>, env: seq<nat>, s: nat, straddling: seq<bool>)
    requires env != [] && env[0] == s && s + 1 < |flat|
    ensures FlatExec(flat, env, Reads(s, straddling)).0 == flat
  {
    hide ReadWithBuffer;
    if straddling != [] {
      ReadShows(flat, env, s, straddling[0]);
      ReadsWriteNothing(flat, env, s, straddling[1..]);
      FlatBoth(flat, env, ReadWithBuffer(s, straddling[0]), Reads(s, straddling[1..]));
    }
  }

  /** A step along a chain writes nothing. */
  lemma ChainStepWritesNothing(flat: seq<Sector>, env: seq<nat>, s: nat, straddling: seq<bool>)
    requires s + 1 < |flat|
    ensures FlatExec(flat, env, ChainStep(s, straddling)).0 == flat
  {
    hide FlatExec, Reads;
    FlatOne(flat, env, Use(s, READONLY, Reads(s, straddling)));
    ReadsWriteNothing(flat, [s] + env, s, straddling);
  }

  /** The array after the rounds: each free cluster's link is written, in turn. */
  function RoundsWritten(flat: seq<Sector>, rs: seq<Round>): (r: seq<Sector>)
    requires forall i | 0 <= i < |rs| :: OnSectors(rs[i], |flat|)
    ensures |r| == |flat|
    decreases |rs|
  {
    if rs == [] then flat else
      var r := rs[0];
      assert OnSectors(r, |flat|);
      var flat1 := if r.free then EntryWritten(flat, r.b, r.straddlesB, r.data, r.next) else flat;
      assert forall i | 0 <= i < |rs| - 1 :: rs[1..][i] == rs[i + 1];
      RoundsWritten(flat1, rs[1..])
  }

  lemma RoundWrites(flat: seq<Sector>, r: Round)
    requires OnSectors(r, |flat|)
    ensures FlatExec(flat, [], TryCluster(r)).0 == if r.free then EntryWritten(flat, r.b, r.straddlesB, r.data, r.next) else flat
  {
    hide FlatExec, ReadWithBuffer, SetEntry, EntryWritten;
    var look := ReadWithBuffer(r.a, r.straddlesA);
    FlatOne(flat, [], Use(r.a, READONLY, look + Link(r)));
    assert [r.a] + [] == [r.a];
    ReadShows(flat, [r.a], r.a, r.straddlesA);
    FlatBoth(flat, [r.a], look, Link(r));
    if r.free {
      SetEntryWrites(flat, [r.a], r.b, r.straddlesB, r.data, r.next);
    } else {
      assert look + [] == look;
    }
  }

  /** An allocation writes the links of the free clusters and the last entry's marker, and nothing else. */
  lemma {:induction false} AllocationWrites(flat: seq<Sector>, rs: seq<Round>, end: Round)
    requires (forall i | 0 <= i < |rs| :: OnSectors(rs[i], |flat|)) && end.free && OnSectors(end, |flat|)
    ensures FlatExec(flat, [], Rounds(rs, Link(end))).0 == RoundsWritten(flat, rs + [end])
    decreases |rs|
  {
    hide FlatExec, TryCluster, SetEntry, EntryWritten;
    if rs == [] {
      SetEntryWrites(flat, [], end.b, end.straddlesB, end.data, end.next);
      assert RoundsWritten(flat, [end]) == EntryWritten(flat, end.b, end.straddlesB, end.data, end.next);
    } else {
      RoundWrites(flat, rs[0]);
      var flat1 := FlatExec(flat, [], TryCluster(rs[0])).0;
      AllocationWrites(flat1, rs[1..], end);
      FlatBoth(flat, [], TryCluster(rs[0]), Rounds(rs[1..], Link(end)));
      assert (rs + [end])[1..] == rs[1..] + [end];
    }
  }

  // ----- the shipped configuration: one buffer, one level of stack

  lemma {:induction false} ExecBoth(cs: Cache, numit: nat, env: seq<Holder>, x: seq<Act>, y: seq<Act>)
    ensures var o := Exec(cs, numit, env, x);
      Exec(cs, numit, env, x + y).NoBuffer? <==> o.NoBuffer? || (o.Done? && Exec(o.cs, numit, env, y).NoBuffer?)
    decreases |x|
  {
    hide ExecAct;
    if x == [] {
      assert x + y == y;
    } else {
      assert (x + y)[1..] == x[1..] + y && (x + y)[0] == x[0];
      var o := ExecAct(cs, numit, env, x[0]);
      if o.Done? { ExecBoth(o.cs, numit, env, x[1..], y); }
    }
  }

  /** A use is refused when its own sector is, or one in its body. */
  lemma RefusedUse(cs: Cache, numit: nat, env: seq<Holder>, a: nat, mode: nat, body: seq<Act>)
    requires Addressable(cs, a)
    ensures var (cs1, bp) := GetSector(cs, numit, a, mode);
      Exec(cs, numit, env, [Use(a, mode, body)]).NoBuffer? <==>
        bp == -1 || Exec(cs1, numit, [Holder(bp, a)] + env, body).NoBuffer?
  {
    hide GetSector, ReleaseSector, Addressable;
    assert [Use(a, mode, body)][1..] == [];
  }

  lemma ExecNothing(cs: Cache, env: seq<Holder>)
    ensures Exec(cs, 1, env, []) == Done(cs, [])
  {}

  lemma LookEditRuns(cs: Cache, env: seq<Holder>, data: Sector)
    requires Held(cs, env, Writing)
    ensures var o := Exec(cs, 1, env, [Look(0), Edit(0, data)]);
      o.Done? && o.cs == EditBuffer(cs, env[0].slot, data)
  {
    hide EditBuffer, Exec;
    assert [Look(0), Edit(0, data)] == [Look(0)] + [Edit(0, data)] && [Edit(0, data)] == [Edit(0, data)] + [];
    ExecNothing(EditBuffer(cs, env[0].slot, data), env);
    ExecFirst(cs, env, Edit(0, data), []);
    ExecFirst(cs, env, Look(0), [Edit(0, data)]);
  }

  lemma ExecFirst(cs: Cache, env: seq<Holder>, act: Act, rest: seq<Act>)
    requires ExecAct(cs, 1, env, act).Done? && Exec(ExecAct(cs, 1, env, act).cs, 1, env, rest).Done?
    ensures var o := Exec(cs, 1, env, [act] + rest);
      o.Done? && o.cs == Exec(ExecAct(cs, 1, env, act).cs, 1, env, rest).cs
  {
    hide ExecAct;
    assert ([act] + rest)[1..] == rest;
  }

  /** With the one slot in hand, the second sector of a straddling entry is refused when something is pushed aside already. */
  lemma WriteOnShipped(cs: Cache, env: seq<Holder>, b: nat, straddles: bool, data: Sector, next: Sector)
    requires Inv(cs, 1) && |cs.slots| == 1 && env != [] && env[0] == Holder(0, b) && Held(cs, env, Writing)
    requires straddles ==> b + 1 < |cs.disc|
    ensures Exec(cs, 1, env, WriteWithBuffer(b, straddles, data, next)).NoBuffer? <==> straddles && |cs.slots[0].stack| >= 1
  {
    var more := if straddles then [Use(b + 1, READWRITE, [Look(0), Edit(0, next)])] else [];
    LookEditRuns(cs, env, data);
    ExecBoth(cs, 1, env, [Look(0), Edit(0, data)], more);
    if straddles {
      EditWritesFlat(cs, 1, 0, data);
      var cs1 := EditBuffer(cs, 0, data);
      InvOnDisc(cs1, 1);
      RefusedUse(cs1, 1, env, b + 1, READWRITE, [Look(0), Edit(0, next)]);
      GetFailsExactly(cs1, 1, b + 1, READWRITE);
      if GetSector(cs1, 1, b + 1, READWRITE).1 != -1 {
        var (cs2, bp) := GetSector(cs1, 1, b + 1, READWRITE);
        GetHolds(cs1, 1, env, b + 1, READWRITE);
        LookEditRuns(cs2, [Holder(bp, b + 1)] + env, next);
      }
    }
  }

  /** Setting an entry while the one slot shows sector a: refused exactly when the entry straddles and lies in another sector. */
  lemma LinkOnShipped(cs: Cache, env: seq<Holder>, a: nat, r: Round)
    requires Inv(cs, 1) && |cs.slots| == 1 && OnSectors(r, |cs.disc|) && r.free
    requires cs.slots[0].valid && cs.slots[0].sector == a && cs.slots[0].usage == 1 && cs.slots[0].stack == []
    ensures Exec(cs, 1, env, Link(r)).NoBuffer? <==> r.straddlesB && a != r.b
  {
    hide Exec, WriteWithBuffer;
    InvOnDisc(cs, 1);
    RefusedUse(cs, 1, env, r.b, READWRITE, WriteWithBuffer(r.b, r.straddlesB, r.data, r.next));
    GetFailsExactly(cs, 1, r.b, READWRITE);
    GetShowsFlat(cs, 1, r.b, READWRITE);
    GetHolds(cs, 1, env, r.b, READWRITE);
    var (cs1, bp) := GetSector(cs, 1, r.b, READWRITE);
    UnusedIsBest(cs.slots, 1);
    assert |cs1.slots[0].stack| == if a == r.b then 0 else 1;
    WriteOnShipped(cs1, [Holder(bp, r.b)] + env, r.b, r.straddlesB, r.data, r.next);
  }

  /** Reading the entry examined always works, and leaves the slot to it. */
  lemma ReadOnShipped(cs: Cache, r: Round)
    requires Inv(cs, 1) && |cs.slots| == 1 && OnSectors(r, |cs.disc|)
    requires cs.slots[0].valid && cs.slots[0].sector == r.a && cs.slots[0].usage == 1 && cs.slots[0].stack == []
    ensures var o := Exec(cs, 1, [Holder(0, r.a)], ReadWithBuffer(r.a, r.straddlesA));
      o.Done? && Inv(o.cs, 1) && Framed(cs, o.cs)
  {
    hide Exec, ReadWithBuffer, Flat;
    ReadDepth(r.a, r.straddlesA, Reading, |cs.disc|);
    OneUser(cs);
    ProperRunIsNotMisused(cs, 1, [Holder(0, r.a)], ReadWithBuffer(r.a, r.straddlesA), Reading);
    NestingWithinCapacity(cs, 1, [Holder(0, r.a)], ReadWithBuffer(r.a, r.straddlesA));
    RunRefinesFlat(cs, 1, [Holder(0, r.a)], ReadWithBuffer(r.a, r.straddlesA));
  }

  lemma OneUser(cs: Cache)
    requires |cs.slots| == 1 && cs.slots[0].stack == []
    ensures TotalUsers(cs.slots, 1) == cs.slots[0].usage
  {
    assert TotalUsers(cs.slots, 0) == 0;
  }

  /**
   In the shipped configuration a round of an allocation finds its buffers
   unless it links behind a straddling entry in another sector than the one of
   the cluster examined.
   */
  lemma ShippedRoundExactly(cs: Cache, r: Round)
    requires Inv(cs, 1) && |cs.slots| == 1 && cs.slots[0].usage == 0 && OnSectors(r, |cs.disc|)
    ensures Exec(cs, 1, [], TryCluster(r)).NoBuffer? <==> r.free && r.straddlesB && r.a != r.b
  {
    hide Exec, ReadWithBuffer;
    InvOnDisc(cs, 1);
    assert GoodSlot(cs, 1, cs.slots[0]);
    RefusedUse(cs, 1, [], r.a, READONLY, ReadWithBuffer(r.a, r.straddlesA) + Link(r));
    GetFailsExactly(cs, 1, r.a, READONLY);
    GetShowsFlat(cs, 1, r.a, READONLY);
    var (cs1, bp) := GetSector(cs, 1, r.a, READONLY);
    assert cs1.slots[0].usage == 1 && cs1.slots[0].stack == [];
    assert [Holder(bp, r.a)] + [] == [Holder(0, r.a)];
    ReadOnShipped(cs1, r);
    var o := Exec(cs1, 1, [Holder(0, r.a)], ReadWithBuffer(r.a, r.straddlesA));
    ExecBoth(cs1, 1, [Holder(0, r.a)], ReadWithBuffer(r.a, r.straddlesA), Link(r));
    if r.free {
      assert SameForHolders(cs1.slots[0], o.cs.slots[0]);
      LinkOnShipped(o.cs, [Holder(0, r.a)], r.a, r);
    } else {
      ExecNothing(o.cs, [Holder(0, r.a)]);
    }
  }

  // ----- which links those are

  predicate Straddles(kind: FatType, c: nat) { kind == FAT12 && Fat12Offset(c) == 511 }

  /** The round that examines cluster cc and links it behind lc. */
  function LinkingRound(fs: FileSystem, cc: nat, lc: nat, data: Sector, next: Sector): Round {
    Round(SectorAddress(fs, cc), Straddles(fs.kind, cc), true, SectorAddress(fs, lc), Straddles(fs.kind, lc), data, next)
  }

  /** On FAT16 and FAT32 the shipped configuration suffices for every link; on FAT12, unless it crosses table sectors from a straddling entry. */
  lemma ShippedLinkExactly(cs: Cache, fs: FileSystem, cc: nat, lc: nat, data: Sector, next: Sector)
    requires Inv(cs, 1) && |cs.slots| == 1 && cs.slots[0].usage == 0
    requires fs.reservedSectorCount + fs.fatSectorCount < |cs.disc| && fs.reservedSectorCount > 0
    requires SectorIndex(fs.kind, cc) < fs.fatSectorCount && SectorIndex(fs.kind, lc) < fs.fatSectorCount
    ensures Exec(cs, 1, [], TryCluster(LinkingRound(fs, cc, lc, data, next))).NoBuffer? <==>
      fs.kind == FAT12 && Fat12Offset(lc) == 511 && SectorIndex(FAT12, cc) != SectorIndex(FAT12, lc)
  {
    hide Exec, TryCluster, Fat12Offset, SectorIndex;
    ShippedRoundExactly(cs, LinkingRound(fs, cc, lc, data, next));
  }

  /** So a FAT12 file whose last cluster is 341 cannot be given cluster 342. */
  lemma FirstStraddlingLink(cs: Cache, fs: FileSystem, data: Sector, next: Sector)
    requires Inv(cs, 1) && |cs.slots| == 1 && cs.slots[0].usage == 0
    requires fs.kind == FAT12 && fs.fatSectorCount >= 2
    requires 0 < fs.reservedSectorCount < fs.reservedSectorCount + fs.fatSectorCount < |cs.disc|
    ensures Exec(cs, 1, [], TryCluster(LinkingRound(fs, 342, 341, data, next))).NoBuffer?
  {
    hide Exec, TryCluster, LinkingRound;
    assert SectorIndex(FAT12, 342) == 1 && SectorIndex(FAT12, 341) == 0 && Fat12Offset(341) == 511;
    ShippedLinkExactly(cs, fs, 342, 341, data, next);
  }

  // ----- the whole call

  /** The round links, behind a straddling entry, a cluster whose entry lies in another sector. */
  predicate NeedsThird(r: Round) { r.free && r.straddlesB && r.a != r.b }

  /** In the shipped configuration an allocation is refused a buffer if and only if one of its rounds needs a third one. */
  lemma {:induction false} ShippedRoundsExactly(cs: Cache, rs: seq<Round>, end: Round)
    requires Inv(cs, 1) && |cs.slots| == 1 && cs.slots[0].usage == 0
    requires (forall i | 0 <= i < |rs| :: OnSectors(rs[i], |cs.disc|)) && end.free && OnSectors(end, |cs.disc|)
    ensures Exec(cs, 1, [], Rounds(rs, Link(end))).NoBuffer? <==> exists i :: 0 <= i < |rs| && NeedsThird(rs[i])
    decreases |rs|
  {
    hide Inv, Exec, TryCluster, SetEntry, NeedsThird, Framed, OnSectors;
    IdleSlot(cs);
    if rs == [] {
      EndFits(cs, end);
    } else {
      RoundFits(cs, rs[0]);
      NeedsThirdIs(rs[0]);
      ExecBoth(cs, 1, [], TryCluster(rs[0]), Rounds(rs[1..], Link(end)));
      var o := Exec(cs, 1, [], TryCluster(rs[0]));
      if o.Done? {
        ShippedRoundsExactly(o.cs, rs[1..], end);
        assert forall i | 0 < i < |rs| :: NeedsThird(rs[i]) == NeedsThird(rs[1..][i - 1]);
      }
    }
  }

  lemma NeedsThirdIs(r: Round)
    ensures NeedsThird(r) <==> r.free && r.straddlesB && r.a != r.b
  {}

  lemma IdleSlot(cs: Cache)
    requires Inv(cs, 1) && |cs.slots| == 1 && cs.slots[0].usage == 0
    ensures Room(cs, 3) && TotalUsers(cs.slots, |cs.slots|) == 0
  {
    assert GoodSlot(cs, 1, cs.slots[0]);
    OneUser(cs);
  }

  /** A round that is not refused leaves the one slot idle again. */
  lemma RoundFits(cs: Cache, r: Round)
    requires Inv(cs, 1) && |cs.slots| == 1 && cs.slots[0].usage == 0 && OnSectors(r, |cs.disc|)
    ensures var o := Exec(cs, 1, [], TryCluster(r));
      && (o.NoBuffer? <==> r.free && r.straddlesB && r.a != r.b) && !o.Misused?
      && (o.Done? ==> Inv(o.cs, 1) && |o.cs.slots| == 1 && o.cs.slots[0].usage == 0 && |o.cs.disc| == |cs.disc|)
  {
    hide Exec, TryCluster, Flat;
    IdleSlot(cs);
    TryClusterDepth(r, |cs.disc|);
    RoomForLess(cs, Depth(TryCluster(r)), 3);
    ProperRunIsNotMisused(cs, 1, [], TryCluster(r), Empty);
    RunRefinesFlat(cs, 1, [], TryCluster(r));
    ShippedRoundExactly(cs, r);
    var o := Exec(cs, 1, [], TryCluster(r));
    if o.Done? { assert SameForHolders(cs.slots[0], o.cs.slots[0]); }
  }

  lemma EndFits(cs: Cache, end: Round)
    requires Inv(cs, 1) && |cs.slots| == 1 && cs.slots[0].usage == 0 && end.free && OnSectors(end, |cs.disc|)
    ensures !Exec(cs, 1, [], Link(end)).NoBuffer?
  {
    hide Exec, SetEntry;
    IdleSlot(cs);
    EntryDepth(end.b, end.straddlesB, end.data, end.next, |cs.disc|);
    RoomForLess(cs, Depth(Link(end)), 3);
    NestingWithinCapacity(cs, 1, [], Link(end));
  }

  /** The rounds that link follow the pairs that the allocation loop links, in their order. */
  ghost predicate Follow(fs: FileSystem, rs: seq<Round>, links: seq<(nat, nat)>)
    decreases |rs|
  {
    if rs == [] then links == []
    else if !rs[0].free then Follow(fs, rs[1..], links)
    else
      && links != [] && rs[0] == LinkingRound(fs, links[0].0, links[0].1, rs[0].data, rs[0].next)
      && Follow(fs, rs[1..], links[1..])
  }

  predicate Crosses(fs: FileSystem, link: (nat, nat)) {
    Straddles(fs.kind, link.1) && SectorAddress(fs, link.0) != SectorAddress(fs, link.1)
  }

  lemma {:induction false} FollowingNeeds(fs: FileSystem, rs: seq<Round>, links: seq<(nat, nat)>)
    requires Follow(fs, rs, links)
    ensures (exists i :: 0 <= i < |rs| && NeedsThird(rs[i])) <==> exists j :: 0 <= j < |links| && Crosses(fs, links[j])
    decreases |rs|
  {
    hide Straddles, SectorAddress;
    if rs != [] {
      assert forall i | 0 < i < |rs| :: rs[i] == rs[1..][i - 1];
      if rs[0].free {
        FollowingNeeds(fs, rs[1..], links[1..]);
        assert forall j | 0 < j < |links| :: links[j] == links[1..][j - 1];
        assert NeedsThird(rs[0]) <==> Crosses(fs, links[0]);
      } else {
        FollowingNeeds(fs, rs[1..], links);
      }
    }
  }

  lemma LinksCross(fs: FileSystem, links: seq<(nat, nat)>, full: seq<nat>, k: nat, met: bool)
    requires LinksOf(links, full, k, met) && |full| == k + 1
    ensures (exists j :: 0 <= j < |links| && Crosses(fs, links[j])) <==>
      exists j :: 0 <= j < |full| - 1 && Crosses(fs, (full[j + 1], full[j]))
  {
    hide Straddles, SectorAddress;
    if j :| 0 <= j < |links| && Crosses(fs, links[j]) {
      assert j < k;
      assert Crosses(fs, (full[j + 1], full[j]));
    }
    if j :| 0 <= j < |full| - 1 && Crosses(fs, (full[j + 1], full[j])) {
      assert links[j] == (full[j + 1], full[j]);
    }
  }

  /**
   Before the call: in the shipped configuration, a request for n clusters
   behind `last` is refused a buffer if and only if, among the end of the chain
   and the clusters it is to be given, one whose entry straddles is followed by
   one whose entry lies in another sector. That does not happen outside FAT12.
   */
  lemma ShippedAllocationExactly(cs: Cache, fs: FileSystem, tab: seq<nat>, last: nat, n: nat,
                                 rs: seq<Round>, links: seq<(nat, nat)>, end: Round)
    requires Inv(cs, 1) && |cs.slots| == 1 && cs.slots[0].usage == 0 && 2 <= last < |tab|
    requires (forall i | 0 <= i < |rs| :: OnSectors(rs[i], |cs.disc|)) && end.free && OnSectors(end, |cs.disc|)
    requires var ps := Picks(tab, last, n); LinksOf(links, [last] + ps, |ps|, Claimed(tab, last, n) > |ps|)
    requires Follow(fs, rs, links)
    ensures Exec(cs, 1, [], Rounds(rs, Link(end))).NoBuffer? <==>
      var full := [last] + Picks(tab, last, n);
      exists j :: 0 <= j < |full| - 1 && Crosses(fs, (full[j + 1], full[j]))
  {
    hide Inv, Exec, Rounds, SetEntry, Picks, Claimed, LinksOf, Follow, NeedsThird, Crosses;
    var ps := Picks(tab, last, n);
    ShippedRoundsExactly(cs, rs, end);
    FollowingNeeds(fs, rs, links);
    LinksCross(fs, links, [last] + ps, |ps|, Claimed(tab, last, n) > |ps|);
  }
}
