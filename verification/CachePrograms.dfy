/**
 Programs on the buffer manager that follow its rules, and those that the table
 functions are: how deep they nest, and on which configurations they run.
 */
module CachePrograms {
  import opened SectorCache
  import opened CacheRuns

  const READONLY := 1

  // ----- programs that follow the rules

  /** What a program has in its hands: no buffer, one to read, or one to read and write. */
  datatype Grip = Empty | Reading | Writing

  function GripOf(mode: nat): Grip { if mode == READWRITE then Writing else Reading }

  /**
   Only the buffer obtained last is looked at, and edited only if it was asked
   for in plain read-write mode; only sectors of the disc are addressed.
   */
  ghost predicate ProperAct(act: Act, grip: Grip, sectors: nat)
    decreases act
  {
    match act
    case Use(a, mode, body) => a < sectors && Proper(body, GripOf(mode), sectors)
    case Look(k) => k == 0 && !grip.Empty?
    case Edit(k, _) => k == 0 && grip.Writing?
    case DirectRead(a) => a < sectors
    case DirectWrite(a, _) => a < sectors
    case FlushSectors(_, _) => true
  }

  ghost predicate Proper(acts: seq<Act>, grip: Grip, sectors: nat)
    decreases acts
  {
    acts == [] || (ProperAct(acts[0], grip, sectors) && Proper(acts[1..], grip, sectors))
  }

  /** The innermost holder's buffer shows its sector, is in use, and is marked writable if it was asked for that. */
  ghost predicate Held(cs: Cache, env: seq<Holder>, grip: Grip) {
    grip.Empty? ||
    (env != [] && Visible(cs, env[0]) && cs.slots[env[0].slot].usage > 0 && (grip.Writing? ==> cs.slots[env[0].slot].writable))
  }

  lemma FramedHeld(cs: Cache, cs': Cache, env: seq<Holder>, grip: Grip)
    requires Held(cs, env, grip) && Framed(cs, cs')
    ensures Held(cs', env, grip)
  {
    if !grip.Empty? { assert SameForHolders(cs.slots[env[0].slot], cs'.slots[env[0].slot]); }
  }

  /** Every way to obtain a buffer in plain read-write mode marks it writable. */
  lemma GetHolds(cs: Cache, numit: nat, env: seq<Holder>, a: nat, mode: nat)
    requires Inv(cs, numit) && Addressable(cs, a) && GetSector(cs, numit, a, mode).1 != -1
    ensures var (cs1, bp) := GetSector(cs, numit, a, mode); Held(cs1, [Holder(bp, a)] + env, GripOf(mode))
  {
    var free := FindFree(cs.slots, 0);
    assert free != -1 ==> GoodSlot(cs, numit, cs.slots[free]);
  }

  lemma RoomForOne(cs: Cache, depth: nat)
    requires Room(cs, depth + 1)
    ensures forall i | 0 <= i < |cs.slots| :: cs.slots[i].usage < 0xFF
  {}

  lemma {:induction false} ProperActIsNotMisused(cs: Cache, numit: nat, env: seq<Holder>, act: Act, grip: Grip)
    requires Inv(cs, numit) && Room(cs, ActDepth(act)) && ProperAct(act, grip, |cs.disc|) && Held(cs, env, grip)
    ensures !ExecAct(cs, numit, env, act).Misused?
    decreases act
  {
    hide Inv, GetSector, ReleaseSector, Held;
    InvOnDisc(cs, numit);
    match act
    case Use(a, mode, body) =>
      var (cs1, bp) := GetSector(cs, numit, a, mode);
      if bp != -1 {
        var env1 := [Holder(bp, a)] + env;
        GetShowsFlat(cs, numit, a, mode);
        GetRoom(cs, numit, a, mode, Depth(body));
        GetHolds(cs, numit, env, a, mode);
        ProperRunIsNotMisused(cs1, numit, env1, body, GripOf(mode));
        RunRefinesFlat(cs1, numit, env1, body);
        var o := Exec(cs1, numit, env1, body);
        if o.Done? {
          RoomForOne(cs, Depth(body));
          UseRestores(cs, o.cs, numit, a, mode);
        }
      }
    case Look(k) => HeldIsVisible(cs, env, grip);
    case Edit(k, data) => HeldIsVisible(cs, env, grip);
    case _ =>
  }

  lemma HeldIsVisible(cs: Cache, env: seq<Holder>, grip: Grip)
    requires Held(cs, env, grip) && !grip.Empty?
    ensures env != [] && Visible(cs, env[0]) && (grip.Writing? ==> cs.slots[env[0].slot].writable)
  {}

  lemma {:induction false} ProperRunIsNotMisused(cs: Cache, numit: nat, env: seq<Holder>, acts: seq<Act>, grip: Grip)
    requires Inv(cs, numit) && Room(cs, Depth(acts)) && Proper(acts, grip, |cs.disc|) && Held(cs, env, grip)
    ensures !Exec(cs, numit, env, acts).Misused?
    decreases acts
  {
    hide Inv, Held, Framed, Flat;
    if acts != [] {
      ProperActIsNotMisused(cs, numit, env, acts[0], grip);
      ActRefinesFlat(cs, numit, env, acts[0]);
      var o := ExecAct(cs, numit, env, acts[0]);
      if o.Done? {
        FramedRoom(cs, o.cs, Depth(acts[1..]));
        FramedHeld(cs, o.cs, env, grip);
        FramedDisc(cs, o.cs);
        ProperRunIsNotMisused(o.cs, numit, env, acts[1..], grip);
      }
    }
  }

  lemma FramedDisc(cs: Cache, cs': Cache)
    requires Framed(cs, cs')
    ensures |cs'.disc| == |cs.disc|
  {}

  /**
   The refinement in full: a program that follows the rules and nests no deeper
   than there are places always runs to its end, shows at every look and every
   direct read what the flat array shows, and leaves that array's contents.
   */
  lemma ProperRunsRefineFlat(cs: Cache, numit: nat, acts: seq<Act>)
    requires Inv(cs, numit) && Room(cs, Depth(acts)) && Proper(acts, Empty, |cs.disc|)
    requires TotalUsers(cs.slots, |cs.slots|) + Depth(acts) <= |cs.slots| * (numit + 1)
    ensures var o := Exec(cs, numit, [], acts);
      && o.Done? && Inv(o.cs, numit) && Framed(cs, o.cs)
      && (Flat(o.cs), o.shown) == FlatExec(Flat(cs), [], acts)
  {
    ProperRunIsNotMisused(cs, numit, [], acts, Empty);
    NestingWithinCapacity(cs, numit, [], acts);
    RunRefinesFlat(cs, numit, [], acts);
    assert Addresses([]) == [];
  }
}
