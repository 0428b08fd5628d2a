/** Programs run on the buffer manager's arrays. */
module CacheMachine {
  import opened CacheRuns
  import opened CachePrograms
  import opened IoManagement
  import opened Types

  /** One action on the arrays does what it does at value level. */
  method RunAct(io: IoManager, env: seq<Holder>, act: Act) returns (shown: seq<Sector>)
    requires io.Valid() && ExecAct(io.Model(), io.numit, env, act).Done?
    modifies io.Arrays
    ensures io.Valid() && ExecAct(old(io.Model()), io.numit, env, act) == Done(io.Model(), shown)
    decreases act
  {
    hide SectorCache.GetSector, SectorCache.ReleaseSector, SectorCache.DirectSectorRead, SectorCache.DirectSectorWrite, SectorCache.FlushRange;
    shown := [];
    match act {
      case Use(a, mode, body) =>
        var bp := io.GetSector(a, mode);
        shown := RunActs(io, [Holder(bp, a)] + env, body);
        io.ReleaseSector(bp);
      case Look(k) =>
        shown := [io.mem[env[k].slot]];
      case Edit(k, data) =>
        io.CopyIn(env[k].slot, data);
      case DirectRead(a) =>
        var data := io.DirectSectorRead(a);
        shown := [data];
      case DirectWrite(a, data) =>
        var _ := io.DirectSectorWrite(a, data);
      case FlushSectors(low, high) =>
        io.FlushRange(low, high);
    }
  }

  method RunActs(io: IoManager, env: seq<Holder>, acts: seq<Act>) returns (shown: seq<Sector>)
    requires io.Valid() && Exec(io.Model(), io.numit, env, acts).Done?
    modifies io.Arrays
    ensures io.Valid() && Exec(old(io.Model()), io.numit, env, acts) == Done(io.Model(), shown)
    decreases acts
  {
    hide ExecAct;
    shown := [];
    if acts != [] {
      var first := RunAct(io, env, acts[0]);
      var rest := RunActs(io, env, acts[1..]);
      shown := first + rest;
    }
  }

  /**
   A program that follows the rules and nests within the places there are shows,
   run on the arrays, what the flat array shows, and leaves its contents.
   */
  method RunProgram(io: IoManager, acts: seq<Act>) returns (shown: seq<Sector>)
    requires io.Valid() && Inv(io.Model(), io.numit) && Room(io.Model(), Depth(acts))
    requires Proper(acts, Empty, io.disc.Length)
    requires TotalUsers(io.Model().slots, io.numbuf) + Depth(acts) <= io.numbuf * (io.numit + 1)
    modifies io.Arrays
    ensures io.Valid() && Inv(io.Model(), io.numit)
    ensures (Flat(io.Model()), shown) == FlatExec(Flat(old(io.Model())), [], acts)
  {
    hide Exec, FlatExec, Flat, Inv, Proper, TotalUsers, Depth;
    ProperRunsRefineFlat(io.Model(), io.numit, acts);
    shown := RunActs(io, [], acts);
  }

  /** Unmounting flushes the sectors of the volume: the disc itself is then as the flat array. */
  method Unmount(io: IoManager, sectorCount: nat)
    requires io.Valid() && Inv(io.Model(), io.numit)
    modifies io.disc, io.status
    ensures io.Valid() && Inv(io.Model(), io.numit) && Flat(io.Model()) == Flat(old(io.Model()))
    ensures forall a | 0 <= a < io.disc.Length && a <= sectorCount :: io.disc[a] == Flat(old(io.Model()))[a]
  {
    hide Flat, Inv;
    FlushKeepsFlat(io.Model(), io.numit, 0, sectorCount, io.numbuf);
    io.FlushRange(0, sectorCount);
  }

  /** What a program wrote is on the disc once the volume is unmounted. */
  method RunAndUnmount(io: IoManager, acts: seq<Act>, sectorCount: nat) returns (shown: seq<Sector>)
    requires io.Valid() && Inv(io.Model(), io.numit) && Room(io.Model(), Depth(acts))
    requires Proper(acts, Empty, io.disc.Length)
    requires TotalUsers(io.Model().slots, io.numbuf) + Depth(acts) <= io.numbuf * (io.numit + 1)
    modifies io.Arrays
    ensures io.Valid() && shown == FlatExec(Flat(old(io.Model())), [], acts).1
    ensures forall a | 0 <= a < io.disc.Length && a <= sectorCount ::
      a < |FlatExec(Flat(old(io.Model())), [], acts).0| && io.disc[a] == FlatExec(Flat(old(io.Model())), [], acts).0[a]
  {
    hide FlatExec, Inv, Proper, TotalUsers, Depth;
    shown := RunProgram(io, acts);
    Unmount(io, sectorCount);
  }
}
