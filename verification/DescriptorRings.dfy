/** Rings of descriptors that the CPU and the network DMA hand to each other through an OWN bit. */
module DescriptorRings {
  import opened Types

  const MAX_PACKET_SIZE := 1520

  type Buffer = b: seq<byte> | |b| == MAX_PACKET_SIZE witness seq(MAX_PACKET_SIZE, _ => 0)

  /** The Status word's flags, the length it or the control word carries, and the two addresses as indices. */
  datatype Descriptor = Descriptor(own: bool, es: bool, ls: bool, fs: bool, length: nat, buffer: nat, next: nat)

  /** Position i's successor in a ring of n. */
  function Next(i: nat, n: nat): nat { if i + 1 < n then i + 1 else 0 }

  /** The position k places behind i. */
  function Place(i: nat, k: nat, n: nat): (p: nat)
    requires i < n && k <= n
    ensures p < n
  {
    if i + k < n then i + k else i + k - n
  }

  /** How far i is behind the start. */
  function Distance(start: nat, i: nat, n: nat): (k: nat)
    requires start < n && i < n
    ensures k < n && Place(start, k, n) == i
  {
    if start <= i then i - start else i + n - start
  }

  lemma PlacesDiffer(start: nat, j: nat, k: nat, n: nat)
    requires start < n && j < n && k < n
    ensures Place(start, j, n) == Place(start, k, n) <==> j == k
    ensures Place(start, k + 1, n) == Next(Place(start, k, n), n)
    ensures Place(Next(start, n), k, n) == Place(start, k + 1, n)
    ensures Place(start, n, n) == start == Place(start, 0, n)
  {}

  /** As the chain-mode initialisation leaves the table: every descriptor with its own buffer, the last one linked to the first. */
  predicate Chained(table: seq<Descriptor>, buffers: seq<Buffer>) {
    && |table| == |buffers|
    && forall i | 0 <= i < |table| :: table[i].buffer == i && table[i].next == Next(i, |table|)
  }

  /** The parts of a buffer chain in a row. */
  function Flat(parts: seq<seq<byte>>): seq<byte> {
    if parts == [] then [] else Flat(parts[..|parts| - 1]) + parts[|parts| - 1]
  }

  /** Bytes copied to the start of a buffer. */
  function Copied(b: Buffer, bytes: seq<byte>): Buffer
    requires |bytes| <= MAX_PACKET_SIZE
  {
    bytes + b[|bytes|..]
  }

  lemma CopiedPrefix(b: Buffer, bytes: seq<byte>)
    requires |bytes| <= MAX_PACKET_SIZE
    ensures Copied(b, bytes)[..|bytes|] == bytes
  {}
}

/** The receive side: frames arrive through the DMA and are handed over one at a time. */
module ReceiveRing {
  import opened Types
  import opened DescriptorRings

  /** What the DMA stores for one descriptor: bytes with the checksum, and the error, last and first segment bits. */
  datatype Arrival = Arrival(bytes: seq<byte>, es: bool, ls: bool, fs: bool) {
    predicate Whole() { !es && ls && fs }

    predicate Fits() { |bytes| <= MAX_PACKET_SIZE && (Whole() ==> |bytes| >= 4) }

    /** What the stack gets for it: the bytes without the checksum, or nothing of a faulty frame. */
    function Payload(): seq<byte>
      requires Fits()
    {
      if Whole() then bytes[..|bytes| - 4] else []
    }
  }

  /** What the driver holds between taking a frame and giving its descriptor back. */
  datatype Held = Nothing | Frame(descriptor: nat, length: nat, copied: bool)

  /**
   The table, the buffers, both sides' pointers and the frame in the driver's
   hands; and, to speak about order, what has arrived and what has been handed over.
   */
  datatype System = System(
    table: seq<Descriptor>, buffers: seq<Buffer>, get: nat, dma: nat, held: Held,
    arrived: seq<Arrival>, handed: seq<Delivery>)

  /** What became of a frame: handed to the stack, or dropped because the stack had no buffer for it. */
  datatype Delivery = HandedOver(bytes: seq<byte>) | Dropped

  datatype Step = Receive(frame: Arrival) | Take | CopyOut(available: bool) | GiveBack

  /** What the DMA says of a frame: it fits its buffer, and a faultless one has a checksum. */
  predicate Measured(d: Descriptor) {
    d.length <= MAX_PACKET_SIZE && (!d.es && d.ls && d.fs ==> d.length >= 4)
  }

  /** Length of the frame a descriptor describes, without the checksum; 0 for a faulty one. */
  function FrameLength(d: Descriptor): nat
    requires Measured(d)
  {
    if !d.es && d.ls && d.fs then d.length - 4 else 0
  }

  predicate Sound(s: System) {
    && Chained(s.table, s.buffers) && s.get < |s.table| && s.dma < |s.table|
    && (forall i | 0 <= i < |s.table| :: Measured(s.table[i]))
    && (s.held.Frame? ==> s.held.descriptor < |s.table| && s.held.length <= MAX_PACKET_SIZE)
    && forall j | 0 <= j < |s.arrived| :: s.arrived[j].Fits()
  }

  function Init(n: nat): (s: System)
    requires n > 0
    ensures Sound(s)
  {
    System(seq(n, (i: nat) requires i < n => Descriptor(true, false, false, false, 0, i, Next(i, n))),
           seq(n, _ => seq(MAX_PACKET_SIZE, _ => 0)), 0, 0, Nothing, [], [])
  }

  /** One side does one thing. The DMA leaves alone what it does not own, the driver does its work in sequence. */
  function Do(s: System, step: Step): (s': System)
    requires Sound(s) && (step.Receive? ==> step.frame.Fits())
    ensures Sound(s')
  {
    match step
    case Receive(frame) =>
      var d := s.table[s.dma];
      if d.own then
        s.(table := s.table[s.dma := d.(own := false, es := frame.es, ls := frame.ls, fs := frame.fs, length := |frame.bytes|)],
           buffers := s.buffers[d.buffer := Copied(s.buffers[d.buffer], frame.bytes)],
           dma := d.next, arrived := s.arrived + [frame])
      else s
    case Take =>
      if s.held.Nothing? && !s.table[s.get].own then
        s.(held := Frame(s.get, FrameLength(s.table[s.get]), false), get := s.table[s.get].next)
      else s
    case CopyOut(available) =>
      if s.held.Frame? && !s.held.copied then
        s.(held := s.held.(copied := true),
           handed := s.handed + [if available then HandedOver(s.buffers[s.table[s.held.descriptor].buffer][..s.held.length])
                                 else Dropped])
      else s
    case GiveBack =>
      if s.held.Frame? && s.held.copied then
        s.(held := Nothing, table := s.table[s.held.descriptor := Returned(s.table[s.held.descriptor])])
      else s
  }

  /** Status overwritten with the OWN bit alone. */
  function Returned(d: Descriptor): Descriptor {
    d.(own := true, es := false, ls := false, fs := false, length := 0)
  }

  function Run(s: System, steps: seq<Step>): (s': System)
    requires Sound(s) && forall j | 0 <= j < |steps| :: steps[j].Receive? ==> steps[j].frame.Fits()
    ensures Sound(s')
    decreases |steps|
  {
    if steps == [] then s else Run(Do(s, steps[0]), steps[1..])
  }

  /** 1 while a descriptor is in the driver's hands. */
  function InHand(s: System): nat { if s.held.Frame? then 1 else 0 }

  /** How many arrivals have left the ring: handed over, or taken and about to be. */
  function Gone(s: System): nat {
    |s.handed| + if s.held.Frame? && !s.held.copied then 1 else 0
  }

  /** The oldest descriptor that is the CPU's, and how many are. */
  function Oldest(s: System): nat { if s.held.Frame? then s.held.descriptor else s.get }

  function CpuOwned(s: System): int { |s.arrived| - Gone(s) + InHand(s) }

  /** A descriptor and its buffer hold a frame. */
  predicate Holds(s: System, i: nat, frame: Arrival)
    requires Sound(s) && i < |s.table| && frame.Fits()
  {
    var d := s.table[i];
    && d.es == frame.es && d.ls == frame.ls && d.fs == frame.fs && d.length == |frame.bytes|
    && s.buffers[i][..|frame.bytes|] == frame.bytes
  }

  /** The CPU's descriptors are the run from the oldest one to where the DMA is, holding what arrived last, in order. */
  ghost predicate Contiguous(s: System)
    requires Sound(s)
  {
    && 0 <= CpuOwned(s) <= |s.table| && InHand(s) <= CpuOwned(s) && InHand(s) <= Gone(s)
    && s.get == Place(Oldest(s), InHand(s), |s.table|)
    && s.dma == Place(Oldest(s), CpuOwned(s), |s.table|)
    && (forall k | 0 <= k < |s.table| :: s.table[Place(Oldest(s), k, |s.table|)].own == (k >= CpuOwned(s)))
    && (forall k | 0 <= k < CpuOwned(s) :: Holds(s, Place(Oldest(s), k, |s.table|), s.arrived[|s.arrived| - CpuOwned(s) + k]))
  }

  /** What has been handed over or dropped is what arrived first, frame by frame. */
  ghost predicate InOrder(s: System)
    requires Sound(s)
  {
    && |s.handed| <= |s.arrived|
    && forall j | 0 <= j < |s.handed| :: s.handed[j].Dropped? || s.handed[j].bytes == s.arrived[j].Payload()
  }

  ghost predicate Inv(s: System) {
    && Sound(s) && Contiguous(s) && InOrder(s)
    && (s.held.Frame? ==> s.held.length == |s.arrived[Gone(s) - 1].Payload()|)
  }

  lemma InitInv(n: nat)
    requires n > 0
    ensures Inv(Init(n))
  {}

  lemma ReceivedAt(s: System, frame: Arrival, k: nat)
    requires Inv(s) && frame.Fits() && s.table[s.dma].own && CpuOwned(s) < |s.table| && k < |s.table|
    ensures var s', p := Do(s, Receive(frame)), Place(Oldest(s), k, |s.table|);
      && s'.table[p].own == (k >= CpuOwned(s) + 1)
      && (k < CpuOwned(s) ==> Holds(s', p, s.arrived[|s.arrived| - CpuOwned(s) + k]))
      && (k == CpuOwned(s) ==> Holds(s', p, frame))
  {
    hide Place, Copied;
    var n, c := |s.table|, CpuOwned(s);
    PlacesDiffer(Oldest(s), k, c, n);
    CopiedPrefix(s.buffers[s.dma], frame.bytes);
    assert s.table[Place(Oldest(s), k, n)].own == (k >= c);
    assert k >= c || Holds(s, Place(Oldest(s), k, n), s.arrived[|s.arrived| - c + k]);
  }

  lemma Received(s: System, frame: Arrival)
    requires Inv(s) && frame.Fits() && s.table[s.dma].own && CpuOwned(s) < |s.table|
    ensures var s' := Do(s, Receive(frame));
      && |s'.table| == |s.table| && s'.get == s.get && s'.held == s.held && s'.handed == s.handed
      && s'.arrived == s.arrived + [frame]
      && s'.dma == Place(Oldest(s), CpuOwned(s) + 1, |s.table|)
  {
    PlacesDiffer(Oldest(s), CpuOwned(s), 0, |s.table|);
  }

  /** What contiguity is made of, for a given oldest descriptor and number. */
  lemma ContiguousFrom(s: System, first: nat, c: nat)
    requires Sound(s) && first == Oldest(s) && c == CpuOwned(s) <= |s.table| && InHand(s) <= c && InHand(s) <= Gone(s)
    requires s.get == Place(first, InHand(s), |s.table|) && s.dma == Place(first, c, |s.table|)
    requires forall k | 0 <= k < |s.table| :: s.table[Place(first, k, |s.table|)].own == (k >= c)
    requires forall k | 0 <= k < c :: Holds(s, Place(first, k, |s.table|), s.arrived[|s.arrived| - c + k])
    ensures Contiguous(s)
  {}

  lemma ContiguousBounds(s: System)
    requires Inv(s)
    ensures 0 <= CpuOwned(s) <= |s.table| && InHand(s) <= CpuOwned(s) && InHand(s) <= Gone(s) <= |s.arrived|
    ensures s.get == Place(Oldest(s), InHand(s), |s.table|) && s.dma == Place(Oldest(s), CpuOwned(s), |s.table|)
  {}

  lemma ReceiveKeeps(s: System, frame: Arrival)
    requires Inv(s) && frame.Fits()
    ensures Inv(Do(s, Receive(frame)))
  {
    hide Do, Holds, Place, Copied, Chained, InOrder, Contiguous;
    var n, c := |s.table|, CpuOwned(s);
    var s' := Do(s, Receive(frame));
    ContiguousBounds(s);
    if s.table[s.dma].own {
      FullMeansNoneOwned(s);
      Received(s, frame);
      StillInOrder(s, s');
      forall k | 0 <= k < n
        ensures s'.table[Place(Oldest(s), k, n)].own == (k >= c + 1)
        ensures k < c + 1 ==> Holds(s', Place(Oldest(s), k, n), s'.arrived[|s'.arrived| - (c + 1) + k])
      {
        ReceivedAt(s, frame, k);
      }
      ContiguousFrom(s', Oldest(s), c + 1);
    } else {
      Refused(s, frame);
    }
  }

  lemma StillInOrder(s: System, s': System)
    requires Sound(s) && Sound(s') && InOrder(s) && s'.handed == s.handed && s.arrived <= s'.arrived
    ensures InOrder(s')
  {}

  lemma Refused(s: System, frame: Arrival)
    requires Sound(s) && frame.Fits() && !s.table[s.dma].own
    ensures Do(s, Receive(frame)) == s
  {}

  lemma FullMeansNoneOwned(s: System)
    requires Inv(s)
    ensures s.table[s.dma].own <==> CpuOwned(s) < |s.table|
  {
    var n := |s.table|;
    if CpuOwned(s) == n {
      PlacesDiffer(Oldest(s), 0, 0, n);
      assert !s.table[Place(Oldest(s), 0, n)].own;
    }
  }

  lemma TakeKeeps(s: System)
    requires Inv(s)
    ensures Inv(Do(s, Take))
  {
    var n := |s.table|;
    if s.held.Nothing? && !s.table[s.get].own {
      PlacesDiffer(s.get, 0, 0, n);
      assert !s.table[Place(Oldest(s), 0, n)].own;
      assert Holds(s, Place(Oldest(s), 0, n), s.arrived[|s.handed|]);
    }
  }

  lemma HeldIsOldest(s: System)
    requires Inv(s) && s.held.Frame? && !s.held.copied
    ensures |s.handed| < |s.arrived| && s.table[s.held.descriptor].buffer == s.held.descriptor
    ensures s.buffers[s.held.descriptor][..s.held.length] == s.arrived[|s.handed|].Payload()
    ensures AddressIn(s.table[s.held.descriptor]).NullAddress? <==> !s.arrived[|s.handed|].Whole()
  {
    var n := |s.table|;
    PlacesDiffer(Oldest(s), 0, 0, n);
    var frame := s.arrived[|s.handed|];
    assert Holds(s, Place(Oldest(s), 0, n), frame);
    assert s.buffers[s.held.descriptor][..s.held.length] == frame.bytes[..s.held.length];
  }

  lemma CopyKeeps(s: System, available: bool)
    requires Inv(s)
    ensures Inv(Do(s, CopyOut(available)))
  {
    hide Do, Place, Holds, Chained, Contiguous, InOrder;
    var s' := Do(s, CopyOut(available));
    CopiedOut(s, available);
    if s.held.Frame? && !s.held.copied {
      StillContiguous(s, s');
      DeliveredInOrder(s, s');
    }
  }

  lemma StillContiguous(s: System, s': System)
    requires Inv(s) && s.held.Frame? && !s.held.copied && Sound(s')
    requires s' == s.(held := s.held.(copied := true), handed := s'.handed) && |s'.handed| == |s.handed| + 1
    ensures Contiguous(s')
  {
    hide Holds, Chained, Place, InOrder;
    SameHolds(s, s');
  }

  lemma CopiedOut(s: System, available: bool)
    requires Inv(s)
    ensures var s' := Do(s, CopyOut(available));
      if s.held.Frame? && !s.held.copied then
        && s' == s.(held := s.held.(copied := true), handed := s'.handed) && |s.handed| < |s.arrived|
        && (s'.handed == s.handed + [Dropped] || s'.handed == s.handed + [HandedOver(s.arrived[|s.handed|].Payload())])
      else s' == s
  {
    hide Place, Holds, Contiguous;
    if s.held.Frame? && !s.held.copied { HeldIsOldest(s); }
  }

  lemma DeliveredInOrder(s: System, s': System)
    requires Sound(s) && Sound(s') && InOrder(s) && s'.arrived == s.arrived && |s.handed| < |s.arrived|
    requires s'.handed == s.handed + [Dropped] || s'.handed == s.handed + [HandedOver(s.arrived[|s.handed|].Payload())]
    ensures InOrder(s')
  {}

  lemma SameHolds(s: System, s': System)
    requires Sound(s) && Sound(s') && s'.table == s.table && s'.buffers == s.buffers
    ensures forall i: nat, frame: Arrival | i < |s.table| && frame.Fits() :: Holds(s', i, frame) == Holds(s, i, frame)
  {}

  lemma ReturnedAt(s: System, k: nat)
    requires Inv(s) && s.held.Frame? && s.held.copied && k < |s.table|
    ensures var s', p, c := Do(s, GiveBack), Place(s.get, k, |s.table|), CpuOwned(s);
      && s'.table[p].own == (k >= c - 1)
      && (k < c - 1 ==> Holds(s', p, s.arrived[|s.arrived| - (c - 1) + k]))
  {
    hide Place;
    var n, c, first := |s.table|, CpuOwned(s), s.held.descriptor;
    PlacesDiffer(first, 0, k, n);
    PlacesDiffer(first, if k + 1 < n then k + 1 else 0, 0, n);
    var p := Place(s.get, k, n);
    assert s.get == Place(first, 0 + 1, n) == Next(first, n);
    assert p == Place(first, k + 1, n) && (p == first <==> k + 1 == n);
    assert k + 1 == n || s.table[Place(first, k + 1, n)].own == (k + 1 >= c);
    assert k + 1 >= c || Holds(s, Place(first, k + 1, n), s.arrived[|s.arrived| - c + (k + 1)]);
  }

  lemma GivenBack(s: System)
    requires Inv(s) && s.held.Frame? && s.held.copied
    ensures var s' := Do(s, GiveBack);
      && |s'.table| == |s.table| && s'.get == s.get && s'.held.Nothing? && s'.handed == s.handed && s'.arrived == s.arrived
      && s'.dma == Place(s.get, CpuOwned(s) - 1, |s.table|) && s'.get == Place(s.get, 0, |s.table|)
  {
    PlacesDiffer(s.held.descriptor, CpuOwned(s) - 1, 0, |s.table|);
    PlacesDiffer(s.held.descriptor, 0, 0, |s.table|);
  }

  lemma GiveBackKeeps(s: System)
    requires Inv(s)
    ensures Inv(Do(s, GiveBack))
  {
    hide Do, Holds, Place, Chained;
    var n, c := |s.table|, CpuOwned(s);
    var s' := Do(s, GiveBack);
    if s.held.Frame? && s.held.copied {
      GivenBack(s);
      forall k | 0 <= k < n
        ensures s'.table[Place(s.get, k, n)].own == (k >= c - 1)
        ensures k < c - 1 ==> Holds(s', Place(s.get, k, n), s.arrived[|s.arrived| - (c - 1) + k])
      {
        ReturnedAt(s, k);
      }
    } else {
      NothingToGiveBack(s);
    }
  }

  lemma NothingToGiveBack(s: System)
    requires Sound(s) && !(s.held.Frame? && s.held.copied)
    ensures Do(s, GiveBack) == s
  {}

  lemma StepKeeps(s: System, step: Step)
    requires Inv(s) && (step.Receive? ==> step.frame.Fits())
    ensures Inv(Do(s, step))
  {
    match step
    case Receive(frame) => ReceiveKeeps(s, frame);
    case Take => TakeKeeps(s);
    case CopyOut(available) => CopyKeeps(s, available);
    case GiveBack => GiveBackKeeps(s);
  }

  lemma {:induction false} RunKeeps(s: System, steps: seq<Step>)
    requires Inv(s) && forall j | 0 <= j < |steps| :: steps[j].Receive? ==> steps[j].frame.Fits()
    ensures Inv(Run(s, steps))
    decreases |steps|
  {
    if steps != [] {
      StepKeeps(s, steps[0]);
      RunKeeps(Do(s, steps[0]), steps[1..]);
    }
  }

  /**
   In every ring and every interleaving: each frame that arrived was handed
   over once and in order, or dropped for want of a buffer in its turn, or is
   still in the ring, at most one per descriptor; the driver finds nothing to
   take exactly when the ring is empty; and the DMA finds no room exactly when
   all descriptors are the CPU's. Nothing is dropped unless a buffer is wanting.
   */
  lemma FramesAreHandedOverInOrder(n: nat, steps: seq<Step>)
    requires n > 0 && forall j | 0 <= j < |steps| :: steps[j].Receive? ==> steps[j].frame.Fits()
    ensures var s := Run(Init(n), steps);
      && |s.table| == n && |s.handed| <= |s.arrived| <= |s.handed| + n
      && (forall j | 0 <= j < |s.handed| :: s.handed[j].Dropped? || s.handed[j].bytes == s.arrived[j].Payload())
      && (CopyOut(false) !in steps ==> Dropped !in s.handed)
      && (s.held.Nothing? ==> (s.table[s.get].own <==> |s.handed| == |s.arrived|))
      && (s.table[s.dma].own <==> CpuOwned(s) < n)
      && (forall i | 0 <= i < n :: s.table[i].own <==> Distance(Oldest(s), i, n) >= CpuOwned(s))
  {
    InitInv(n);
    RunKeeps(Init(n), steps);
    RunKeepsSize(Init(n), steps);
    RunDropsNone(Init(n), steps);
    var s := Run(Init(n), steps);
    FullMeansNoneOwned(s);
    PlacesDiffer(Oldest(s), 0, 0, n);
    forall i | 0 <= i < n
      ensures s.table[i].own <==> Distance(Oldest(s), i, n) >= CpuOwned(s)
    {
      assert Place(Oldest(s), Distance(Oldest(s), i, n), n) == i;
    }
    assert s.held.Frame? || s.table[Place(s.get, 0, n)].own == (0 >= CpuOwned(s));
  }

  lemma {:induction false} RunDropsNone(s: System, steps: seq<Step>)
    requires Sound(s) && forall j | 0 <= j < |steps| :: steps[j].Receive? ==> steps[j].frame.Fits()
    requires Dropped !in s.handed
    ensures CopyOut(false) !in steps ==> Dropped !in Run(s, steps).handed
    decreases |steps|
  {
    if steps != [] && CopyOut(false) !in steps {
      StepDropsNone(s, steps[0]);
      RunDropsNone(Do(s, steps[0]), steps[1..]);
    }
  }

  lemma StepDropsNone(s: System, step: Step)
    requires Sound(s) && (step.Receive? ==> step.frame.Fits()) && Dropped !in s.handed && step != CopyOut(false)
    ensures Dropped !in Do(s, step).handed
  {}

  lemma {:induction false} RunKeepsSize(s: System, steps: seq<Step>)
    requires Sound(s) && forall j | 0 <= j < |steps| :: steps[j].Receive? ==> steps[j].frame.Fits()
    ensures |Run(s, steps).table| == |s.table|
    decreases |steps|
  {
    if steps != [] { RunKeepsSize(Do(s, steps[0]), steps[1..]); }
  }

  /** The address of a buffer; none is given for a faulty frame. */
  datatype Address = NullAddress | BufferAddress(index: nat)

  /** What taking a packet gives: no descriptor when the DMA owns the next one. */
  datatype FrameInfo = NoFrame | FrameInfo(length: nat, buffer: Address, descriptor: nat)

  function AddressIn(d: Descriptor): Address {
    if !d.es && d.ls && d.fs then BufferAddress(d.buffer) else NullAddress
  }

  function Sum(sizes: seq<nat>): nat {
    if sizes == [] then 0 else Sum(sizes[..|sizes| - 1]) + sizes[|sizes| - 1]
  }

  lemma {:induction false} SumGrows(sizes: seq<nat>, k: nat)
    requires k <= |sizes|
    ensures Sum(sizes[..k]) <= Sum(sizes)
    decreases |sizes| - k
  {
    if k < |sizes| {
      SumGrows(sizes, k + 1);
      assert sizes[..k + 1][..k] == sizes[..k];
    } else {
      assert sizes[..k] == sizes;
    }
  }

  lemma StartOfParts(sizes: seq<nat>)
    ensures Sum(sizes[..0]) == 0 <= Sum(sizes) && Flat([]) == []
  {}

  lemma SumTo(sizes: seq<nat>, k: nat)
    requires k < |sizes|
    ensures Sum(sizes[..k + 1]) == Sum(sizes[..k]) + sizes[k]
  {
    assert sizes[..k + 1][..k] == sizes[..k];
  }

  lemma FlatMore(parts: seq<seq<byte>>, part: seq<byte>)
    ensures Flat(parts + [part]) == Flat(parts) + part
  {
    assert (parts + [part])[..|parts|] == parts;
  }

  /** The driver's part, on the table and the buffers in place. */
  class Receiver {
    const table: array<Descriptor>
    const buffers: array<Buffer>
    var toGet: nat

    ghost predicate Shows(s: System)
      reads this, table, buffers
    {
      Sound(s) && table[..] == s.table && buffers[..] == s.buffers && toGet == s.get
    }

    constructor ChainInit(n: nat)
      requires n > 0
      ensures fresh(table) && fresh(buffers) && Shows(Init(n))
    {
      table := new Descriptor[n](_ => Descriptor(false, false, false, false, 0, 0, 0));
      buffers := new Buffer[n](_ => seq(MAX_PACKET_SIZE, _ => 0));
      toGet := 0;
      new;
      for i := 0 to n
        invariant fresh(table) && fresh(buffers) && toGet == 0 && buffers[..] == Init(n).buffers
        invariant forall j | 0 <= j < i :: table[j] == Init(n).table[j]
      {
        table[i] := Descriptor(true, false, false, false, 0, i, if i < n - 1 then i + 1 else 0);
      }
      assert table[..] == Init(n).table;
    }

    /** Take: nothing changes while the DMA owns the next descriptor, else it is the driver's and the pointer moves on. */
    method RxPkt(ghost s: System) returns (frame: FrameInfo)
      requires Shows(s) && s.held.Nothing?
      modifies `toGet
      ensures Inv(s) && frame.FrameInfo? ==>
        && |s.handed| < |s.arrived| && (frame.buffer.NullAddress? <==> !s.arrived[|s.handed|].Whole())
      ensures Shows(Do(s, Take))
      ensures if s.table[s.get].own then frame == NoFrame else
        frame.FrameInfo? && Do(s, Take).held == Frame(frame.descriptor, frame.length, false) && frame.buffer == AddressIn(s.table[s.get])
    {
      if Inv(s) && !s.table[s.get].own { InputRun(s, true); }
      var d := table[toGet];
      if d.own {
        return NoFrame;
      }
      var framelength, buffer := 0, NullAddress;
      if !d.es && d.ls && d.fs {
        framelength := d.length - 4;
        buffer := BufferAddress(d.buffer);
      }
      frame := FrameInfo(framelength, buffer, toGet);
      toGet := d.next;
    }

    /** The frame's bytes spread over the parts of a buffer chain; in a row again, they are the frame. */
    method CopyParts(buffer: Address, sizes: seq<nat>) returns (parts: seq<seq<byte>>)
      requires if buffer.NullAddress? then Sum(sizes) == 0 else buffer.index < buffers.Length && Sum(sizes) <= MAX_PACKET_SIZE
      ensures |parts| == |sizes| && forall k | 0 <= k < |parts| :: |parts[k]| == sizes[k]
      ensures Flat(parts) == if buffer.NullAddress? then [] else buffers[buffer.index][..Sum(sizes)]
    {
      hide Sum, Flat;
      parts := [];
      var l := 0;
      StartOfParts(sizes);
      for k := 0 to |sizes|
        invariant l == Sum(sizes[..k]) <= Sum(sizes) && |parts| == k
        invariant forall j | 0 <= j < k :: |parts[j]| == sizes[j]
        invariant Flat(parts) == if buffer.NullAddress? then [] else buffers[buffer.index][..l]
      {
        SumGrows(sizes, k + 1);
        SumTo(sizes, k);
        var part := if buffer.NullAddress? then [] else buffers[buffer.index][l..l + sizes[k]];
        FlatMore(parts, part);
        parts, l := parts + [part], l + sizes[k];
      }
      assert sizes[..|sizes|] == sizes;
    }

    method Return(ghost s: System, descriptor: nat)
      requires Shows(s) && s.held.Frame? && s.held.copied && descriptor == s.held.descriptor
      modifies table
      ensures Shows(Do(s, GiveBack))
    {
      table[descriptor] := Returned(table[descriptor]);
    }

    /**
     One frame from the ring, and its descriptor back to the DMA. With a chain
     of buffer parts available, of the sizes given, the frame is copied into it;
     without one there is nothing to return and the frame is dropped.
     */
    method LowLevelInput(ghost s: System, available: bool, sizes: seq<nat>) returns (parts: seq<seq<byte>>)
      requires Inv(s) && Shows(s) && s.held.Nothing? && !s.table[s.get].own
      requires available ==> Sum(sizes) == Do(s, Take).held.length
      modifies this`toGet, table
      ensures Shows(Run(s, [Take, CopyOut(available), GiveBack]))
      ensures |s.handed| < |s.arrived|
      ensures if available then Flat(parts) == s.arrived[|s.handed|].Payload() else parts == []
    {
      InputRun(s, available);
      var frame := RxPkt(s);
      ghost var s1 := Do(s, Take);
      parts := [];
      if available {
        parts := CopyParts(frame.buffer, sizes);
      }
      Return(Do(s1, CopyOut(available)), frame.descriptor);
    }
  }

  lemma InputRun(s: System, available: bool)
    requires Inv(s) && s.held.Nothing? && !s.table[s.get].own
    ensures var s1, s2 := Do(s, Take), Do(Do(s, Take), CopyOut(available));
      && Run(s, [Take, CopyOut(available), GiveBack]) == Do(s2, GiveBack)
      && s1.held.Frame? && s2.held == s1.held.(copied := true)
      && |s.handed| < |s.arrived|
      && s.buffers[s.table[s.get].buffer][..s1.held.length] == s.arrived[|s.handed|].Payload()
      && (AddressIn(s.table[s.get]).NullAddress? <==> !s.arrived[|s.handed|].Whole())
      && (AddressIn(s.table[s.get]).NullAddress? ==> s1.held.length == 0)
  {
    hide Run, Holds, Contiguous, InOrder;
    TakeKeeps(s);
    HeldIsOldest(Do(s, Take));
    RunThree(s, Take, CopyOut(available), GiveBack);
  }

  lemma RunThree(s: System, a: Step, b: Step, c: Step)
    requires Sound(s) && !a.Receive? && !b.Receive? && !c.Receive?
    ensures Run(s, [a, b, c]) == Do(Do(Do(s, a), b), c)
  {
    hide Do, Sound;
    assert [a, b, c] == [a] + [b, c] && [b, c] == [b] + [c] && [c] == [c] + [];
    RunOne(s, a, [b, c]);
    RunOne(Do(s, a), b, [c]);
    RunOne(Do(Do(s, a), b), c, []);
  }

  lemma RunOne(s: System, a: Step, rest: seq<Step>)
    requires Sound(s) && !a.Receive? && forall j | 0 <= j < |rest| :: !rest[j].Receive?
    ensures Run(s, [a] + rest) == Run(Do(s, a), rest)
    ensures rest == [] ==> Run(s, [a]) == Do(s, a)
  {
    hide Do, Sound;
    assert ([a] + rest)[1..] == rest;
    assert rest == [] ==> [a] + rest == [a];
  }
}

/** The transmit side: frames are put into the next buffer and handed to the DMA, which sends them. */
module TransmitRing {
  import opened Types
  import opened DescriptorRings

  datatype Pending = Nothing | Filled(bytes: seq<byte>)

  /** The table, the buffers, both sides' pointers and what was filled in; what was accepted, and what was sent: frames that
      ended, and the beginning of one that did not. */
  datatype System = System(
    table: seq<Descriptor>, buffers: seq<Buffer>, put: nat, dma: nat, filled: Pending,
    accepted: seq<seq<byte>>, sent: seq<seq<byte>>, begun: seq<byte>)

  datatype Step = Fill(bytes: seq<byte>) | Submit | Transmit

  predicate Sound(s: System) {
    && Chained(s.table, s.buffers) && s.put < |s.table| && s.dma < |s.table|
    && (forall i | 0 <= i < |s.table| :: s.table[i].length <= MAX_PACKET_SIZE)
    && (s.filled.Filled? ==> |s.filled.bytes| <= MAX_PACKET_SIZE)
  }

  predicate Fits(step: Step) { step.Fill? ==> |step.bytes| <= MAX_PACKET_SIZE }

  function Init(n: nat): (s: System)
    requires n > 0
    ensures Sound(s)
  {
    System(seq(n, (i: nat) requires i < n => Descriptor(false, false, false, false, 0, i, Next(i, n))),
           seq(n, _ => seq(MAX_PACKET_SIZE, _ => 0)), 0, 0, Nothing, [], [], [])
  }

  /** Handed to the DMA as a frame of one segment. */
  function Submitted(d: Descriptor, length: nat): Descriptor {
    d.(own := true, ls := true, fs := true, length := length)
  }

  /** The driver fills the next buffer before it looks whose it is, and submits after; the DMA sends what it
      owns, from a first segment to a last one. */
  function Do(s: System, step: Step): (s': System)
    requires Sound(s) && Fits(step)
    ensures Sound(s')
  {
    match step
    case Fill(bytes) =>
      if s.filled.Nothing? then
        var b := s.table[s.put].buffer;
        s.(buffers := s.buffers[b := Copied(s.buffers[b], bytes)], filled := Filled(bytes))
      else s
    case Submit =>
      if s.filled.Nothing? then s
      else if s.table[s.put].own then s.(filled := Nothing)
      else s.(table := s.table[s.put := Submitted(s.table[s.put], |s.filled.bytes|)], put := s.table[s.put].next,
              filled := Nothing, accepted := s.accepted + [s.filled.bytes])
    case Transmit =>
      var d := s.table[s.dma];
      if d.own then
        var part := s.buffers[d.buffer][..d.length];
        var bytes := if d.fs then part else s.begun + part;
        s.(table := s.table[s.dma := d.(own := false)], dma := d.next,
           begun := if d.ls then [] else bytes, sent := if d.ls then s.sent + [bytes] else s.sent)
      else s
  }

  function Run(s: System, steps: seq<Step>): (s': System)
    requires Sound(s) && forall j | 0 <= j < |steps| :: Fits(steps[j])
    ensures Sound(s')
    decreases |steps|
  {
    if steps == [] then s else Run(Do(s, steps[0]), steps[1..])
  }

  function Outstanding(s: System): int { |s.accepted| - |s.sent| }

  predicate Holds(s: System, i: nat, bytes: seq<byte>)
    requires Sound(s) && i < |s.table|
  {
    s.table[i].length == |bytes| && s.buffers[i][..s.table[i].length] == bytes
  }

  /** The DMA's descriptors are the run from where it is to where the driver puts the next frame, holding what is not sent yet. */
  ghost predicate Waiting(s: System)
    requires Sound(s)
  {
    && 0 <= Outstanding(s) <= |s.table|
    && s.put == Place(s.dma, Outstanding(s), |s.table|)
    && (forall k | 0 <= k < |s.table| :: s.table[Place(s.dma, k, |s.table|)].own == (k < Outstanding(s)))
    && (forall k | 0 <= k < Outstanding(s) :: Holds(s, Place(s.dma, k, |s.table|), s.accepted[|s.sent| + k]))
  }

  /** Whatever the DMA owns begins and ends a frame. */
  predicate WholeFrames(s: System) {
    forall i | 0 <= i < |s.table| && s.table[i].own :: s.table[i].fs && s.table[i].ls
  }

  ghost predicate Inv(s: System) {
    && Sound(s) && Waiting(s) && WholeFrames(s) && s.sent == s.accepted[..|s.sent|] && s.begun == []
    && (s.filled.Filled? ==> s.buffers[s.put][..|s.filled.bytes|] == s.filled.bytes)
  }

  lemma InitInv(n: nat)
    requires n > 0
    ensures Inv(Init(n))
  {}

  lemma OwnedExactlyWhenFull(s: System)
    requires Inv(s)
    ensures s.table[s.put].own <==> Outstanding(s) == |s.table|
    ensures s.table[s.dma].own <==> Outstanding(s) > 0
  {
    var n := |s.table|;
    PlacesDiffer(s.dma, 0, 0, n);
    assert s.table[Place(s.dma, 0, n)].own == (0 < Outstanding(s));
    assert Outstanding(s) == n || s.table[Place(s.dma, Outstanding(s), n)].own == (Outstanding(s) < Outstanding(s));
  }

  lemma SubmittedAt(s: System, k: nat)
    requires Inv(s) && s.filled.Filled? && !s.table[s.put].own && Outstanding(s) < |s.table| && k < |s.table|
    ensures var s', p, c := Do(s, Submit), Place(s.dma, k, |s.table|), Outstanding(s);
      && s'.table[p].own == (k < c + 1)
      && (k < c ==> Holds(s', p, s.accepted[|s.sent| + k]))
      && (k == c ==> Holds(s', p, s.filled.bytes))
  {
    var n, c := |s.table|, Outstanding(s);
    PlacesDiffer(s.dma, k, c, n);
    assert s.table[Place(s.dma, k, n)].own == (k < c);
    assert k >= c || Holds(s, Place(s.dma, k, n), s.accepted[|s.sent| + k]);
  }

  lemma Accepted(s: System)
    requires Inv(s) && s.filled.Filled? && !s.table[s.put].own && Outstanding(s) < |s.table|
    ensures var s' := Do(s, Submit);
      && |s'.table| == |s.table| && s'.dma == s.dma && s'.sent == s.sent && s'.filled.Nothing?
      && WholeFrames(s') && s'.begun == s.begun
      && s'.accepted == s.accepted + [s.filled.bytes]
      && s'.put == Place(s.dma, Outstanding(s) + 1, |s.table|)
  {
    PlacesDiffer(s.dma, Outstanding(s), 0, |s.table|);
    PlacesDiffer(s.dma, 0, Outstanding(s), |s.table|);
  }

  lemma NotAccepted(s: System)
    requires Inv(s) && (s.filled.Nothing? || s.table[s.put].own)
    ensures Inv(Do(s, Submit))
  {}

  lemma SubmitKeeps(s: System)
    requires Inv(s)
    ensures Inv(Do(s, Submit))
  {
    hide Do, Holds, Place, Chained;
    var n, c := |s.table|, Outstanding(s);
    var s' := Do(s, Submit);
    if s.filled.Filled? && !s.table[s.put].own {
      OwnedExactlyWhenFull(s);
      Accepted(s);
      forall k | 0 <= k < n
        ensures s'.table[Place(s.dma, k, n)].own == (k < c + 1)
        ensures k < c + 1 ==> Holds(s', Place(s.dma, k, n), s'.accepted[|s.sent| + k])
      {
        SubmittedAt(s, k);
      }
    } else {
      NotAccepted(s);
    }
  }

  lemma SentAt(s: System, k: nat)
    requires Inv(s) && s.table[s.dma].own && k < |s.table|
    ensures var s', p, c := Do(s, Transmit), Place(Next(s.dma, |s.table|), k, |s.table|), Outstanding(s);
      && s'.table[p].own == (k < c - 1)
      && (k < c - 1 ==> Holds(s', p, s.accepted[|s.sent| + 1 + k]))
  {
    hide Place;
    var n, c := |s.table|, Outstanding(s);
    PlacesDiffer(s.dma, 0, k, n);
    PlacesDiffer(s.dma, if k + 1 < n then k + 1 else 0, 0, n);
    OwnedExactlyWhenFull(s);
    var p := Place(s.dma, k + 1, n);
    assert p == s.dma <==> k + 1 == n;
    assert k + 1 == n || s.table[p].own == (k + 1 < c);
    assert k + 1 >= c || Holds(s, p, s.accepted[|s.sent| + (k + 1)]);
  }

  lemma Sent(s: System)
    requires Inv(s) && s.table[s.dma].own
    ensures var s', c := Do(s, Transmit), Outstanding(s);
      && 0 < c && |s'.table| == |s.table| && s'.dma == Next(s.dma, |s.table|) && s'.put == s.put && s'.filled == s.filled
      && s'.buffers == s.buffers && s'.accepted == s.accepted && s'.sent == s.accepted[..|s.sent| + 1]
      && s'.put == Place(s'.dma, c - 1, |s.table|) && WholeFrames(s') && s'.begun == []
  {
    var n := |s.table|;
    OwnedExactlyWhenFull(s);
    PlacesDiffer(s.dma, 0, 0, n);
    assert Holds(s, Place(s.dma, 0, n), s.accepted[|s.sent| + 0]);
    assert s.accepted[..|s.sent|] + [s.accepted[|s.sent|]] == s.accepted[..|s.sent| + 1];
  }

  lemma TransmitKeeps(s: System)
    requires Inv(s)
    ensures Inv(Do(s, Transmit))
  {
    hide Do, Holds, Place, Chained;
    var n, c := |s.table|, Outstanding(s);
    var s' := Do(s, Transmit);
    if s.table[s.dma].own {
      Sent(s);
      forall k | 0 <= k < n
        ensures s'.table[Place(s'.dma, k, n)].own == (k < c - 1)
        ensures k < c - 1 ==> Holds(s', Place(s'.dma, k, n), s.accepted[|s.sent| + 1 + k])
      {
        SentAt(s, k);
      }
    } else {
      NothingSent(s);
    }
  }

  lemma NothingSent(s: System)
    requires Sound(s) && !s.table[s.dma].own
    ensures Do(s, Transmit) == s
  {}

  /** The driver's next buffer is its own, or filling it leaves the frame that waits there as it is. */
  predicate SafeToFill(s: System, bytes: seq<byte>)
    requires Sound(s)
  {
    s.table[s.put].own ==>
      forall j | 0 <= j < Min(|bytes|, s.table[s.put].length) :: bytes[j] == s.buffers[s.put][j]
  }

  /** Filling without looking first keeps the frames in order exactly when it was safe. */
  lemma FillKeepsExactly(s: System, bytes: seq<byte>)
    requires Inv(s) && s.filled.Nothing? && |bytes| <= MAX_PACKET_SIZE
    ensures Inv(Do(s, Fill(bytes))) <==> SafeToFill(s, bytes)
  {
    var n, c, s' := |s.table|, Outstanding(s), Do(s, Fill(bytes));
    OwnedExactlyWhenFull(s);
    PlacesDiffer(s.dma, 0, 0, n);
    CopiedPrefix(s.buffers[s.put], bytes);
    if SafeToFill(s, bytes) {
      forall k | 0 <= k < c
        ensures Holds(s', Place(s.dma, k, n), s.accepted[|s.sent| + k])
      {
        FillLeaves(s, bytes, k);
      }
    } else {
      FillSpoils(s, bytes);
    }
  }

  lemma FillLeaves(s: System, bytes: seq<byte>, k: nat)
    requires Inv(s) && s.filled.Nothing? && |bytes| <= MAX_PACKET_SIZE && SafeToFill(s, bytes) && k < Outstanding(s)
    ensures Holds(Do(s, Fill(bytes)), Place(s.dma, k, |s.table|), s.accepted[|s.sent| + k])
  {
    var n := |s.table|;
    var p, frame, s' := Place(s.dma, k, n), s.accepted[|s.sent| + k], Do(s, Fill(bytes));
    assert Holds(s, p, frame) && s.table[p].own;
    assert s'.buffers[p][..|frame|] == s.buffers[p][..|frame|];
  }

  lemma FillSpoils(s: System, bytes: seq<byte>)
    requires Inv(s) && s.filled.Nothing? && |bytes| <= MAX_PACKET_SIZE && !SafeToFill(s, bytes)
    ensures !Holds(Do(s, Fill(bytes)), Place(s.dma, 0, |s.table|), s.accepted[|s.sent|])
    ensures Outstanding(s) == |s.table| && !Inv(Do(s, Fill(bytes)))
  {
    var n, s' := |s.table|, Do(s, Fill(bytes));
    OwnedExactlyWhenFull(s);
    PlacesDiffer(s.dma, 0, 0, n);
    assert Holds(s, Place(s.dma, 0, n), s.accepted[|s.sent| + 0]);
    var j :| 0 <= j < Min(|bytes|, s.table[s.put].length) && bytes[j] != s.buffers[s.put][j];
    assert s.accepted[|s.sent|][j] == s.buffers[s.put][..s.table[s.put].length][j];
    assert s'.buffers[s.put][..s.table[s.put].length][j] == bytes[j];
    assert Waiting(s') ==> Holds(s', Place(s'.dma, 0, n), s'.accepted[|s'.sent| + 0]);
  }

  /** Every fill of a run happens where it is safe. */
  predicate Careful(s: System, steps: seq<Step>)
    requires Sound(s) && forall j | 0 <= j < |steps| :: Fits(steps[j])
    decreases |steps|
  {
    steps == [] ||
    ((steps[0].Fill? && s.filled.Nothing? ==> SafeToFill(s, steps[0].bytes)) && Careful(Do(s, steps[0]), steps[1..]))
  }

  lemma {:induction false} RunKeeps(s: System, steps: seq<Step>)
    requires Inv(s) && (forall j | 0 <= j < |steps| :: Fits(steps[j])) && Careful(s, steps)
    ensures Inv(Run(s, steps)) && |Run(s, steps).table| == |s.table|
    decreases |steps|
  {
    if steps != [] {
      match steps[0] {
        case Fill(bytes) => if s.filled.Nothing? { FillKeepsExactly(s, bytes); }
        case Submit => SubmitKeeps(s);
        case Transmit => TransmitKeeps(s);
      }
      RunKeeps(Do(s, steps[0]), steps[1..]);
    }
  }

  /**
   In every ring and every interleaving that fills carefully, what was sent and
   what waits is what was accepted, in that order; at most one frame per
   descriptor waits, and a frame is refused exactly when that many do.
   */
  lemma FramesLeaveInOrder(n: nat, steps: seq<Step>)
    requires n > 0 && (forall j | 0 <= j < |steps| :: Fits(steps[j])) && Careful(Init(n), steps)
    ensures var s := Run(Init(n), steps);
      && |s.table| == n && |s.sent| <= |s.accepted| <= |s.sent| + n
      && s.sent == s.accepted[..|s.sent|]
      && (s.table[s.put].own <==> |s.accepted| == |s.sent| + n)
      && (forall k | 0 <= k < Outstanding(s) :: Holds(s, Place(s.dma, k, n), s.accepted[|s.sent| + k]))
      && WholeFrames(s) && s.begun == []
  {
    InitInv(n);
    RunKeeps(Init(n), steps);
    OwnedExactlyWhenFull(Run(Init(n), steps));
  }

  /** With every descriptor waiting, the frame sent next is the one filled in over it, which is then refused. */
  lemma {:induction false} OverwrittenFrameIsSent(s: System, bytes: seq<byte>)
    requires Inv(s) && s.filled.Nothing? && Outstanding(s) == |s.table| && |bytes| == s.table[s.put].length
    ensures var s' := Run(s, [Fill(bytes), Submit, Transmit]);
      s'.accepted == s.accepted && s'.sent == s.sent + [bytes]
  {
    OwnedExactlyWhenFull(s);
    PlacesDiffer(s.dma, 0, 0, |s.table|);
    CopiedPrefix(s.buffers[s.put], bytes);
    var steps := [Fill(bytes), Submit, Transmit];
    assert steps[1..] == [Submit, Transmit] && steps[1..][1..] == [Transmit] && steps[1..][1..][1..] == [];
    var s1 := Do(s, Fill(bytes));
    var s2 := Do(s1, Submit);
    assert Run(s, steps) == Run(s1, [Submit, Transmit]) == Run(s2, [Transmit]) == Do(s2, Transmit);
  }

  /** The driver's part, on the table and the buffers in place. */
  class Transmitter {
    const table: array<Descriptor>
    const buffers: array<Buffer>
    var toSet: nat

    ghost predicate Shows(s: System)
      reads this, table, buffers
    {
      Sound(s) && table[..] == s.table && buffers[..] == s.buffers && toSet == s.put
    }

    constructor ChainInit(n: nat)
      requires n > 0
      ensures fresh(table) && fresh(buffers) && Shows(Init(n))
    {
      table := new Descriptor[n](_ => Descriptor(true, false, false, false, 0, 0, 0));
      buffers := new Buffer[n](_ => seq(MAX_PACKET_SIZE, _ => 0));
      toSet := 0;
      new;
      for i := 0 to n
        invariant fresh(table) && fresh(buffers) && toSet == 0 && buffers[..] == Init(n).buffers
        invariant forall j | 0 <= j < i :: table[j] == Init(n).table[j]
      {
        table[i] := Descriptor(false, false, false, false, 0, i, if i < n - 1 then i + 1 else 0);
      }
      assert table[..] == Init(n).table;
    }

    method FillParts(ghost s: System, parts: seq<seq<byte>>) returns (l: nat)
      requires Shows(s) && s.filled.Nothing? && |Flat(parts)| <= MAX_PACKET_SIZE
      modifies buffers
      ensures l == |Flat(parts)| && Shows(Do(s, Fill(Flat(parts))))
    {
      var b := table[toSet].buffer;
      l := 0;
      assert parts[..0] == [] && Copied(s.buffers[b], []) == s.buffers[b];
      for k := 0 to |parts|
        invariant l == |Flat(parts[..k])| && l <= MAX_PACKET_SIZE
        invariant buffers[..] == s.buffers[b := Copied(s.buffers[b], Flat(parts[..k]))]
      {
        FlatGrows(parts, k + 1);
        assert parts[..k + 1][..k] == parts[..k];
        CopiedOn(s.buffers[b], Flat(parts[..k]), parts[k]);
        buffers[b] := buffers[b][..l] + parts[k] + buffers[b][l + |parts[k]|..];
        l := l + |parts[k]|;
      }
      assert parts[..|parts|] == parts;
    }

    /** Submit: refused while the DMA owns the next descriptor. */
    method TxPkt(ghost s: System, frameLength: nat) returns (success: bool)
      requires Shows(s) && s.filled.Filled? && frameLength == |s.filled.bytes|
      modifies table, `toSet
      ensures Shows(Do(s, Submit)) && success == !s.table[s.put].own
    {
      var d := table[toSet];
      if d.own {
        return false;
      }
      d := d.(length := frameLength % 0x2000);
      d := d.(ls := true, fs := true);
      d := d.(own := true);
      table[toSet] := d;
      toSet := d.next;
      success := true;
    }

    /** A chain of parts as one frame: filled in and submitted, the outcome of the submission unseen. */
    method LowLevelOutput(ghost s: System, parts: seq<seq<byte>>)
      requires Shows(s) && s.filled.Nothing? && |Flat(parts)| <= MAX_PACKET_SIZE
      modifies this`toSet, table, buffers
      ensures Shows(Do(Do(s, Fill(Flat(parts))), Submit))
    {
      var l := FillParts(s, parts);
      var _ := TxPkt(Do(s, Fill(Flat(parts))), l);
    }
  }

  lemma {:induction false} FlatGrows(parts: seq<seq<byte>>, k: nat)
    requires k <= |parts|
    ensures |Flat(parts[..k])| <= |Flat(parts)|
    decreases |parts| - k
  {
    if k < |parts| {
      FlatGrows(parts, k + 1);
      assert parts[..k + 1][..k] == parts[..k];
    } else {
      assert parts[..k] == parts;
    }
  }

  lemma CopiedOn(b: Buffer, x: seq<byte>, y: seq<byte>)
    requires |x| + |y| <= MAX_PACKET_SIZE
    ensures Copied(b, x)[..|x|] + y + Copied(b, x)[|x| + |y|..] == Copied(b, x + y)
  {}
}
