/** Safety of the descriptor rings over every run and every interleaving. */
module NicTheorems {
  import opened Basics
  import opened NicModel
  import opened NicRing
  import opened NicInvariant

  // ----- Ownership and race freedom -----

  /** A descriptor of one of the two rings. */
  datatype Place = Tx(slot: nat) | Rx(slot: nat)

  /** Descriptors the driver has acquired by a load and not yet given up by a store. */
  function DriverHolds(s: System): (r: set<Place>) {
    match s.driver
    case SubmitWrite(_) => {Tx(s.nic.txSubmit)}
    case SubmitPublish(_) => {Tx(s.nic.txSubmit)}
    case ReclaimRead(_, _) => {Tx(s.nic.txReclaim)}
    case ReclaimRelease(_, _) => {Tx(s.nic.txReclaim)}
    case ReceiveRead(_) => {Rx(s.nic.rxConsume)}
    case ReceiveRelease(_) => {Rx(s.nic.rxConsume)}
    case _ => {}
  }

  /** Descriptors the device has acquired by a load and not yet given up by a store. */
  function DeviceHolds(s: System): (r: set<Place>) {
    (if HasFrame(s.device) then {Tx(s.nic.deviceTx)} else {}) +
    (if s.device.CopyFrame? || s.device.PublishRx? then {Rx(s.nic.deviceRx)} else {})
  }

  function OwnerOf(s: System, p: Place): (r: Owner)
    requires |s.nic.tx| > p.slot && |s.nic.rx| > p.slot
  {
    if p.Tx? then s.nic.tx[p.slot].owner else s.nic.rx[p.slot].owner
  }

  lemma DriverHoldsOwner(s: System, p: Place)
    requires Inv(s) && p in DriverHolds(s)
    ensures p.slot < s.nic.capacity && OwnerOf(s, p) != Device
  {
    SlotAt(s.nic.capacity, s.nic.txReclaim, 0, s.nic.txReclaim);
  }

  lemma DeviceHoldsOwner(s: System, p: Place)
    requires Inv(s) && p in DeviceHolds(s)
    ensures p.slot < s.nic.capacity && OwnerOf(s, p) == Device
  {
    if p.Tx? {
      SlotAt(s.nic.capacity, s.nic.txReclaim, DoneCount(s), s.nic.deviceTx);
    } else {
      SlotAt(s.nic.capacity, RxBase(s), RxCount(s), s.nic.deviceRx);
    }
  }

  /** No descriptor is ever in both threads' hands, for any ring size and any schedule. */
  lemma RaceFreedom(capacity: nat, events: seq<Event>)
    requires ValidCapacity(capacity)
    ensures var s := Run(Init(capacity), events);
      DriverHolds(s) !! DeviceHolds(s)
  {
    var s := Run(Init(capacity), events);
    InitHolds(capacity);
    RunKeepsInv(Init(capacity), events);
    forall p | p in DriverHolds(s) && p in DeviceHolds(s)
      ensures false
    {
      DriverHoldsOwner(s, p);
      DeviceHoldsOwner(s, p);
    }
  }

  // ----- The held sets are what the steps touch -----

  function ScribbleRing(ring: seq<Descriptor>, j: nat, frame: Frame, error: bool): (r: seq<Descriptor>)
    requires j < |ring|
  {
    ring[j := Descriptor(ring[j].owner, error, frame)]
  }

  /** s with the non-atomic fields of one descriptor overwritten. */
  function Scribble(s: System, p: Place, frame: Frame, error: bool): (r: System)
    requires |s.nic.tx| > p.slot && |s.nic.rx| > p.slot
  {
    if p.Tx? then s.(nic := s.nic.(tx := ScribbleRing(s.nic.tx, p.slot, frame, error)))
    else s.(nic := s.nic.(rx := ScribbleRing(s.nic.rx, p.slot, frame, error)))
  }

  lemma ScribbleOwner(ring: seq<Descriptor>, i: nat, owner: Owner, j: nat, frame: Frame, error: bool)
    requires i < |ring| && j < |ring|
    ensures SetOwner(ScribbleRing(ring, j, frame, error), i, owner) == ScribbleRing(SetOwner(ring, i, owner), j, frame, error)
  {
  }

  lemma ScribbleElsewhere(ring: seq<Descriptor>, i: nat, written: Frame, j: nat, frame: Frame, error: bool)
    requires i < |ring| && j < |ring| && i != j
    ensures ScribbleRing(ring, j, frame, error)[i] == ring[i]
    ensures Fill(ScribbleRing(ring, j, frame, error), i, written) == ScribbleRing(Fill(ring, i, written), j, frame, error)
    ensures MarkFault(ScribbleRing(ring, j, frame, error), i) == ScribbleRing(MarkFault(ring, i), j, frame, error)
  {
  }

  lemma SubmitTouchesOnlyHeld(s: System, p: Place, frame: Frame, error: bool)
    requires Shaped(s) && p.slot < MAX_RING && p !in DriverHolds(s)
    requires s.driver.SubmitLoad? || s.driver.SubmitWrite? || s.driver.SubmitPublish? || s.driver.SubmitAdvance?
    ensures StepDriver(Scribble(s, p, frame, error)) == Scribble(StepDriver(s), p, frame, error)
  {
    var n := s.nic;
    if p.Tx? {
      ScribbleOwner(n.tx, n.txSubmit, Device, p.slot, frame, error);
      if s.driver.SubmitWrite? {
        ScribbleElsewhere(n.tx, n.txSubmit, s.driver.packet, p.slot, frame, error);
      }
    }
  }

  lemma ReclaimTouchesOnlyHeld(s: System, p: Place, frame: Frame, error: bool)
    requires Shaped(s) && p.slot < MAX_RING && p !in DriverHolds(s)
    requires s.driver.ReclaimLoad? || s.driver.ReclaimRead? || s.driver.ReclaimRelease?
    ensures StepDriver(Scribble(s, p, frame, error)) == Scribble(StepDriver(s), p, frame, error)
  {
    if p.Tx? {
      ScribbleOwner(s.nic.tx, s.nic.txReclaim, Free, p.slot, frame, error);
    }
  }

  lemma ReceiveTouchesOnlyHeld(s: System, p: Place, frame: Frame, error: bool)
    requires Shaped(s) && p.slot < MAX_RING && p !in DriverHolds(s)
    requires s.driver.ReceiveLoad? || s.driver.ReceiveRead? || s.driver.ReceiveRelease? || s.driver.ReceiveAdvance?
    ensures StepDriver(Scribble(s, p, frame, error)) == Scribble(StepDriver(s), p, frame, error)
  {
    if p.Rx? {
      ScribbleOwner(s.nic.rx, s.nic.rxConsume, Device, p.slot, frame, error);
    }
  }

  /** A driver step neither reads nor writes the non-atomic fields of a descriptor the driver does not hold. */
  lemma DriverTouchesOnlyHeld(s: System, p: Place, frame: Frame, error: bool)
    requires Shaped(s) && p.slot < MAX_RING && p !in DriverHolds(s)
    ensures StepDriver(Scribble(s, p, frame, error)) == Scribble(StepDriver(s), p, frame, error)
  {
    match s.driver
    case DriverIdle | TakeExchange =>
    case SubmitLoad(_) | SubmitWrite(_) | SubmitPublish(_) | SubmitAdvance => SubmitTouchesOnlyHeld(s, p, frame, error);
    case ReclaimLoad(_, _) | ReclaimRead(_, _) | ReclaimRelease(_, _) => ReclaimTouchesOnlyHeld(s, p, frame, error);
    case ReceiveLoad(_) | ReceiveRead(_) | ReceiveRelease(_) | ReceiveAdvance(_) => ReceiveTouchesOnlyHeld(s, p, frame, error);
  }

  lemma LoadsTouchNothing(s: System, p: Place, frame: Frame, error: bool)
    requires Shaped(s) && p.slot < MAX_RING
    requires s.device.PollTx? || s.device.PollRx?
    ensures StepDevice(Scribble(s, p, frame, error)) == Scribble(StepDevice(s), p, frame, error)
  {
  }

  lemma FlagsTouchNothing(s: System, p: Place, frame: Frame, error: bool)
    requires Shaped(s) && p.slot < MAX_RING
    requires s.device.DeviceIdle? || s.device.TakeFault? || s.device.RaiseError? || s.device.RaiseRx? || s.device.RaiseTx?
    ensures StepDevice(Scribble(s, p, frame, error)) == Scribble(StepDevice(s), p, frame, error)
  {
  }

  lemma CountsTouchNothing(s: System, p: Place, frame: Frame, error: bool)
    requires Shaped(s) && p.slot < MAX_RING
    requires s.device.CountError? || s.device.CountNoBuffer? || s.device.CountRx? || s.device.CountTx?
    ensures StepDevice(Scribble(s, p, frame, error)) == Scribble(StepDevice(s), p, frame, error)
  {
  }

  lemma CursorsTouchNothing(s: System, p: Place, frame: Frame, error: bool)
    requires Shaped(s) && p.slot < MAX_RING
    requires s.device.AdvanceRx? || s.device.AdvanceTx?
    ensures StepDevice(Scribble(s, p, frame, error)) == Scribble(StepDevice(s), p, frame, error)
  {
  }

  lemma TxTouchesOnlyHeld(s: System, p: Place, frame: Frame, error: bool)
    requires Shaped(s) && p.slot < MAX_RING && p !in DeviceHolds(s)
    requires s.device.CheckTx? || s.device.MarkError? || s.device.CompleteTx?
    ensures StepDevice(Scribble(s, p, frame, error)) == Scribble(StepDevice(s), p, frame, error)
  {
    var n := s.nic;
    if p.Tx? {
      ScribbleOwner(n.tx, n.deviceTx, Done, p.slot, frame, error);
      ScribbleElsewhere(n.tx, n.deviceTx, [], p.slot, frame, error);
    }
  }

  lemma RxTouchesOnlyHeld(s: System, p: Place, frame: Frame, error: bool)
    requires Shaped(s) && p.slot < MAX_RING && p !in DeviceHolds(s) && (s.device.CopyFrame? || s.device.PublishRx?)
    ensures StepDevice(Scribble(s, p, frame, error)) == Scribble(StepDevice(s), p, frame, error)
  {
    var n := s.nic;
    if p.Rx? {
      ScribbleOwner(n.rx, n.deviceRx, Done, p.slot, frame, error);
      ScribbleElsewhere(n.rx, n.deviceRx, n.tx[n.deviceTx].frame, p.slot, frame, error);
    } else {
      ScribbleElsewhere(n.tx, n.deviceTx, [], p.slot, frame, error);
    }
  }

  /** Nor does a device step touch those of a descriptor the device does not hold. */
  lemma DeviceTouchesOnlyHeld(s: System, p: Place, frame: Frame, error: bool)
    requires Shaped(s) && p.slot < MAX_RING && p !in DeviceHolds(s)
    ensures StepDevice(Scribble(s, p, frame, error)) == Scribble(StepDevice(s), p, frame, error)
  {
    match s.device
    case PollTx | PollRx => LoadsTouchNothing(s, p, frame, error);
    case DeviceIdle | TakeFault | RaiseError | RaiseRx | RaiseTx => FlagsTouchNothing(s, p, frame, error);
    case CountError | CountNoBuffer | CountRx | CountTx => CountsTouchNothing(s, p, frame, error);
    case AdvanceRx | AdvanceTx => CursorsTouchNothing(s, p, frame, error);
    case CopyFrame | PublishRx => RxTouchesOnlyHeld(s, p, frame, error);
    case CheckTx(_) | MarkError | CompleteTx => TxTouchesOnlyHeld(s, p, frame, error);
  }

  /**
   Going round from the reclaim cursor, the TX slots are DONE up to the device cursor, the device's up to the
   submit cursor, and free from there on; the RX slots are DONE from the consume cursor to the device's, and
   the device's from there on. A cursor is one behind while its thread is between the owner store and moving it.
   */
  ghost predicate Partitioned(s: System) {
    var n := s.nic;
    && Shaped(s)
    && 0 <= DoneCount(s) <= Outstanding(s) <= n.capacity && 0 <= RxCount(s) <= n.capacity
    && 0 <= RxBase(s) < n.capacity
    && Owned(n.tx, n.capacity, n.txReclaim, DoneCount(s), Outstanding(s))
    && Owned(n.rx, n.capacity, RxBase(s), RxCount(s), n.capacity)
    && n.deviceTx == Wrap(n.txReclaim + DoneCount(s) - Unit(s.device == AdvanceTx), n.capacity)
    && n.txSubmit == Wrap(n.txReclaim + Outstanding(s) - Unit(s.driver == SubmitAdvance), n.capacity)
    && n.deviceRx == Wrap(RxBase(s) + RxCount(s) - Unit(s.device == AdvanceRx), n.capacity)
  }

  lemma InvPartitions(s: System)
    requires Shaped(s) && TxCounts(s) && TxRing(s) && RxCounts(s) && RxRing(s)
    ensures Partitioned(s)
  {
  }

  lemma OwnershipPartition(capacity: nat, events: seq<Event>)
    requires ValidCapacity(capacity)
    ensures var s := Run(Init(capacity), events); s.nic.capacity == capacity && Partitioned(s)
  {
    InitHolds(capacity);
    RunKeepsInv(Init(capacity), events);
    CapacityFixed(Init(capacity), events);
    InvPartitions(Run(Init(capacity), events));
  }

  lemma {:induction false} CapacityFixed(s: System, events: seq<Event>)
    requires Shaped(s)
    ensures Run(s, events).nic.capacity == s.nic.capacity
    decreases |events|
  {
    if events != [] {
      CapacityFixed(s, events[..|events| - 1]);
      var t := Run(s, events[..|events| - 1]);
      assert StepDriver(t).nic.capacity == t.nic.capacity;
      assert StepDevice(t).nic.capacity == t.nic.capacity;
    }
  }

  // ----- Loopback order and losses -----

  /** The frames waiting in the RX ring, read from the descriptors in ring order. */
  function WaitingFrames(s: System): (r: seq<Frame>)
    requires Shaped(s) && RxCounts(s)
  {
    FramesFrom(s.nic.rx, s.nic.capacity, RxBase(s), RxCount(s))
  }

  lemma WaitingAreDelivered(s: System)
    requires Inv(s)
    ensures WaitingFrames(s) == s.hist.delivered[|s.hist.received|..]
  {
    FramesFromLoaded(s.nic.rx, s.nic.capacity, RxBase(s), s.hist.delivered, |s.hist.received|, RxCount(s));
  }

  /** Received frames, then those waiting, are the processed submissions minus the faulted and the dropped. */
  lemma LoopbackIsFifo(capacity: nat, events: seq<Event>)
    requires ValidCapacity(capacity)
    ensures var s := Run(Init(capacity), events);
      && RxCounts(s) && |s.hist.outcomes| <= |s.hist.submitted|
      && s.hist.received + WaitingFrames(s) == Survivors(s.hist.submitted, s.hist.outcomes)
  {
    var s := Run(Init(capacity), events);
    InitHolds(capacity);
    RunKeepsInv(Init(capacity), events);
    WaitingAreDelivered(s);
    assert s.hist.delivered == s.hist.delivered[..|s.hist.received|] + s.hist.delivered[|s.hist.received|..];
  }

  /** A frame is dropped exactly when it finds as many frames waiting as the RX ring has slots. */
  lemma DropExact(capacity: nat, events: seq<Event>)
    requires ValidCapacity(capacity)
    ensures var s := Run(Init(capacity), events); var t := StepDevice(s);
      s.device.PollRx? ==>
        && (t.device.CountNoBuffer? <==> RxCount(s) == capacity)
        && (t.device.CountNoBuffer? <==> t.hist.outcomes == s.hist.outcomes + [NoBuffer])
        && (!t.device.CountNoBuffer? ==> t.device.CopyFrame? && t.hist == s.hist)
  {
    var s := Run(Init(capacity), events);
    InitHolds(capacity);
    RunKeepsInv(Init(capacity), events);
    CapacityFixed(Init(capacity), events);
    if s.device.PollRx? {
      PollRxDrops(s);
    }
  }

  lemma PollRxDrops(s: System)
    requires Shaped(s) && RxCounts(s) && RxRing(s) && s.device.PollRx?
    ensures s.nic.rx[s.nic.deviceRx].owner != Device <==> RxCount(s) == s.nic.capacity
  {
    if RxCount(s) < s.nic.capacity {
      SlotAt(s.nic.capacity, RxBase(s), RxCount(s), s.nic.deviceRx);
    } else {
      SlotAt(s.nic.capacity, RxBase(s), 0, s.nic.deviceRx);
    }
  }

  // ----- Counters -----

  /** At every device iteration boundary the books balance, and faults are bounded by injections. */
  lemma DeviceBooksBalance(capacity: nat, events: seq<Event>)
    requires ValidCapacity(capacity)
    ensures var s := Run(Init(capacity), events); var c := s.nic.stats;
      && (s.device.DeviceIdle? || s.device.PollTx? ==>
            && c.txCompleted == c.txErrors + c.rxCompleted + c.rxNoBuffer == |s.hist.outcomes|
            && c.txErrors == Count(s.hist.outcomes, Faulted)
            && c.rxNoBuffer == Count(s.hist.outcomes, NoBuffer)
            && c.rxCompleted == |s.hist.received| + RxCount(s))
      && c.txErrors <= s.hist.injections
  {
    InitHolds(capacity);
    RunKeepsInv(Init(capacity), events);
    var s := Run(Init(capacity), events);
    SurvivorCount(s.hist.submitted, s.hist.outcomes);
  }

  lemma {:induction false} SurvivorCount(frames: seq<Frame>, outcomes: seq<Outcome>)
    requires |outcomes| <= |frames|
    ensures |Survivors(frames, outcomes)| == Count(outcomes, Delivered)
  {
    if outcomes != [] {
      SurvivorCount(frames, outcomes[..|outcomes| - 1]);
    }
  }

  /** The bad-length test in the device never fires: only a taken fault leads to the error branch. */
  lemma BadLengthUnreachable(capacity: nat, events: seq<Event>)
    requires ValidCapacity(capacity)
    ensures var s := Run(Init(capacity), events);
      s.device.CheckTx? ==>
        && ValidPacket(s.nic.tx[s.nic.deviceTx].frame)
        && (StepDevice(s).device.MarkError? <==> s.device.fault)
  {
    var s := Run(Init(capacity), events);
    InitHolds(capacity);
    RunKeepsInv(Init(capacity), events);
    if s.device.CheckTx? {
      FrameInHandValid(s);
    }
  }

  // ----- Backpressure -----

  /** A submission is turned away exactly when `capacity` descriptors are unreclaimed. */
  lemma BackpressureExact(capacity: nat, events: seq<Event>)
    requires ValidCapacity(capacity)
    ensures var s := Run(Init(capacity), events); var s' := StepDriver(s);
      s.driver.SubmitLoad? ==>
        && (s'.driver == DriverIdle <==> Outstanding(s) == capacity)
        && (s'.driver == DriverIdle ==> s'.hist.results == s.hist.results + [SubmitFull] && s'.nic == s.nic)
  {
    var s := Run(Init(capacity), events);
    InitHolds(capacity);
    RunKeepsInv(Init(capacity), events);
    CapacityFixed(Init(capacity), events);
  }

  /** A receive into too small a buffer, or from an empty ring, leaves the device memory as it was. */
  lemma ShortReceiveKeepsFrame(s: System, room: nat)
    requires Inv(s) && s.driver == ReceiveRead(room)
    ensures var s' := StepDriver(s);
      s'.driver.DriverIdle? <==> room < |s.hist.delivered[|s.hist.received|]|
    ensures var s' := StepDriver(s);
      s'.driver.DriverIdle? ==> s'.nic == s.nic && s'.hist == s.hist.(results := s.hist.results + [ReceiveTooSmall])
  {
    SlotAt(s.nic.capacity, s.nic.rxConsume, 0, s.nic.rxConsume);
  }

  // ----- Interrupts -----

  predicate HasDone(ring: seq<Descriptor>, capacity: nat)
    requires capacity <= |ring|
  {
    exists i :: 0 <= i < capacity && ring[i].owner == Done
  }

  /** Reclaim stops early only at a slot that is not DONE, and its cap is never the reason one is left. */
  lemma ReclaimReallyDrains(s: System)
    requires Inv(s) && s.driver.ReclaimLoad? && StepDriver(s).driver.DriverIdle?
    ensures !HasDone(s.nic.tx, s.nic.capacity)
  {
    SlotAt(s.nic.capacity, s.nic.txReclaim, 0, s.nic.txReclaim);
    assert DoneCount(s) == 0;
  }

  /**
   After the interrupt bits were taken and both rings drained, a DONE descriptor always shows in
   irq_status, except while the device is between the owner store and the interrupt that follows it.
   */
  lemma NoLostInterrupt(capacity: nat, events: seq<Event>)
    requires ValidCapacity(capacity)
    ensures var s := Run(Init(capacity), events);
      && (TxDrained(s.hist.results) && HasDone(s.nic.tx, s.nic.capacity) && !s.device.AdvanceTx? && !s.device.RaiseTx?
          ==> s.nic.irq.tx)
      && (RxDrained(s.hist.results) && HasDone(s.nic.rx, s.nic.capacity)
          && !s.device.AdvanceRx? && !s.device.CountRx? && !s.device.RaiseRx?
          ==> s.nic.irq.rx)
  {
    InitHolds(capacity);
    RunKeepsInv(Init(capacity), events);
  }

  /** A driver that drained both rings after taking the bits may sleep until a bit is set. */
  lemma SafeToSleep(capacity: nat, events: seq<Event>)
    requires ValidCapacity(capacity)
    ensures var s := Run(Init(capacity), events);
      TxDrained(s.hist.results) && RxDrained(s.hist.results) && s.device.DeviceIdle? && !s.nic.irq.tx && !s.nic.irq.rx ==>
        !HasDone(s.nic.tx, s.nic.capacity) && !HasDone(s.nic.rx, s.nic.capacity)
  {
    NoLostInterrupt(capacity, events);
  }

  /** What "drained" means in the driver's log: the result is there, and no later call took the bits. */
  lemma {:induction false} DrainedInLog(results: seq<Return>, k: nat)
    requires k < |results|
    requires forall j :: k < j < |results| ==> !results[j].Took?
    ensures results[k].Reclaimed? ==> TxDrained(results)
    ensures results[k].ReceiveEmpty? ==> RxDrained(results)
    decreases |results|
  {
    if k < |results| - 1 {
      DrainedInLog(results[..|results| - 1], k);
    }
  }
}
