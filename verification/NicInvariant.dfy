/**
 What every interleaving of driver and device keeps: the cyclic ownership arcs,
 the contents of the rings, the counters and the interrupt bits.
 */
module NicInvariant {
  import opened Basics
  import opened NicModel
  import opened NicRing

  // ----- Reference meaning of the outcomes -----

  /** The frames among the first |outcomes| that the device delivered. */
  function Survivors(frames: seq<Frame>, outcomes: seq<Outcome>): (r: seq<Frame>)
    requires |outcomes| <= |frames|
  {
    if outcomes == [] then []
    else
      var last := |outcomes| - 1;
      Survivors(frames, outcomes[..last]) + if outcomes[last] == Delivered then [frames[last]] else []
  }

  function Count(outcomes: seq<Outcome>, o: Outcome): (r: nat)
  {
    if outcomes == [] then 0
    else Count(outcomes[..|outcomes| - 1], o) + Unit(outcomes[|outcomes| - 1] == o)
  }

  // ----- TX ring -----

  /** Descriptors submitted and not yet reclaimed. */
  function Outstanding(s: System): (r: int) { |s.hist.submitted| - s.hist.reclaimed }

  /** Descriptors the device handed back and the driver has not reclaimed. */
  function DoneCount(s: System): (r: int) { s.hist.completed - s.hist.reclaimed }

  predicate TxCounts(s: System) {
    && s.hist.reclaimed <= s.hist.completed <= |s.hist.submitted| <= s.hist.reclaimed + s.nic.capacity
    && s.nic.deviceTx == Wrap(s.nic.txReclaim + DoneCount(s) - Unit(s.device == AdvanceTx), s.nic.capacity)
    && s.nic.txSubmit == Wrap(s.nic.txReclaim + Outstanding(s) - Unit(s.driver == SubmitAdvance), s.nic.capacity)
    && (s.driver == SubmitAdvance ==> Outstanding(s) >= 1)
  }

  ghost predicate TxRing(s: System)
    requires Shaped(s) && TxCounts(s)
  {
    var n, h := s.nic, s.hist;
    TxArcs(n.tx, n.capacity, n.txReclaim, h.submitted, h.outcomes, h.reclaimed, DoneCount(s), Outstanding(s))
  }

  // ----- RX ring -----

  /** Descriptors filled by the device and not yet handed back by the driver. */
  function RxCount(s: System): (r: int) { |s.hist.delivered| - |s.hist.received| }

  function RxBase(s: System): (r: int) { Wrap(s.nic.rxConsume + Unit(s.driver.ReceiveAdvance?), s.nic.capacity) }

  predicate RxCounts(s: System) {
    && 0 <= RxCount(s) <= s.nic.capacity
    && s.nic.deviceRx == Wrap(RxBase(s) + RxCount(s) - Unit(s.device == AdvanceRx), s.nic.capacity)
  }

  ghost predicate RxRing(s: System)
    requires Shaped(s) && RxCounts(s)
  {
    var n, h := s.nic, s.hist;
    RxArcs(n.rx, n.capacity, RxBase(s), h.delivered, |h.received|, RxCount(s))
  }

  // ----- Program counters -----

  predicate DriverInv(s: System)
    requires Shaped(s)
  {
    match s.driver
    case SubmitWrite(_) => Outstanding(s) < s.nic.capacity
    case SubmitPublish(packet) =>
      && Outstanding(s) < s.nic.capacity
      && s.nic.tx[s.nic.txSubmit].frame == packet && !s.nic.tx[s.nic.txSubmit].error
    case ReclaimLoad(count, _) => count + Outstanding(s) <= s.nic.capacity
    case ReclaimRead(count, _) => count + Outstanding(s) <= s.nic.capacity && DoneCount(s) >= 1
    case ReclaimRelease(count, _) => count + Outstanding(s) <= s.nic.capacity && DoneCount(s) >= 1
    case ReceiveRead(_) => RxCount(s) >= 1
    case ReceiveRelease(frame) => RxCount(s) >= 1 && frame == s.hist.delivered[|s.hist.received|]
    case _ => true
  }

  /** The device has acquired a TX descriptor and not yet handed it back. */
  predicate HasFrame(pc: DevicePc) {
    !(pc.DeviceIdle? || pc.PollTx? || pc.AdvanceTx? || pc.RaiseTx?)
  }

  /** The fate of the frame in hand is settled. */
  predicate Decided(pc: DevicePc) {
    || pc.CountError? || pc.RaiseError? || pc.CountNoBuffer?
    || pc.AdvanceRx? || pc.CountRx? || pc.RaiseRx? || pc.CountTx? || pc.CompleteTx?
  }

  predicate DeviceInv(s: System)
    requires Shaped(s)
  {
    && (HasFrame(s.device) ==> s.hist.completed < |s.hist.submitted|)
    && |s.hist.outcomes| == s.hist.completed + Unit(Decided(s.device))
    && s.budget <= s.nic.capacity
    && (!s.device.DeviceIdle? && !s.device.PollTx? ==> s.done < s.budget)
    && (s.device.CopyFrame? || s.device.PublishRx? ==> RxCount(s) < s.nic.capacity)
    && (s.device.PublishRx? && s.hist.completed < |s.hist.submitted| ==>
          s.nic.rx[s.nic.deviceRx].frame == s.hist.submitted[s.hist.completed])
  }

  // ----- Losses, counters, faults -----

  ghost predicate Fates(h: History) {
    && |h.outcomes| <= |h.submitted|
    && h.delivered == Survivors(h.submitted, h.outcomes)
    && |h.received| <= |h.delivered| && h.received == h.delivered[..|h.received|]
    && (forall k :: 0 <= k < |h.submitted| ==> ValidPacket(h.submitted[k]))
  }

  /** The counters against the decided outcomes, allowing for the additions still to come. */
  predicate Counters(stats: Stats, fault: bool, device: DevicePc, outcomes: seq<Outcome>, completed: nat, injections: nat) {
    && Count(outcomes, Faulted) + Count(outcomes, NoBuffer) + Count(outcomes, Delivered) == |outcomes|
    && stats.txErrors + Unit(device == CountError) == Count(outcomes, Faulted)
    && stats.rxNoBuffer + Unit(device == CountNoBuffer) == Count(outcomes, NoBuffer)
    && stats.rxCompleted + Unit(device == AdvanceRx || device == CountRx) == Count(outcomes, Delivered)
    && stats.txCompleted == completed + Unit(device == CompleteTx)
    && Count(outcomes, Faulted) + Unit(fault) + Unit(device == CheckTx(true) || device == MarkError) <= injections
  }

  predicate Accounted(s: System) {
    Counters(s.nic.stats, s.nic.injectFault, s.device, s.hist.outcomes, s.hist.completed, s.hist.injections)
  }

  // ----- Interrupts -----

  /** A reclaim ran to its end after the latest nic_take_interrupts (or none was taken). */
  predicate TxDrained(results: seq<Return>) {
    if results == [] then true
    else
      var last := results[|results| - 1];
      last.Reclaimed? || (!last.Took? && TxDrained(results[..|results| - 1]))
  }

  /** A receive found the ring empty after the latest nic_take_interrupts (or none was taken). */
  predicate RxDrained(results: seq<Return>) {
    if results == [] then true
    else
      var last := results[|results| - 1];
      last.ReceiveEmpty? || (!last.Took? && RxDrained(results[..|results| - 1]))
  }

  predicate TxIrq(s: System) {
    TxDrained(s.hist.results) && DoneCount(s) > 0 ==> s.nic.irq.tx || s.device.AdvanceTx? || s.device.RaiseTx?
  }

  predicate RxIrq(s: System) {
    RxDrained(s.hist.results) && RxCount(s) > 0 ==>
      s.nic.irq.rx || s.device.AdvanceRx? || s.device.CountRx? || s.device.RaiseRx?
  }

  ghost predicate Inv(s: System) {
    && Shaped(s)
    && TxCounts(s) && TxRing(s)
    && RxCounts(s) && RxRing(s)
    && DriverInv(s) && DeviceInv(s)
    && Fates(s.hist) && Accounted(s)
    && TxIrq(s) && RxIrq(s)
  }

  // ----- Preservation by the driver -----

  /** The driver steps that store into the TX ring. */
  predicate WritesTx(pc: DriverPc) { pc.SubmitWrite? || pc.SubmitPublish? || pc.ReclaimRelease? }

  lemma DriverTxFrame(s: System)
    requires Shaped(s) && !WritesTx(s.driver)
    ensures var s' := StepDriver(s);
      && s'.nic.tx == s.nic.tx && s'.nic.txReclaim == s.nic.txReclaim && s'.nic.capacity == s.nic.capacity
      && s'.nic.deviceTx == s.nic.deviceTx && s'.device == s.device
      && s'.hist.submitted == s.hist.submitted && s'.hist.reclaimed == s.hist.reclaimed
      && s'.hist.completed == s.hist.completed && s'.hist.outcomes == s.hist.outcomes
      && (s.driver.SubmitAdvance? ==> s'.nic.txSubmit == Next(s.nic.txSubmit, s.nic.capacity) && s'.driver.DriverIdle?)
      && (!s.driver.SubmitAdvance? ==> s'.nic.txSubmit == s.nic.txSubmit && !s'.driver.SubmitAdvance?)
  {
  }

  lemma DriverTxQuiet(s: System)
    requires Shaped(s) && TxCounts(s) && TxRing(s) && !WritesTx(s.driver)
    ensures TxCounts(StepDriver(s)) && TxRing(StepDriver(s))
  {
    DriverTxFrame(s);
  }

  /** The ring of t, given its parts. */
  lemma TxRingFrom(t: System, tx: seq<Descriptor>, base: int, frames: seq<Frame>, outcomes: seq<Outcome>,
                   first: int, done: int, live: int)
    requires Shaped(t) && TxCounts(t)
    requires t.nic.tx == tx && t.nic.txReclaim == base && t.hist.submitted == frames && t.hist.outcomes == outcomes
    requires t.hist.reclaimed == first && DoneCount(t) == done && Outstanding(t) == live
    requires TxArcs(tx, t.nic.capacity, base, frames, outcomes, first, done, live)
    ensures TxRing(t)
  {
  }

  lemma SubmitWriteTx(s: System)
    requires Shaped(s) && TxCounts(s) && TxRing(s) && DriverInv(s) && s.driver.SubmitWrite?
    ensures TxCounts(StepDriver(s)) && TxRing(StepDriver(s))
  {
    var n, h := s.nic, s.hist;
    FillTx(n.tx, n.capacity, n.txReclaim, h.submitted, h.outcomes, h.reclaimed, DoneCount(s), Outstanding(s),
           n.txSubmit, s.driver.packet);
  }

  /** t has the device's TX cursor and pc, the capacity, the outcomes and the completions of s. */
  predicate SameDeviceTx(s: System, t: System) {
    && t.nic.capacity == s.nic.capacity && t.nic.deviceTx == s.nic.deviceTx && t.device == s.device
    && t.hist.outcomes == s.hist.outcomes && t.hist.completed == s.hist.completed
  }

  lemma SubmitPublishFields(s: System)
    requires Shaped(s) && s.driver.SubmitPublish?
    ensures var t, n := StepDriver(s), s.nic;
      && SameDeviceTx(s, t) && t.driver == SubmitAdvance
      && t.nic.tx == SetOwner(n.tx, n.txSubmit, Device) && t.nic.txReclaim == n.txReclaim && t.nic.txSubmit == n.txSubmit
      && t.hist.submitted == s.hist.submitted + [s.driver.packet] && t.hist.reclaimed == s.hist.reclaimed
  {
  }

  lemma SubmitPublished(s: System, t: System)
    requires Shaped(s) && Shaped(t) && TxCounts(s) && TxRing(s) && DriverInv(s) && s.driver.SubmitPublish?
    requires |s.hist.outcomes| <= |s.hist.submitted|
    requires SameDeviceTx(s, t) && t.driver == SubmitAdvance
    requires t.nic.tx == SetOwner(s.nic.tx, s.nic.txSubmit, Device)
    requires t.nic.txReclaim == s.nic.txReclaim && t.nic.txSubmit == s.nic.txSubmit
    requires t.hist.submitted == s.hist.submitted + [s.driver.packet] && t.hist.reclaimed == s.hist.reclaimed
    ensures TxCounts(t) && TxRing(t)
  {
    var n, h := s.nic, s.hist;
    var done, live := DoneCount(s), Outstanding(s);
    PublishTx(n.tx, n.capacity, n.txReclaim, h.submitted, h.outcomes, h.reclaimed, done, live, n.txSubmit);
    TxRingFrom(t, SetOwner(n.tx, n.txSubmit, Device), n.txReclaim, h.submitted + [n.tx[n.txSubmit].frame], h.outcomes,
               h.reclaimed, done, live + 1);
  }

  lemma SubmitPublishTx(s: System)
    requires Shaped(s) && TxCounts(s) && TxRing(s) && DriverInv(s) && s.driver.SubmitPublish?
    requires |s.hist.outcomes| <= |s.hist.submitted|
    ensures TxCounts(StepDriver(s)) && TxRing(StepDriver(s))
  {
    SubmitPublishFields(s);
    SubmitPublished(s, StepDriver(s));
  }

  lemma ReclaimReleaseFields(s: System)
    requires Shaped(s) && s.driver.ReclaimRelease?
    ensures var t, n := StepDriver(s), s.nic;
      && SameDeviceTx(s, t) && t.driver.ReclaimLoad?
      && t.nic.tx == SetOwner(n.tx, n.txReclaim, Free) && t.nic.txReclaim == Next(n.txReclaim, n.capacity)
      && t.nic.txSubmit == n.txSubmit && t.hist.submitted == s.hist.submitted && t.hist.reclaimed == s.hist.reclaimed + 1
  {
  }

  /** The cursors are the same distance ahead of the reclaim cursor, less the one it moved. */
  lemma ReclaimedCounts(s: System, t: System)
    requires Shaped(s) && Shaped(t) && TxCounts(s) && DoneCount(s) >= 1 && s.driver.ReclaimRelease?
    requires SameDeviceTx(s, t) && t.driver.ReclaimLoad?
    requires t.nic.txReclaim == Next(s.nic.txReclaim, s.nic.capacity) && t.nic.txSubmit == s.nic.txSubmit
    requires t.hist.submitted == s.hist.submitted && t.hist.reclaimed == s.hist.reclaimed + 1
    ensures TxCounts(t) && DoneCount(t) == DoneCount(s) - 1 && Outstanding(t) == Outstanding(s) - 1
  {
  }

  /** The TX ring of s after its oldest DONE descriptor is freed. */
  ghost predicate ReclaimedArcs(s: System)
    requires Shaped(s) && TxCounts(s) && DoneCount(s) >= 1
  {
    var n, h := s.nic, s.hist;
    TxArcs(SetOwner(n.tx, n.txReclaim, Free), n.capacity, Next(n.txReclaim, n.capacity), h.submitted, h.outcomes,
           h.reclaimed + 1, DoneCount(s) - 1, Outstanding(s) - 1)
  }

  lemma ReclaimKeepsArcs(s: System)
    requires Shaped(s) && TxCounts(s) && TxRing(s) && DoneCount(s) >= 1
    ensures ReclaimedArcs(s)
  {
    var n, h := s.nic, s.hist;
    ReclaimTx(n.tx, n.capacity, n.txReclaim, h.submitted, h.outcomes, h.reclaimed, DoneCount(s), Outstanding(s));
  }

  lemma ReclaimReleased(s: System, t: System)
    requires Shaped(s) && Shaped(t) && TxCounts(s) && TxCounts(t) && DoneCount(s) >= 1 && ReclaimedArcs(s)
    requires DoneCount(t) == DoneCount(s) - 1 && Outstanding(t) == Outstanding(s) - 1
    requires t.nic.capacity == s.nic.capacity && t.nic.tx == SetOwner(s.nic.tx, s.nic.txReclaim, Free)
    requires t.nic.txReclaim == Next(s.nic.txReclaim, s.nic.capacity) && t.hist.outcomes == s.hist.outcomes
    requires t.hist.submitted == s.hist.submitted && t.hist.reclaimed == s.hist.reclaimed + 1
    ensures TxRing(t)
  {
  }

  lemma ReclaimReleaseTx(s: System)
    requires Shaped(s) && TxCounts(s) && TxRing(s) && DriverInv(s) && s.driver.ReclaimRelease?
    ensures TxCounts(StepDriver(s)) && TxRing(StepDriver(s))
  {
    ReclaimKeepsArcs(s);
    ReclaimReleaseFields(s);
    ReclaimedCounts(s, StepDriver(s));
    ReclaimReleased(s, StepDriver(s));
  }

  lemma DriverRxFrame(s: System)
    requires Shaped(s) && !s.driver.ReceiveRelease?
    ensures var s' := StepDriver(s);
      && s'.nic.rx == s.nic.rx && s'.nic.deviceRx == s.nic.deviceRx && s'.nic.capacity == s.nic.capacity
      && s'.device == s.device && s'.hist.delivered == s.hist.delivered && s'.hist.received == s.hist.received
      && RxBase(s') == RxBase(s)
  {
  }

  lemma DriverRxQuiet(s: System)
    requires Shaped(s) && RxCounts(s) && RxRing(s) && !s.driver.ReceiveRelease?
    ensures RxCounts(StepDriver(s)) && RxRing(StepDriver(s))
  {
    DriverRxFrame(s);
  }

  lemma ReceiveReleaseFields(s: System)
    requires Shaped(s) && s.driver.ReceiveRelease?
    ensures var t, n := StepDriver(s), s.nic;
      && t.nic.rx == SetOwner(n.rx, n.rxConsume, Device) && t.nic.deviceRx == n.deviceRx && t.nic.capacity == n.capacity
      && t.device == s.device && t.hist.delivered == s.hist.delivered && |t.hist.received| == |s.hist.received| + 1
      && RxBase(t) == Next(n.rxConsume, n.capacity)
  {
  }

  lemma ReceiveReleased(s: System, t: System)
    requires Shaped(s) && Shaped(t) && RxCounts(s) && RxRing(s) && RxCount(s) >= 1 && RxBase(s) == s.nic.rxConsume
    requires t.nic.rx == SetOwner(s.nic.rx, s.nic.rxConsume, Device)
    requires t.nic.deviceRx == s.nic.deviceRx && t.nic.capacity == s.nic.capacity && t.device == s.device
    requires t.hist.delivered == s.hist.delivered && |t.hist.received| == |s.hist.received| + 1
    requires RxBase(t) == Next(s.nic.rxConsume, s.nic.capacity)
    ensures RxCounts(t) && RxRing(t)
  {
    var n, h := s.nic, s.hist;
    RepostRx(n.rx, n.capacity, n.rxConsume, h.delivered, |h.received|, RxCount(s));
  }

  lemma ReceiveReleaseRx(s: System)
    requires Shaped(s) && RxCounts(s) && RxRing(s) && DriverInv(s) && s.driver.ReceiveRelease?
    ensures RxCounts(StepDriver(s)) && RxRing(StepDriver(s))
  {
    ReceiveReleaseFields(s);
    ReceiveReleased(s, StepDriver(s));
  }

  lemma DriverRings(s: System)
    requires Shaped(s) && TxCounts(s) && TxRing(s) && RxCounts(s) && RxRing(s) && DriverInv(s)
    requires |s.hist.outcomes| <= |s.hist.submitted|
    ensures TxCounts(StepDriver(s)) && TxRing(StepDriver(s))
    ensures RxCounts(StepDriver(s)) && RxRing(StepDriver(s))
  {
    if s.driver.SubmitWrite? {
      SubmitWriteTx(s);
    } else if s.driver.SubmitPublish? {
      SubmitPublishTx(s);
    } else if s.driver.ReclaimRelease? {
      ReclaimReleaseTx(s);
    } else {
      DriverTxQuiet(s);
    }
    if s.driver.ReceiveRelease? {
      ReceiveReleaseRx(s);
    } else {
      DriverRxQuiet(s);
    }
  }

  lemma DriverKeepsDriver(s: System)
    requires Shaped(s) && TxCounts(s) && TxRing(s) && RxCounts(s) && RxRing(s) && DriverInv(s)
    ensures DriverInv(StepDriver(s))
  {
  }

  /** What a driver step leaves to the device: submissions only grow, waiting frames only shrink, its cursors stay. */
  lemma DriverMonotone(s: System)
    requires Shaped(s)
    ensures var t := StepDriver(s);
      && t.device == s.device && t.budget == s.budget && t.done == s.done
      && t.nic.capacity == s.nic.capacity && t.nic.deviceRx == s.nic.deviceRx
      && t.hist.outcomes == s.hist.outcomes && t.hist.completed == s.hist.completed
      && s.hist.submitted <= t.hist.submitted && RxCount(t) <= RxCount(s)
  {
  }

  /** The driver writes no frame into the RX ring. */
  lemma DriverSparesRxFrames(s: System)
    requires Shaped(s)
    ensures StepDriver(s).nic.rx[s.nic.deviceRx].frame == s.nic.rx[s.nic.deviceRx].frame
  {
  }

  lemma DriverKeepsDevice(s: System)
    requires Shaped(s) && DeviceInv(s) && (s.device.PublishRx? ==> s.hist.completed < |s.hist.submitted|)
    ensures DeviceInv(StepDriver(s))
  {
    DriverMonotone(s);
    DriverSparesRxFrames(s);
  }

  lemma {:induction false} SurvivorsOfPrefix(frames: seq<Frame>, more: seq<Frame>, outcomes: seq<Outcome>)
    requires |outcomes| <= |frames|
    ensures Survivors(frames + more, outcomes) == Survivors(frames, outcomes)
  {
    if outcomes != [] {
      SurvivorsOfPrefix(frames, more, outcomes[..|outcomes| - 1]);
    }
  }

  lemma DriverKeepsFates(s: System)
    requires Shaped(s) && DriverInv(s) && Fates(s.hist)
    ensures Fates(StepDriver(s).hist)
  {
    if s.driver.SubmitPublish? {
      SurvivorsOfPrefix(s.hist.submitted, [s.driver.packet], s.hist.outcomes);
    }
  }

  lemma DriverKeepsCounters(s: System)
    requires Shaped(s) && Accounted(s)
    ensures Accounted(StepDriver(s))
  {
    var s' := StepDriver(s);
    assert s'.nic.stats == s.nic.stats && s'.nic.injectFault == s.nic.injectFault && s'.device == s.device;
    assert s'.hist.outcomes == s.hist.outcomes && s'.hist.completed == s.hist.completed && s'.hist.injections == s.hist.injections;
  }

  /** The driver can drain only by finding nothing DONE. */
  lemma DriverKeepsTxIrq(s: System)
    requires Shaped(s) && TxCounts(s) && TxRing(s) && DriverInv(s) && TxIrq(s)
    ensures TxIrq(StepDriver(s))
  {
  }

  lemma DriverKeepsRxIrq(s: System)
    requires Shaped(s) && RxCounts(s) && RxRing(s) && DriverInv(s) && RxIrq(s)
    ensures RxIrq(StepDriver(s))
  {
  }

  lemma DriverKeepsInv(s: System)
    requires Inv(s)
    ensures Inv(StepDriver(s))
  {
    DriverRings(s);
    DriverKeepsDriver(s);
    DriverKeepsDevice(s);
    DriverKeepsFates(s);
    DriverKeepsCounters(s);
    DriverKeepsTxIrq(s);
    DriverKeepsRxIrq(s);
  }

  // ----- Preservation by the device -----

  /** The device steps that store into the TX ring or settle a frame's fate. */
  predicate TouchesTx(pc: DevicePc) {
    pc.MarkError? || pc.PollRx? || pc.PublishRx? || pc.CompleteTx?
  }

  lemma DeviceTxFrame(s: System)
    requires Shaped(s) && !TouchesTx(s.device)
    ensures var s' := StepDevice(s);
      && s'.nic.tx == s.nic.tx && s'.nic.txReclaim == s.nic.txReclaim && s'.nic.capacity == s.nic.capacity
      && s'.nic.txSubmit == s.nic.txSubmit && s'.driver == s.driver
      && s'.hist.submitted == s.hist.submitted && s'.hist.reclaimed == s.hist.reclaimed
      && s'.hist.completed == s.hist.completed && s'.hist.outcomes == s.hist.outcomes
      && (s.device.AdvanceTx? ==> s'.nic.deviceTx == Next(s.nic.deviceTx, s.nic.capacity) && s'.device.RaiseTx?)
      && (!s.device.AdvanceTx? ==> s'.nic.deviceTx == s.nic.deviceTx && !s'.device.AdvanceTx?)
  {
  }

  lemma DeviceTxQuiet(s: System)
    requires Shaped(s) && TxCounts(s) && TxRing(s) && !TouchesTx(s.device)
    ensures TxCounts(StepDevice(s)) && TxRing(StepDevice(s))
  {
    DeviceTxFrame(s);
  }

  lemma MarkErrorTx(s: System)
    requires Shaped(s) && TxCounts(s) && TxRing(s) && DeviceInv(s) && s.device.MarkError?
    ensures TxCounts(StepDevice(s)) && TxRing(StepDevice(s))
  {
    var n, h := s.nic, s.hist;
    FaultTx(n.tx, n.capacity, n.txReclaim, h.submitted, h.outcomes, h.reclaimed, DoneCount(s), Outstanding(s), n.deviceTx);
  }

  /** t has the TX ring, cursors and counts of s, and perhaps one more outcome. */
  predicate SameTx(s: System, t: System) {
    && t.nic.tx == s.nic.tx && t.nic.capacity == s.nic.capacity && t.nic.txReclaim == s.nic.txReclaim
    && t.nic.deviceTx == s.nic.deviceTx && t.nic.txSubmit == s.nic.txSubmit && t.driver == s.driver
    && t.device.AdvanceTx? == s.device.AdvanceTx?
    && t.hist.submitted == s.hist.submitted && t.hist.reclaimed == s.hist.reclaimed && t.hist.completed == s.hist.completed
  }

  lemma DecideFields(s: System)
    requires Shaped(s) && (s.device.PollRx? || s.device.PublishRx?)
    ensures var t := StepDevice(s);
      && SameTx(s, t)
      && (t.hist.outcomes == s.hist.outcomes || t.hist.outcomes == s.hist.outcomes + [NoBuffer]
          || t.hist.outcomes == s.hist.outcomes + [Delivered])
  {
  }

  lemma DecidedTx(s: System, t: System)
    requires Shaped(s) && Shaped(t) && TxCounts(s) && TxRing(s) && SameTx(s, t)
    requires t.hist.outcomes == s.hist.outcomes || t.hist.outcomes == s.hist.outcomes + [NoBuffer]
             || t.hist.outcomes == s.hist.outcomes + [Delivered]
    ensures TxCounts(t) && TxRing(t)
  {
    var n, h := s.nic, s.hist;
    FlaggedDecided(n.tx, n.capacity, n.txReclaim, h.outcomes, h.reclaimed, Outstanding(s), NoBuffer);
    FlaggedDecided(n.tx, n.capacity, n.txReclaim, h.outcomes, h.reclaimed, Outstanding(s), Delivered);
  }

  lemma DecideTx(s: System)
    requires Shaped(s) && TxCounts(s) && TxRing(s) && (s.device.PollRx? || s.device.PublishRx?)
    ensures TxCounts(StepDevice(s)) && TxRing(StepDevice(s))
  {
    DecideFields(s);
    DecidedTx(s, StepDevice(s));
  }

  lemma CompleteTxTx(s: System)
    requires Shaped(s) && TxCounts(s) && TxRing(s) && DeviceInv(s) && s.device.CompleteTx?
    ensures TxCounts(StepDevice(s)) && TxRing(StepDevice(s))
  {
    var n, h := s.nic, s.hist;
    CompleteTxSlot(n.tx, n.capacity, n.txReclaim, h.submitted, h.outcomes, h.reclaimed, DoneCount(s), Outstanding(s), n.deviceTx);
  }

  lemma DeviceRxFrame(s: System)
    requires Shaped(s) && !s.device.CopyFrame? && !s.device.PublishRx?
    ensures var s' := StepDevice(s);
      && s'.nic.rx == s.nic.rx && s'.nic.rxConsume == s.nic.rxConsume && s'.nic.capacity == s.nic.capacity
      && s'.driver == s.driver && s'.hist.delivered == s.hist.delivered && s'.hist.received == s.hist.received
      && (s.device.AdvanceRx? ==> s'.nic.deviceRx == Next(s.nic.deviceRx, s.nic.capacity) && s'.device.CountRx?)
      && (!s.device.AdvanceRx? ==> s'.nic.deviceRx == s.nic.deviceRx && !s'.device.AdvanceRx?)
  {
  }

  lemma DeviceRxQuiet(s: System)
    requires Shaped(s) && RxCounts(s) && RxRing(s) && !s.device.CopyFrame? && !s.device.PublishRx?
    ensures RxCounts(StepDevice(s)) && RxRing(StepDevice(s))
  {
    DeviceRxFrame(s);
  }

  lemma CopyFrameRx(s: System)
    requires Shaped(s) && RxCounts(s) && RxRing(s) && DeviceInv(s) && s.device.CopyFrame?
    ensures RxCounts(StepDevice(s)) && RxRing(StepDevice(s))
  {
    var n, h := s.nic, s.hist;
    var base, done, s' := RxBase(s), RxCount(s), StepDevice(s);
    FillRx(n.rx, n.capacity, base, h.delivered, |h.received|, done, n.deviceRx, n.tx[n.deviceTx].frame);
    assert RxBase(s') == base && RxCount(s') == done;
  }

  lemma PublishRxRx(s: System)
    requires Shaped(s) && RxCounts(s) && RxRing(s) && DeviceInv(s) && s.device.PublishRx?
    ensures RxCounts(StepDevice(s)) && RxRing(StepDevice(s))
  {
    var n, h := s.nic, s.hist;
    var base, done, s' := RxBase(s), RxCount(s), StepDevice(s);
    PublishRxSlot(n.rx, n.capacity, base, h.delivered, |h.received|, done, n.deviceRx);
    assert RxBase(s') == base && RxCount(s') == done + 1;
  }

  lemma DeviceRings(s: System)
    requires Shaped(s) && TxCounts(s) && TxRing(s) && RxCounts(s) && RxRing(s) && DeviceInv(s)
    ensures TxCounts(StepDevice(s)) && TxRing(StepDevice(s))
    ensures RxCounts(StepDevice(s)) && RxRing(StepDevice(s))
  {
    if s.device.MarkError? {
      MarkErrorTx(s);
    } else if s.device.PollRx? || s.device.PublishRx? {
      DecideTx(s);
    } else if s.device.CompleteTx? {
      CompleteTxTx(s);
    } else {
      DeviceTxQuiet(s);
    }
    if s.device.CopyFrame? {
      CopyFrameRx(s);
    } else if s.device.PublishRx? {
      PublishRxRx(s);
    } else {
      DeviceRxQuiet(s);
    }
  }

  /** What a device step leaves to the driver: its counts only grow, and its cursors stay. */
  lemma DeviceMonotone(s: System)
    requires Shaped(s)
    ensures var s' := StepDevice(s);
      && s'.driver == s.driver && s'.nic.capacity == s.nic.capacity && s'.nic.txSubmit == s.nic.txSubmit
      && Outstanding(s') == Outstanding(s) && DoneCount(s') >= DoneCount(s)
      && s'.hist.received == s.hist.received && |s'.hist.delivered| >= |s.hist.delivered|
      && s'.hist.delivered[..|s.hist.delivered|] == s.hist.delivered
  {
  }

  /** The descriptor the driver is about to publish is not the device's. */
  lemma DeviceSparesSubmit(s: System)
    requires Shaped(s) && TxCounts(s) && DeviceInv(s) && s.driver.SubmitPublish? && Outstanding(s) < s.nic.capacity
    ensures StepDevice(s).nic.tx[s.nic.txSubmit] == s.nic.tx[s.nic.txSubmit]
  {
    if s.device.MarkError? || s.device.CompleteTx? {
      assert s.nic.deviceTx != s.nic.txSubmit;
    }
  }

  lemma DeviceKeepsDriver(s: System)
    requires Shaped(s) && TxCounts(s) && TxRing(s) && RxCounts(s) && DriverInv(s) && DeviceInv(s)
    ensures DriverInv(StepDevice(s))
  {
    DeviceMonotone(s);
    if s.driver.SubmitPublish? {
      DeviceSparesSubmit(s);
    } else if s.driver.ReceiveRelease? {
      var k := |s.hist.received|;
      assert StepDevice(s).hist.delivered[..|s.hist.delivered|][k] == s.hist.delivered[k];
    }
  }

  /** The descriptor the device polls is its own only if there is a frame to process. */
  lemma PollTxKeepsDevice(s: System)
    requires Shaped(s) && TxCounts(s) && TxRing(s) && DeviceInv(s) && s.device.PollTx?
    ensures DeviceInv(StepDevice(s))
  {
  }

  lemma PollRxKeepsDevice(s: System)
    requires Shaped(s) && RxCounts(s) && RxRing(s) && DeviceInv(s) && s.device.PollRx?
    ensures DeviceInv(StepDevice(s))
  {
  }

  lemma CopyKeepsDevice(s: System)
    requires Shaped(s) && TxCounts(s) && TxRing(s) && DeviceInv(s) && s.device.CopyFrame?
    ensures DeviceInv(StepDevice(s))
  {
    SlotAt(s.nic.capacity, s.nic.txReclaim, DoneCount(s), s.nic.deviceTx);
  }

  lemma OtherKeepsDevice(s: System)
    requires Shaped(s) && DeviceInv(s) && !s.device.PollTx? && !s.device.PollRx? && !s.device.CopyFrame?
    ensures DeviceInv(StepDevice(s))
  {
  }

  lemma DeviceKeepsDevice(s: System)
    requires Shaped(s) && TxCounts(s) && TxRing(s) && RxCounts(s) && RxRing(s) && DeviceInv(s)
    ensures DeviceInv(StepDevice(s))
  {
    if s.device.PollTx? {
      PollTxKeepsDevice(s);
    } else if s.device.PollRx? {
      PollRxKeepsDevice(s);
    } else if s.device.CopyFrame? {
      CopyKeepsDevice(s);
    } else {
      OtherKeepsDevice(s);
    }
  }

  lemma DeviceKeepsFates(s: System)
    requires Shaped(s) && DeviceInv(s) && Fates(s.hist)
    ensures Fates(StepDevice(s).hist)
  {
  }

  /** The frame in the device's hand passed the length check at submission. */
  lemma FrameInHandValid(s: System)
    requires Shaped(s) && TxCounts(s) && TxRing(s) && DeviceInv(s) && Fates(s.hist) && HasFrame(s.device)
    ensures s.nic.tx[s.nic.deviceTx].frame == s.hist.submitted[s.hist.completed]
    ensures ValidPacket(s.nic.tx[s.nic.deviceTx].frame)
  {
    SlotAt(s.nic.capacity, s.nic.txReclaim, DoneCount(s), s.nic.deviceTx);
  }

  /** Without a pending fault the length check passes: the bad-length branch is dead. */
  lemma CheckTxCounters(s: System)
    requires Shaped(s) && TxCounts(s) && TxRing(s) && DeviceInv(s) && Fates(s.hist) && Accounted(s) && s.device.CheckTx?
    ensures Accounted(StepDevice(s))
  {
    FrameInHandValid(s);
  }

  lemma CountAppend(outcomes: seq<Outcome>, last: Outcome, o: Outcome)
    ensures Count(outcomes + [last], o) == Count(outcomes, o) + Unit(last == o)
  {
    assert (outcomes + [last])[..|outcomes|] == outcomes;
  }

  /** Settling a frame's fate adds one outcome and leaves the matching counter one behind. */
  lemma Settled(stats: Stats, fault: bool, pc: DevicePc, pc': DevicePc, outcomes: seq<Outcome>, last: Outcome,
                completed: nat, injections: nat)
    requires Counters(stats, fault, pc, outcomes, completed, injections)
    requires || (pc == MarkError && last == Faulted && pc' == CountError)
             || (pc == PollRx && last == NoBuffer && pc' == CountNoBuffer)
             || (pc == PublishRx && last == Delivered && pc' == AdvanceRx)
    ensures Counters(stats, fault, pc', outcomes + [last], completed, injections)
  {
    CountAppend(outcomes, last, Faulted);
    CountAppend(outcomes, last, NoBuffer);
    CountAppend(outcomes, last, Delivered);
  }

  lemma DecideStep(s: System, last: Outcome)
    requires Shaped(s) && (s.device.MarkError? || s.device.PollRx? || s.device.PublishRx?)
    requires last == if s.device.MarkError? then Faulted else if s.device.PollRx? then NoBuffer else Delivered
    ensures var t := StepDevice(s);
      && t.nic.stats == s.nic.stats && t.nic.injectFault == s.nic.injectFault
      && t.hist.completed == s.hist.completed && t.hist.injections == s.hist.injections
      && ((s.device.PollRx? && t.device.CopyFrame? && t.hist.outcomes == s.hist.outcomes)
          || (t.hist.outcomes == s.hist.outcomes + [last]
              && t.device == if s.device.MarkError? then CountError else if s.device.PollRx? then CountNoBuffer else AdvanceRx))
  {
  }

  lemma DecideCounters(s: System)
    requires Shaped(s) && Accounted(s) && (s.device.MarkError? || s.device.PollRx? || s.device.PublishRx?)
    ensures Accounted(StepDevice(s))
  {
    var h, t := s.hist, StepDevice(s);
    var last := if s.device.MarkError? then Faulted else if s.device.PollRx? then NoBuffer else Delivered;
    DecideStep(s, last);
    if !t.device.CopyFrame? {
      Settled(s.nic.stats, s.nic.injectFault, s.device, t.device, h.outcomes, last, h.completed, h.injections);
    }
  }

  /** Device steps from taking the fault to raising the RX or error interrupt, other than those that decide. */
  predicate CountsRx(pc: DevicePc) {
    pc.CountError? || pc.RaiseError? || pc.CountNoBuffer? || pc.CopyFrame? || pc.AdvanceRx? || pc.CountRx? || pc.RaiseRx?
  }

  lemma CountingRx(s: System)
    requires Shaped(s) && Accounted(s) && CountsRx(s.device)
    ensures Accounted(StepDevice(s))
  {
    assert StepDevice(s).hist.outcomes == s.hist.outcomes;
  }

  lemma CountingTx(s: System)
    requires Shaped(s) && Accounted(s)
    requires !CountsRx(s.device) && !(s.device.CheckTx? || s.device.MarkError? || s.device.PollRx? || s.device.PublishRx?)
    ensures Accounted(StepDevice(s))
  {
    assert StepDevice(s).hist.outcomes == s.hist.outcomes;
  }

  lemma DeviceKeepsCounters(s: System)
    requires Shaped(s) && TxCounts(s) && TxRing(s) && DeviceInv(s) && Fates(s.hist) && Accounted(s)
    ensures Accounted(StepDevice(s))
  {
    if s.device.CheckTx? {
      CheckTxCounters(s);
    } else if s.device.MarkError? || s.device.PollRx? || s.device.PublishRx? {
      DecideCounters(s);
    } else if CountsRx(s.device) {
      CountingRx(s);
    } else {
      CountingTx(s);
    }
  }

  /** No device step touches the log, the driver's counts, or lowers an interrupt. */
  lemma DeviceIrqFrame(s: System)
    requires Shaped(s)
    ensures var t := StepDevice(s);
      && t.hist.results == s.hist.results && t.hist.reclaimed == s.hist.reclaimed && t.hist.received == s.hist.received
      && (s.nic.irq.tx ==> t.nic.irq.tx) && (s.nic.irq.rx ==> t.nic.irq.rx)
  {
  }

  /** The device completes a TX descriptor only on the way to raising its interrupt. */
  lemma CompletesBeforeIrq(s: System)
    requires Shaped(s)
    ensures var t := StepDevice(s);
      if s.device.CompleteTx? then t.device.AdvanceTx?
      else t.hist.completed == s.hist.completed
           && (s.device.AdvanceTx? ==> t.device.RaiseTx?) && (s.device.RaiseTx? ==> t.nic.irq.tx)
  {
  }

  /** It delivers a frame only on the way to raising the RX interrupt. */
  lemma DeliversBeforeIrq(s: System)
    requires Shaped(s)
    ensures var t := StepDevice(s);
      if s.device.PublishRx? then t.device.AdvanceRx?
      else t.hist.delivered == s.hist.delivered
           && (s.device.AdvanceRx? ==> t.device.CountRx?) && (s.device.CountRx? ==> t.device.RaiseRx?)
           && (s.device.RaiseRx? ==> t.nic.irq.rx)
  {
  }

  lemma DeviceKeepsIrq(s: System)
    requires Shaped(s) && TxIrq(s) && RxIrq(s)
    ensures TxIrq(StepDevice(s)) && RxIrq(StepDevice(s))
  {
    DeviceIrqFrame(s);
    CompletesBeforeIrq(s);
    DeliversBeforeIrq(s);
  }

  lemma DeviceKeepsInv(s: System)
    requires Inv(s)
    ensures Inv(StepDevice(s))
  {
    DeviceRings(s);
    DeviceKeepsDriver(s);
    DeviceKeepsDevice(s);
    DeviceKeepsFates(s);
    DeviceKeepsCounters(s);
    DeviceKeepsIrq(s);
  }

  // ----- Every run -----

  lemma CallFrame(s: System, call: Call)
    requires Shaped(s)
    ensures var s' := StartCall(s, call);
      && s'.nic == s.nic && s'.device == s.device && s'.budget == s.budget && s'.done == s.done
      && s'.hist == s.hist.(results := s'.hist.results)
      && RxBase(s') == RxBase(s) && (s'.driver.SubmitAdvance? <==> s.driver.SubmitAdvance?)
      && (s'.hist.results == s.hist.results || s'.hist.results == s.hist.results + [SubmitInvalid])
      && (s'.driver == s.driver || s'.driver.DriverIdle? || s'.driver.SubmitLoad? || s'.driver == ReclaimLoad(0, 0)
          || s'.driver.ReceiveLoad? || s'.driver.TakeExchange?)
  {
  }

  lemma CallKeepsRings(s: System, call: Call)
    requires Shaped(s) && TxCounts(s) && TxRing(s) && RxCounts(s) && RxRing(s)
    ensures var s' := StartCall(s, call); TxCounts(s') && TxRing(s') && RxCounts(s') && RxRing(s')
  {
    CallFrame(s, call);
  }

  lemma CallKeepsRest(s: System, call: Call)
    requires Shaped(s) && TxCounts(s) && DriverInv(s) && DeviceInv(s) && Fates(s.hist) && Accounted(s) && TxIrq(s) && RxIrq(s)
    ensures var s' := StartCall(s, call);
      DriverInv(s') && DeviceInv(s') && Fates(s'.hist) && Accounted(s') && TxIrq(s') && RxIrq(s')
  {
    CallFrame(s, call);
  }

  lemma CallKeepsInv(s: System, call: Call)
    requires Inv(s)
    ensures Inv(StartCall(s, call))
  {
    CallKeepsRings(s, call);
    CallKeepsRest(s, call);
  }

  lemma PollKeepsRings(s: System, polls: nat)
    requires Shaped(s) && TxCounts(s) && TxRing(s) && RxCounts(s) && RxRing(s)
    ensures var s' := StartPoll(s, polls); TxCounts(s') && TxRing(s') && RxCounts(s') && RxRing(s')
  {
    var s' := StartPoll(s, polls);
    assert s'.nic == s.nic && s'.hist == s.hist && s'.driver == s.driver && RxBase(s') == RxBase(s);
  }

  lemma PollKeepsRest(s: System, polls: nat)
    requires Shaped(s) && DriverInv(s) && DeviceInv(s) && Fates(s.hist) && Accounted(s) && TxIrq(s) && RxIrq(s)
    ensures var s' := StartPoll(s, polls);
      DriverInv(s') && DeviceInv(s') && Fates(s'.hist) && Accounted(s') && TxIrq(s') && RxIrq(s')
  {
    var s' := StartPoll(s, polls);
    assert s'.nic == s.nic && s'.hist == s.hist && s'.driver == s.driver;
  }

  lemma PollKeepsInv(s: System, polls: nat)
    requires Inv(s)
    ensures Inv(StartPoll(s, polls))
  {
    PollKeepsRings(s, polls);
    PollKeepsRest(s, polls);
  }

  lemma InjectFields(s: System)
    requires Shaped(s)
    ensures var t := Step(s, Inject);
      && t.nic == s.nic.(injectFault := true) && t.hist == s.hist.(injections := s.hist.injections + 1)
      && t.driver == s.driver && t.device == s.device && t.budget == s.budget && t.done == s.done
  {
  }

  lemma InjectKeepsRings(s: System)
    requires Shaped(s) && TxCounts(s) && TxRing(s) && RxCounts(s) && RxRing(s)
    ensures var t := Step(s, Inject); TxCounts(t) && TxRing(t) && RxCounts(t) && RxRing(t)
  {
    InjectFields(s);
    assert RxBase(Step(s, Inject)) == RxBase(s);
  }

  lemma InjectKeepsPcs(s: System)
    requires Shaped(s) && DriverInv(s) && DeviceInv(s)
    ensures DriverInv(Step(s, Inject)) && DeviceInv(Step(s, Inject))
  {
    InjectFields(s);
  }

  lemma InjectKeepsCounters(s: System)
    requires Shaped(s) && Accounted(s)
    ensures Accounted(Step(s, Inject))
  {
  }

  lemma InjectKeepsInv(s: System)
    requires Inv(s)
    ensures Inv(Step(s, Inject))
  {
    InjectKeepsRings(s);
    InjectKeepsPcs(s);
    InjectKeepsCounters(s);
  }

  lemma StepKeepsInv(s: System, e: Event)
    requires Inv(s)
    ensures Inv(Step(s, e))
  {
    match e
    case DriverCall(call) => CallKeepsInv(s, call);
    case DriverStep => DriverKeepsInv(s);
    case DeviceCall(polls) => PollKeepsInv(s, polls);
    case DeviceStep => DeviceKeepsInv(s);
    case Inject => InjectKeepsInv(s);
  }

  lemma InitHolds(capacity: nat)
    requires ValidCapacity(capacity)
    ensures Inv(Init(capacity))
  {
  }

  lemma {:induction false} RunKeepsInv(s: System, events: seq<Event>)
    requires Inv(s)
    ensures Inv(Run(s, events))
    decreases |events|
  {
    if events != [] {
      RunKeepsInv(s, events[..|events| - 1]);
      StepKeepsInv(Run(s, events[..|events| - 1]), events[|events| - 1]);
    }
  }
}
