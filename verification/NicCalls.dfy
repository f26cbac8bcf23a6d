/** The net effect of each call when it is not interrupted, derived from its single steps. */
module NicCalls {
  import opened Basics
  import opened NicModel
  import opened NicInvariant
  import opened NicRecovery

  // ----- Submit -----

  /** nic_tx_submit as one transition. */
  function SubmitEffect(s: System, packet: Frame): (r: System)
    requires Shaped(s)
  {
    var n, h := s.nic, s.hist;
    if !ValidPacket(packet) then Returning(s, SubmitInvalid)
    else if n.tx[n.txSubmit].owner != Free then Returning(s, SubmitFull)
    else
      var cursor := Next(n.txSubmit, n.capacity);
      Returning(s.(nic := n.(tx := n.tx[n.txSubmit := Descriptor(Device, false, packet)], txSubmit := cursor, txTail := cursor),
                   hist := h.(submitted := h.submitted + [packet])), SubmitOk)
  }

  lemma SubmitIsItsSteps(s: System, packet: Frame)
    requires Shaped(s) && s.driver.DriverIdle?
    ensures FinishDriver(StartCall(s, Submit(packet))) == SubmitEffect(s, packet)
  {
    var s1 := StartCall(s, Submit(packet));
    if ValidPacket(packet) {
      var s2 := StepDriver(s1);
      if s.nic.tx[s.nic.txSubmit].owner == Free {
        var s3 := StepDriver(s2);
        var s4 := StepDriver(s3);
        assert s4.driver == SubmitAdvance;
        assert s4.nic.tx == s.nic.tx[s.nic.txSubmit := Descriptor(Device, false, packet)];
        assert FinishDriver(s1) == FinishDriver(s2) == FinishDriver(s3) == FinishDriver(s4) == StepDriver(s4);
      } else {
        assert FinishDriver(s1) == s2;
      }
    }
  }

  // ----- Receive -----

  function ReceiveEffect(s: System, room: nat): (r: System)
    requires Shaped(s)
  {
    var n, h := s.nic, s.hist;
    var d := n.rx[n.rxConsume];
    if d.owner != Done then Returning(s, ReceiveEmpty)
    else if room < |d.frame| then Returning(s, ReceiveTooSmall)
    else
      var cursor := Next(n.rxConsume, n.capacity);
      Returning(s.(nic := n.(rx := SetOwner(n.rx, n.rxConsume, Device), rxConsume := cursor, rxHead := cursor),
                   hist := h.(received := h.received + [d.frame])), ReceiveOk(d.frame))
  }

  lemma ReceiveIsItsSteps(s: System, room: nat)
    requires Shaped(s) && s.driver.DriverIdle?
    ensures FinishDriver(StartCall(s, Receive(room))) == ReceiveEffect(s, room)
  {
    var s1 := StartCall(s, Receive(room));
    var s2 := StepDriver(s1);
    if s.nic.rx[s.nic.rxConsume].owner != Done {
      assert FinishDriver(s1) == s2;
    } else {
      var s3 := StepDriver(s2);
      if room < |s.nic.rx[s.nic.rxConsume].frame| {
        assert FinishDriver(s1) == FinishDriver(s2) == s3;
      } else {
        var s4 := StepDriver(s3);
        assert FinishDriver(s1) == FinishDriver(s2) == FinishDriver(s3) == FinishDriver(s4) == StepDriver(s4);
      }
    }
  }

  // ----- Reclaim -----

  /** Free the descriptor at the reclaim cursor. */
  function ReclaimOne(s: System): (r: System)
    requires Shaped(s)
    ensures Shaped(r) && r.nic.capacity == s.nic.capacity
  {
    var n, h := s.nic, s.hist;
    s.(nic := n.(tx := SetOwner(n.tx, n.txReclaim, Free), txReclaim := Next(n.txReclaim, n.capacity)),
       hist := h.(reclaimed := h.reclaimed + 1))
  }

  lemma ReclaimIteration(s: System, count: nat, errors: nat)
    requires Shaped(s) && s.driver.DriverIdle? && count < s.nic.capacity && s.nic.tx[s.nic.txReclaim].owner == Done
    ensures FinishDriver(s.(driver := ReclaimLoad(count, errors))) ==
      FinishDriver(ReclaimOne(s).(driver := ReclaimLoad(count + 1, errors + Unit(s.nic.tx[s.nic.txReclaim].error))))
  {
    var s1 := s.(driver := ReclaimLoad(count, errors));
    var s2 := StepDriver(s1);
    var s3 := StepDriver(s2);
    var s4 := StepDriver(s3);
    assert FinishDriver(s1) == FinishDriver(s2) == FinishDriver(s3) == FinishDriver(s4);
    assert s4 == ReclaimOne(s).(driver := ReclaimLoad(count + 1, errors + Unit(s.nic.tx[s.nic.txReclaim].error)));
  }

  lemma ReclaimEnd(s: System, count: nat, errors: nat)
    requires Shaped(s) && s.driver.DriverIdle? && (count >= s.nic.capacity || s.nic.tx[s.nic.txReclaim].owner != Done)
    ensures FinishDriver(s.(driver := ReclaimLoad(count, errors))) == Returning(s, Reclaimed(count, errors))
  {
    var s1 := s.(driver := ReclaimLoad(count, errors));
    assert FinishDriver(s1) == StepDriver(s1);
  }

  /** The rest of the reclaim loop, with count descriptors freed and errors of them failed so far. */
  function ReclaimRest(s: System, count: nat, errors: nat): (r: (System, nat, nat))
    requires Shaped(s)
    ensures Shaped(r.0)
    decreases Left(count, s.nic.capacity)
  {
    if count >= s.nic.capacity || s.nic.tx[s.nic.txReclaim].owner != Done then (s, count, errors)
    else ReclaimRest(ReclaimOne(s), count + 1, errors + Unit(s.nic.tx[s.nic.txReclaim].error))
  }

  lemma ReclaimRestOne(s: System, count: nat, errors: nat)
    requires Shaped(s) && count < s.nic.capacity && s.nic.tx[s.nic.txReclaim].owner == Done
    ensures ReclaimRest(s, count, errors) ==
      ReclaimRest(ReclaimOne(s), count + 1, errors + Unit(s.nic.tx[s.nic.txReclaim].error))
  {
  }

  lemma ReclaimRestEnd(s: System, count: nat, errors: nat)
    requires Shaped(s) && (count >= s.nic.capacity || s.nic.tx[s.nic.txReclaim].owner != Done)
    ensures ReclaimRest(s, count, errors) == (s, count, errors)
  {
  }

  /** nic_tx_reclaim as one transition. */
  function ReclaimEffect(s: System): (r: System)
    requires Shaped(s)
  {
    var (t, count, errors) := ReclaimRest(s, 0, 0);
    Returning(t, Reclaimed(count, errors))
  }

  lemma {:induction false} ReclaimRestSteps(s: System, count: nat, errors: nat)
    requires Shaped(s) && s.driver.DriverIdle?
    ensures var (t, c, e) := ReclaimRest(s, count, errors);
      FinishDriver(s.(driver := ReclaimLoad(count, errors))) == Returning(t, Reclaimed(c, e))
    decreases Left(count, s.nic.capacity)
  {
    if count >= s.nic.capacity || s.nic.tx[s.nic.txReclaim].owner != Done {
      ReclaimEnd(s, count, errors);
    } else {
      ReclaimIteration(s, count, errors);
      ReclaimRestSteps(ReclaimOne(s), count + 1, errors + Unit(s.nic.tx[s.nic.txReclaim].error));
    }
  }

  lemma ReclaimIsItsSteps(s: System)
    requires Shaped(s) && s.driver.DriverIdle?
    ensures FinishDriver(StartCall(s, Reclaim)) == ReclaimEffect(s)
  {
    ReclaimRestSteps(s, 0, 0);
  }

  // ----- Device poll -----

  /** The frame in hand fails: fault flag, error counter, error interrupt. */
  function FailFrame(s: System): (r: System)
    requires Shaped(s)
    ensures Shaped(r)
  {
    var n, h := s.nic, s.hist;
    s.(nic := n.(tx := MarkFault(n.tx, n.deviceTx), stats := n.stats.(txErrors := n.stats.txErrors + 1),
                 irq := n.irq.(error := true)),
       hist := h.(outcomes := h.outcomes + [Faulted]))
  }

  /** The frame in hand finds no receive buffer. */
  function DropFrame(s: System): (r: System) {
    var n, h := s.nic, s.hist;
    s.(nic := n.(stats := n.stats.(rxNoBuffer := n.stats.rxNoBuffer + 1)),
       hist := h.(outcomes := h.outcomes + [NoBuffer]))
  }

  /** The frame in hand is copied to the receive ring. */
  function DeliverFrame(s: System): (r: System)
    requires Shaped(s)
    ensures Shaped(r)
  {
    var n, h := s.nic, s.hist;
    var frame, cursor := n.tx[n.deviceTx].frame, Next(n.deviceRx, n.capacity);
    s.(nic := n.(rx := n.rx[n.deviceRx := Descriptor(Done, false, frame)], deviceRx := cursor, rxTail := cursor,
                 stats := n.stats.(rxCompleted := n.stats.rxCompleted + 1), irq := n.irq.(rx := true)),
       hist := h.(outcomes := h.outcomes + [Delivered], delivered := h.delivered + [frame]))
  }

  function CountFrame(s: System): (r: System) {
    s.(nic := s.nic.(stats := s.nic.stats.(txCompleted := s.nic.stats.txCompleted + 1)))
  }

  /** Hand the transmit descriptor back. */
  function HandBack(s: System): (r: System)
    requires Shaped(s)
    ensures Shaped(r)
  {
    var n, h := s.nic, s.hist;
    var cursor := Next(n.deviceTx, n.capacity);
    s.(nic := n.(tx := SetOwner(n.tx, n.deviceTx, Done), deviceTx := cursor, txHead := cursor, irq := n.irq.(tx := true)),
       hist := h.(completed := h.completed + 1))
  }

  /** Decide on the frame in hand: fault, drop or deliver. */
  function Dispose(s: System): (r: System)
    requires Shaped(s)
    ensures Shaped(r)
  {
    var n := s.nic;
    var t, length := s.(nic := n.(injectFault := false)), |n.tx[n.deviceTx].frame|;
    if n.injectFault || length == 0 || length > MTU then FailFrame(t)
    else if n.rx[n.deviceRx].owner != Device then DropFrame(t)
    else DeliverFrame(t)
  }

  lemma FailSteps(s: System)
    requires Shaped(s) && s.device.MarkError?
    ensures FinishDevice(s) == FinishDevice(FailFrame(s).(device := CountTx))
  {
    var s1 := StepDevice(s);
    var s2 := StepDevice(s1);
    assert StepDevice(s2) == FailFrame(s).(device := CountTx);
    assert FinishDevice(s) == FinishDevice(s1) == FinishDevice(s2) == FinishDevice(StepDevice(s2));
  }

  lemma FinishOne(s: System)
    requires Shaped(s) && !s.device.DeviceIdle?
    ensures FinishDevice(s) == FinishDevice(StepDevice(s))
  {
  }

  /** Copy and publish: the receive descriptor is filled and handed over. */
  function PublishFrame(s: System): (r: System)
    requires Shaped(s)
    ensures Shaped(r)
  {
    var n, h, frame := s.nic, s.hist, s.nic.tx[s.nic.deviceTx].frame;
    s.(nic := n.(rx := n.rx[n.deviceRx := Descriptor(Done, false, frame)]), device := AdvanceRx,
       hist := h.(outcomes := h.outcomes + [Delivered], delivered := h.delivered + [frame]))
  }

  lemma PublishSteps(s: System)
    requires Shaped(s) && s.device.CopyFrame? && s.nic.rx[s.nic.deviceRx].owner == Device
    ensures FinishDevice(s) == FinishDevice(PublishFrame(s))
  {
    FinishOne(s);
    FinishOne(StepDevice(s));
    assert StepDevice(StepDevice(s)) == PublishFrame(s);
  }

  /** Cursor, counter and interrupt of a delivered frame. */
  function AnnounceFrame(s: System): (r: System)
    requires Shaped(s)
    ensures Shaped(r)
  {
    var n, cursor := s.nic, Next(s.nic.deviceRx, s.nic.capacity);
    s.(nic := n.(deviceRx := cursor, rxTail := cursor,
                 stats := n.stats.(rxCompleted := n.stats.rxCompleted + 1), irq := n.irq.(rx := true)),
       device := CountTx)
  }

  lemma AnnounceSteps(s: System)
    requires Shaped(s) && s.device.AdvanceRx?
    ensures FinishDevice(s) == FinishDevice(AnnounceFrame(s))
  {
    var s1 := StepDevice(s);
    var s2 := StepDevice(s1);
    FinishOne(s);
    FinishOne(s1);
    FinishOne(s2);
    assert StepDevice(s2) == AnnounceFrame(s);
  }

  lemma DeliverIsBoth(s: System)
    requires Shaped(s) && s.device.DeviceIdle?
    ensures var published := PublishFrame(s).(device := DeviceIdle);
      Shaped(published) && AnnounceFrame(published).(device := DeviceIdle) == DeliverFrame(s)
  {
  }

  lemma DeliverSteps(s: System)
    requires Shaped(s) && s.device.CopyFrame? && s.nic.rx[s.nic.deviceRx].owner == Device
    ensures FinishDevice(s) == FinishDevice(DeliverFrame(s).(device := CountTx))
  {
    PublishSteps(s);
    AnnounceSteps(PublishFrame(s));
    assert AnnounceFrame(PublishFrame(s)) == DeliverFrame(s).(device := CountTx);
  }

  lemma HandBackSteps(s: System)
    requires Shaped(s) && s.device.CountTx?
    ensures FinishDevice(s) == FinishDevice(HandBack(CountFrame(s)).(device := PollTx, done := s.done + 1))
  {
    var s1 := StepDevice(s);
    var s2 := StepDevice(s1);
    var s3 := StepDevice(s2);
    assert StepDevice(s3) == HandBack(CountFrame(s)).(device := PollTx, done := s.done + 1);
    assert FinishDevice(s) == FinishDevice(s1) == FinishDevice(s2) == FinishDevice(s3) == FinishDevice(StepDevice(s3));
  }

  /** From taking the fault to knowing which way the frame goes. */
  function Judge(s: System): (r: System)
    requires Shaped(s)
    ensures Shaped(r)
  {
    var t, length := s.(nic := s.nic.(injectFault := false)), |s.nic.tx[s.nic.deviceTx].frame|;
    t.(device := if s.nic.injectFault || length == 0 || length > MTU then MarkError else PollRx)
  }

  lemma JudgeSteps(s: System)
    requires Shaped(s) && s.device.TakeFault?
    ensures FinishDevice(s) == FinishDevice(Judge(s))
  {
    FinishOne(s);
    FinishOne(StepDevice(s));
    assert StepDevice(StepDevice(s)) == Judge(s);
  }

  lemma PassSteps(s: System)
    requires Shaped(s) && s.device.PollRx?
    ensures FinishDevice(s) ==
      FinishDevice((if s.nic.rx[s.nic.deviceRx].owner != Device then DropFrame(s) else DeliverFrame(s)).(device := CountTx))
  {
    var s1 := StepDevice(s);
    FinishOne(s);
    if s.nic.rx[s.nic.deviceRx].owner != Device {
      FinishOne(s1);
      assert StepDevice(s1) == DropFrame(s).(device := CountTx);
    } else {
      DeliverSteps(s1);
      assert DeliverFrame(s1).(device := CountTx) == DeliverFrame(s).(device := CountTx);
    }
  }

  /** Where a judged frame ends up. */
  function SettleFate(s: System): (r: System)
    requires Shaped(s)
    ensures Shaped(r)
  {
    if s.device.MarkError? then FailFrame(s)
    else if s.nic.rx[s.nic.deviceRx].owner != Device then DropFrame(s)
    else DeliverFrame(s)
  }

  lemma SettleSteps(s: System)
    requires Shaped(s) && (s.device.MarkError? || s.device.PollRx?)
    ensures FinishDevice(s) == FinishDevice(SettleFate(s).(device := CountTx))
  {
    if s.device.MarkError? {
      FailSteps(s);
    } else {
      PassSteps(s);
    }
  }

  lemma JudgeThenSettleFate(s: System)
    requires Shaped(s)
    ensures SettleFate(Judge(s)).(device := CountTx) == Dispose(s).(device := CountTx)
  {
  }

  lemma DisposeSteps(s: System)
    requires Shaped(s) && s.device.TakeFault?
    ensures FinishDevice(s) == FinishDevice(Dispose(s).(device := CountTx))
  {
    JudgeSteps(s);
    SettleSteps(Judge(s));
    JudgeThenSettleFate(s);
  }

  /** One turn of nic_device_step's loop. */
  lemma PollIteration(s: System, budget: nat, done: nat)
    requires Shaped(s) && done < budget && s.nic.tx[s.nic.deviceTx].owner == Device
    ensures FinishDevice(s.(device := PollTx, budget := budget, done := done)) ==
      FinishDevice(HandBack(CountFrame(Dispose(s))).(device := PollTx, budget := budget, done := done + 1))
  {
    var s1 := s.(device := PollTx, budget := budget, done := done);
    var s2 := s.(device := TakeFault, budget := budget, done := done);
    FinishOne(s1);
    assert StepDevice(s1) == s2;
    DisposeSteps(s2);
    HandBackSteps(Dispose(s2).(device := CountTx));
    DisposeLocal(s, budget, done);
  }

  /** Disposing of a frame neither reads nor changes the loop variables. */
  lemma DisposeLocal(s: System, budget: nat, done: nat)
    requires Shaped(s)
    ensures Dispose(s.(device := TakeFault, budget := budget, done := done)).(device := CountTx)
         == Dispose(s).(device := CountTx, budget := budget, done := done)
    ensures HandBack(CountFrame(Dispose(s).(device := CountTx, budget := budget, done := done))).(device := PollTx, done := done + 1)
         == HandBack(CountFrame(Dispose(s))).(device := PollTx, budget := budget, done := done + 1)
  {
  }

  lemma PollEnd(s: System, budget: nat, done: nat)
    requires Shaped(s) && (done >= budget || s.nic.tx[s.nic.deviceTx].owner != Device)
    ensures FinishDevice(s.(device := PollTx, budget := budget, done := done)) ==
      s.(device := DeviceIdle, budget := budget, done := done)
  {
    var s1 := s.(device := PollTx, budget := budget, done := done);
    assert FinishDevice(s1) == StepDevice(s1);
  }

  /** One frame: fault, drop or deliver it, count it, hand the descriptor back. */
  function ProcessOne(s: System): (r: System)
    requires Shaped(s)
    ensures Shaped(r)
  {
    HandBack(CountFrame(Dispose(s)))
  }

  /** The rest of the poll loop, with done frames processed so far. */
  function PollRest(s: System, budget: nat, done: nat): (r: (System, nat))
    requires Shaped(s)
    ensures Shaped(r.0)
    decreases Left(done, budget)
  {
    if done >= budget || s.nic.tx[s.nic.deviceTx].owner != Device then (s, done)
    else PollRest(ProcessOne(s), budget, done + 1)
  }

  lemma PollRestOne(s: System, budget: nat, done: nat)
    requires Shaped(s) && done < budget && s.nic.tx[s.nic.deviceTx].owner == Device
    ensures PollRest(s, budget, done) == PollRest(ProcessOne(s), budget, done + 1)
  {
  }

  lemma PollRestEnd(s: System, budget: nat, done: nat)
    requires Shaped(s) && (done >= budget || s.nic.tx[s.nic.deviceTx].owner != Device)
    ensures PollRest(s, budget, done) == (s, done)
  {
  }

  /** nic_device_step as one transition, and the number it returns. */
  function PollEffect(s: System, polls: nat): (r: (System, nat))
    requires Shaped(s)
    ensures Shaped(r.0)
  {
    PollRest(s, if polls > s.nic.capacity then s.nic.capacity else polls, 0)
  }

  lemma {:induction false} PollRestSteps(s: System, budget: nat, done: nat)
    requires Shaped(s)
    ensures var (t, d) := PollRest(s, budget, done);
      FinishDevice(s.(device := PollTx, budget := budget, done := done)) == t.(device := DeviceIdle, budget := budget, done := d)
    decreases Left(done, budget)
  {
    if done >= budget || s.nic.tx[s.nic.deviceTx].owner != Device {
      PollEnd(s, budget, done);
    } else {
      PollIteration(s, budget, done);
      PollRestSteps(ProcessOne(s), budget, done + 1);
    }
  }

  lemma PollIsItsSteps(s: System, polls: nat)
    requires Shaped(s) && s.device.DeviceIdle?
    ensures var t, (r, done) := FinishDevice(StartPoll(s, polls)), PollEffect(s, polls);
      t == r.(device := DeviceIdle, budget := t.budget, done := done)
  {
    PollRestSteps(s, if polls > s.nic.capacity then s.nic.capacity else polls, 0);
  }

  lemma {:induction false} PollRestLocal(s: System, budget: nat, done: nat)
    requires Shaped(s)
    ensures var t := PollRest(s, budget, done).0; t.driver == s.driver && t.device == s.device && t.budget == s.budget && t.done == s.done
    decreases Left(done, budget)
  {
    if done < budget && s.nic.tx[s.nic.deviceTx].owner == Device {
      PollRestLocal(ProcessOne(s), budget, done + 1);
    }
  }

  /** The loop variables of the transition system are not touched by the effect. */
  lemma PollLeavesLoopVariables(s: System, polls: nat)
    requires Shaped(s)
    ensures var t := PollEffect(s, polls).0; t.driver == s.driver && t.device == s.device && t.budget == s.budget && t.done == s.done
  {
    PollRestLocal(s, if polls > s.nic.capacity then s.nic.capacity else polls, 0);
  }
}
