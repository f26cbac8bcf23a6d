/**
 The NIC model as an object: the functions of nic_model.c, each run without
 interruption, proved to be the corresponding run of the transition system.
 */
module NicDevice {
  import opened Basics
  import opened Bytes
  import M = NicModel
  import opened NicInvariant
  import opened NicRecovery
  import C = NicCalls

  type Frame = M.Frame

  /** A descriptor with its whole packet buffer; bytes past `length` are left over from earlier frames. */
  datatype Slot = Slot(owner: M.Owner, length: nat, error: bool, buffer: seq<Byte>)

  predicate Fits(d: Slot) { |d.buffer| == M.MTU && d.length <= M.MTU }

  function View(d: Slot): (r: M.Descriptor)
    requires Fits(d)
  {
    M.Descriptor(d.owner, d.error, d.buffer[..d.length])
  }

  ghost predicate AllFit(slots: seq<Slot>) {
    |slots| == M.MAX_RING && forall i :: 0 <= i < |slots| ==> Fits(slots[i])
  }

  ghost function Views(slots: seq<Slot>): (r: seq<M.Descriptor>)
    requires AllFit(slots)
    ensures |r| == |slots|
    ensures forall i :: 0 <= i < |slots| ==> r[i] == View(slots[i])
  {
    seq(|slots|, i requires 0 <= i < |slots| => View(slots[i]))
  }

  lemma ViewsUpdate(slots: seq<Slot>, i: nat, d: Slot)
    requires AllFit(slots) && i < |slots| && Fits(d)
    ensures AllFit(slots[i := d]) && Views(slots[i := d]) == Views(slots)[i := View(d)]
  {
  }

  class Nic {
    const tx: array<Slot>
    const rx: array<Slot>
    var capacity: nat
    var txSubmit: nat
    var txReclaim: nat
    var deviceTx: nat
    var deviceRx: nat
    var rxConsume: nat
    var txHead: nat
    var txTail: nat
    var rxHead: nat
    var rxTail: nat
    var irq: M.Irq
    var injectFault: bool
    var txCompleted: nat
    var rxCompleted: nat
    var rxNoBuffer: nat
    var txErrors: nat
    ghost var hist: M.History

    ghost predicate Valid()
      reads this, tx, rx
    {
      && tx != rx && AllFit(tx[..]) && AllFit(rx[..])
      && M.ValidCapacity(capacity)
      && txSubmit < capacity && txReclaim < capacity && deviceTx < capacity && deviceRx < capacity && rxConsume < capacity
    }

    ghost function Memory(): (r: M.Nic)
      reads this, tx, rx
      requires Valid()
    {
      M.Nic(Views(tx[..]), Views(rx[..]), capacity, txSubmit, txReclaim, deviceTx, deviceRx, rxConsume,
            txHead, txTail, rxHead, rxTail, irq, injectFault,
            M.Stats(txCompleted, rxCompleted, rxNoBuffer, txErrors))
    }

    /** The transition-system state with the driver at `driver` and the device at `device`. */
    ghost function At(driver: M.DriverPc, device: M.DevicePc, budget: nat, done: nat): (s: M.System)
      reads this, tx, rx
      requires Valid()
      ensures M.ShapedNic(s.nic)
    {
      M.System(Memory(), driver, device, budget, done, hist)
    }

    /** Both threads between calls. */
    ghost function Idle(): (s: M.System)
      reads this, tx, rx
      requires Valid()
      ensures M.Shaped(s)
    {
      At(M.DriverIdle, M.DeviceIdle, 0, 0)
    }

    constructor (n: nat)
      requires M.ValidCapacity(n)
      ensures Valid() && fresh(tx) && fresh(rx)
      ensures Idle() == M.Init(n)
    {
      var zeros: seq<Byte> := seq(M.MTU, _ => 0);
      tx := new Slot[M.MAX_RING](_ => Slot(M.Free, 0, false, zeros));
      rx := new Slot[M.MAX_RING](_ => Slot(M.Device, 0, false, zeros));
      capacity := n;
      txSubmit, txReclaim, deviceTx, deviceRx, rxConsume := 0, 0, 0, 0, 0;
      txHead, txTail, rxHead, rxTail := 0, 0, 0, 0;
      irq, injectFault := M.Irq(false, false, false), false;
      txCompleted, rxCompleted, rxNoBuffer, txErrors := 0, 0, 0, 0;
      hist := M.History([], [], [], [], 0, 0, 0, []);
      new;
      assert Views(tx[..]) == M.InitNic(n).tx;
      assert Views(rx[..]) == M.InitNic(n).rx;
    }

    /** nic_model_init: a capacity outside 1..MAX_RING is refused. */
    static method Create(n: nat) returns (nic: Nic?)
      ensures nic == null <==> n < 1 || n > 64
      ensures nic != null ==> fresh(nic) && nic.Valid() && nic.Idle() == M.Init(n)
    {
      if n == 0 || n > M.MAX_RING {
        return null;
      }
      nic := new Nic(n);
    }

    // ----- Single accesses to the rings -----

    method SetTxOwner(i: nat, owner: M.Owner)
      requires AllFit(tx[..]) && i < tx.Length
      modifies tx
      ensures AllFit(tx[..]) && Views(tx[..]) == M.SetOwner(old(Views(tx[..])), i, owner)
    {
      ghost var slots := tx[..];
      tx[i] := tx[i].(owner := owner);
      ViewsUpdate(slots, i, tx[i]);
      assert tx[..] == slots[i := tx[i]];
    }

    method FillTx(i: nat, frame: seq<Byte>)
      requires AllFit(tx[..]) && i < tx.Length && |frame| <= M.MTU
      modifies tx
      ensures AllFit(tx[..]) && Views(tx[..]) == M.Fill(old(Views(tx[..])), i, frame)
    {
      ghost var slots := tx[..];
      tx[i] := Slot(tx[i].owner, |frame|, false, Overlay(tx[i].buffer, frame));
      ViewsUpdate(slots, i, tx[i]);
      assert tx[..] == slots[i := tx[i]];
    }

    method MarkTxFault(i: nat)
      requires AllFit(tx[..]) && i < tx.Length
      modifies tx
      ensures AllFit(tx[..]) && Views(tx[..]) == M.MarkFault(old(Views(tx[..])), i)
    {
      ghost var slots := tx[..];
      tx[i] := tx[i].(error := true);
      ViewsUpdate(slots, i, tx[i]);
      assert tx[..] == slots[i := tx[i]];
    }

    method SetRxOwner(i: nat, owner: M.Owner)
      requires AllFit(rx[..]) && i < rx.Length
      modifies rx
      ensures AllFit(rx[..]) && Views(rx[..]) == M.SetOwner(old(Views(rx[..])), i, owner)
    {
      ghost var slots := rx[..];
      rx[i] := rx[i].(owner := owner);
      ViewsUpdate(slots, i, rx[i]);
      assert rx[..] == slots[i := rx[i]];
    }

    method FillRx(i: nat, frame: seq<Byte>)
      requires AllFit(rx[..]) && i < rx.Length && |frame| <= M.MTU
      modifies rx
      ensures AllFit(rx[..]) && Views(rx[..]) == M.Fill(old(Views(rx[..])), i, frame)
    {
      ghost var slots := rx[..];
      rx[i] := Slot(rx[i].owner, |frame|, false, Overlay(rx[i].buffer, frame));
      ViewsUpdate(slots, i, rx[i]);
      assert rx[..] == slots[i := rx[i]];
    }

    // ----- Driver side -----

    method InjectTxError()
      requires Valid()
      modifies this
      ensures Valid() && Idle() == M.Step(old(Idle()), M.Inject)
    {
      injectFault := true;
      hist := hist.(injections := hist.injections + 1);
    }

    method TakeInterrupts() returns (bits: M.Irq)
      requires Valid()
      modifies this
      ensures Valid() && Idle() == FinishDriver(M.StartCall(old(Idle()), M.TakeInterrupts))
      ensures hist.results == old(hist.results) + [M.Took(bits)]
    {
      ghost var s := M.StartCall(Idle(), M.TakeInterrupts);
      bits := irq;
      irq := M.Irq(false, false, false);
      hist := hist.(results := hist.results + [M.Took(bits)]);
      assert M.StepDriver(s) == Idle();
    }

    /** Fill the descriptor at the submit cursor and hand it to the device. */
    method Publish(packet: seq<Byte>)
      requires Valid() && M.ValidPacket(packet) && tx[txSubmit].owner == M.Free
      modifies this, tx
      ensures Valid() && Idle() == C.SubmitEffect(old(Idle()), packet)
      ensures hist.results == old(hist.results) + [M.SubmitOk]
    {
      FillTx(txSubmit, packet);
      SetTxOwner(txSubmit, M.Device);
      txSubmit := M.Next(txSubmit, capacity);
      txTail := txSubmit;
      hist := hist.(submitted := hist.submitted + [packet], results := hist.results + [M.SubmitOk]);
    }

    method TrySubmit(packet: seq<Byte>) returns (code: int)
      requires Valid()
      modifies this, tx
      ensures Valid() && Idle() == C.SubmitEffect(old(Idle()), packet)
      ensures code == -1 || code == 0 || code == 1
      ensures hist.results == old(hist.results) +
        [if code == -1 then M.SubmitInvalid else if code == 1 then M.SubmitFull else M.SubmitOk]
    {
      if |packet| == 0 || |packet| > M.MTU {
        hist := hist.(results := hist.results + [M.SubmitInvalid]);
        return -1;
      }
      if tx[txSubmit].owner != M.Free {
        hist := hist.(results := hist.results + [M.SubmitFull]);
        return 1;
      }
      Publish(packet);
      return 0;
    }

    method Submit(packet: seq<Byte>) returns (code: int)
      requires Valid()
      modifies this, tx
      ensures Valid() && Idle() == FinishDriver(M.StartCall(old(Idle()), M.Submit(packet)))
      ensures code == -1 || code == 0 || code == 1
      ensures hist.results == old(hist.results) +
        [if code == -1 then M.SubmitInvalid else if code == 1 then M.SubmitFull else M.SubmitOk]
    {
      C.SubmitIsItsSteps(Idle(), packet);
      code := TrySubmit(packet);
    }

    /** Copy the frame at the consume cursor out and repost its descriptor. */
    method TakeFrame(ghost room: nat) returns (packet: seq<Byte>)
      requires Valid() && rx[rxConsume].owner == M.Done && rx[rxConsume].length <= room
      modifies this, rx
      ensures Valid() && Idle() == C.ReceiveEffect(old(Idle()), room)
      ensures hist.results == old(hist.results) + [M.ReceiveOk(packet)]
    {
      packet := rx[rxConsume].buffer[..rx[rxConsume].length];
      SetRxOwner(rxConsume, M.Device);
      rxConsume := M.Next(rxConsume, capacity);
      rxHead := rxConsume;
      hist := hist.(received := hist.received + [packet], results := hist.results + [M.ReceiveOk(packet)]);
    }

    method TryReceive(room: nat) returns (code: int, packet: seq<Byte>)
      requires Valid()
      modifies this, rx
      ensures Valid() && Idle() == C.ReceiveEffect(old(Idle()), room)
      ensures code == -1 || code == 0 || code == 1
      ensures hist.results == old(hist.results) +
        [if code == -1 then M.ReceiveTooSmall else if code == 1 then M.ReceiveEmpty else M.ReceiveOk(packet)]
    {
      var d := rx[rxConsume];
      if d.owner != M.Done {
        hist := hist.(results := hist.results + [M.ReceiveEmpty]);
        return 1, [];
      }
      if room < d.length {
        hist := hist.(results := hist.results + [M.ReceiveTooSmall]);
        return -1, [];
      }
      packet := TakeFrame(room);
      return 0, packet;
    }

    /** Copies the next received frame out; `room` is the size of the caller's buffer. */
    method Receive(room: nat) returns (code: int, packet: seq<Byte>)
      requires Valid()
      modifies this, rx
      ensures Valid() && Idle() == FinishDriver(M.StartCall(old(Idle()), M.Receive(room)))
      ensures code == -1 || code == 0 || code == 1
      ensures hist.results == old(hist.results) +
        [if code == -1 then M.ReceiveTooSmall else if code == 1 then M.ReceiveEmpty else M.ReceiveOk(packet)]
    {
      C.ReceiveIsItsSteps(Idle(), room);
      code, packet := TryReceive(room);
    }

    /** Free the descriptor at the reclaim cursor. */
    method FreeOne() returns (error: bool)
      requires Valid()
      modifies this, tx
      ensures Valid() && Idle() == C.ReclaimOne(old(Idle())) && capacity == old(capacity)
      ensures error == old(tx[txReclaim].error)
    {
      error := tx[txReclaim].error;
      SetTxOwner(txReclaim, M.Free);
      txReclaim := M.Next(txReclaim, capacity);
      hist := hist.(reclaimed := hist.reclaimed + 1);
    }

    /** The body of the reclaim loop. */
    method ReclaimOne(ghost count: nat, ghost errors: nat, ghost goal: (M.System, nat, nat)) returns (error: bool)
      requires Valid() && count < capacity && tx[txReclaim].owner == M.Done
      requires C.ReclaimRest(Idle(), count, errors) == goal
      modifies this, tx
      ensures Valid() && capacity == old(capacity)
      ensures C.ReclaimRest(Idle(), count + 1, errors + Unit(error)) == goal
    {
      C.ReclaimRestOne(Idle(), count, errors);
      error := FreeOne();
    }

    method ReclaimLoop() returns (count: nat, errors: nat)
      requires Valid()
      modifies this, tx
      ensures Valid() && (Idle(), count, errors) == C.ReclaimRest(old(Idle()), 0, 0)
    {
      ghost var goal := C.ReclaimRest(Idle(), 0, 0);
      count, errors := 0, 0;
      while count < capacity && tx[txReclaim].owner == M.Done
        invariant Valid()
        invariant C.ReclaimRest(Idle(), count, errors) == goal
        decreases capacity - count
      {
        var error := ReclaimOne(count, errors, goal);
        count, errors := count + 1, errors + Unit(error);
      }
      C.ReclaimRestEnd(Idle(), count, errors);
    }

    method Reclaim() returns (count: nat, errors: nat)
      requires Valid()
      modifies this, tx
      ensures Valid() && Idle() == FinishDriver(M.StartCall(old(Idle()), M.Reclaim))
      ensures |hist.results| > 0 && hist.results[|hist.results| - 1] == M.Reclaimed(count, errors)
    {
      C.ReclaimIsItsSteps(Idle());
      count, errors := ReclaimLoop();
      hist := hist.(results := hist.results + [M.Reclaimed(count, errors)]);
    }

    // ----- Device side -----

    method Fail()
      requires Valid()
      modifies this, tx
      ensures Valid() && Idle() == C.FailFrame(old(Idle()))
    {
      MarkTxFault(deviceTx);
      txErrors := txErrors + 1;
      irq := irq.(error := true);
      hist := hist.(outcomes := hist.outcomes + [M.Faulted]);
    }

    /** Copy the frame at the device's transmit cursor to the receive ring and hand it over. */
    method CopyAcross() returns (frame: seq<Byte>)
      requires Valid() && rx[deviceRx].owner == M.Device
      modifies this, rx
      ensures Valid() && Idle() == C.PublishFrame(old(Idle())).(device := M.DeviceIdle)
    {
      frame := tx[deviceTx].buffer[..tx[deviceTx].length];
      FillRx(deviceRx, frame);
      SetRxOwner(deviceRx, M.Done);
      hist := hist.(outcomes := hist.outcomes + [M.Delivered], delivered := hist.delivered + [frame]);
    }

    /** Cursor, counter and interrupt of a delivered frame. */
    method Announce()
      requires Valid()
      modifies this
      ensures Valid() && Idle() == C.AnnounceFrame(old(Idle())).(device := M.DeviceIdle)
    {
      deviceRx := M.Next(deviceRx, capacity);
      rxTail := deviceRx;
      rxCompleted := rxCompleted + 1;
      irq := irq.(rx := true);
    }

    method Deliver()
      requires Valid() && rx[deviceRx].owner == M.Device
      modifies this, rx
      ensures Valid() && Idle() == C.DeliverFrame(old(Idle()))
    {
      C.DeliverIsBoth(Idle());
      var frame := CopyAcross();
      Announce();
    }

    method TakeFault() returns (error: bool)
      requires Valid()
      modifies this
      ensures Valid() && tx[..] == old(tx[..]) && rx[..] == old(rx[..])
      ensures Idle() == old(Idle()).(nic := old(Memory()).(injectFault := false)) && error == old(injectFault)
    {
      error := injectFault;
      injectFault := false;
    }

    method Drop()
      requires Valid()
      modifies this
      ensures Valid() && Idle() == C.DropFrame(old(Idle()))
    {
      rxNoBuffer := rxNoBuffer + 1;
      hist := hist.(outcomes := hist.outcomes + [M.NoBuffer]);
    }

    /** Fault, drop or deliver the frame at the device's transmit cursor. */
    method Dispose()
      requires Valid()
      modifies this, tx, rx
      ensures Valid() && Idle() == C.Dispose(old(Idle()))
    {
      var error := TakeFault();
      if error || tx[deviceTx].length == 0 || tx[deviceTx].length > M.MTU {
        Fail();
      } else if rx[deviceRx].owner != M.Device {
        Drop();
      } else {
        Deliver();
      }
    }

    method CountTx()
      requires Valid()
      modifies this
      ensures Valid() && Idle() == C.CountFrame(old(Idle()))
    {
      txCompleted := txCompleted + 1;
    }

    method HandBack()
      requires Valid()
      modifies this, tx
      ensures Valid() && Idle() == C.HandBack(old(Idle()))
    {
      SetTxOwner(deviceTx, M.Done);
      deviceTx := M.Next(deviceTx, capacity);
      txHead := deviceTx;
      irq := irq.(tx := true);
      hist := hist.(completed := hist.completed + 1);
    }

    /** The body of the device's poll loop. */
    method ProcessFrame()
      requires Valid()
      modifies this, tx, rx
      ensures Valid() && Idle() == C.ProcessOne(old(Idle()))
    {
      Dispose();
      CountTx();
      HandBack();
    }

    method PollOne(ghost budget: nat, ghost done: nat, ghost goal: (M.System, nat))
      requires Valid() && done < budget && tx[deviceTx].owner == M.Device
      requires C.PollRest(Idle(), budget, done) == goal
      modifies this, tx, rx
      ensures Valid() && C.PollRest(Idle(), budget, done + 1) == goal
    {
      C.PollRestOne(Idle(), budget, done);
      ProcessFrame();
    }

    method PollLoop(polls: nat) returns (done: nat)
      requires Valid()
      modifies this, tx, rx
      ensures Valid() && (Idle(), done) == C.PollEffect(old(Idle()), polls)
    {
      var budget := if polls > capacity then capacity else polls;
      ghost var goal := C.PollRest(Idle(), budget, 0);
      done := 0;
      while done < budget && tx[deviceTx].owner == M.Device
        invariant Valid()
        invariant C.PollRest(Idle(), budget, done) == goal
        decreases budget - done
      {
        PollOne(budget, done, goal);
        done := done + 1;
      }
      C.PollRestEnd(Idle(), budget, done);
    }

    method DeviceStep(polls: nat) returns (done: nat)
      requires Valid()
      modifies this, tx, rx
      ensures Valid()
      ensures var r := FinishDevice(M.StartPoll(old(Idle()), polls));
        Idle() == r.(budget := 0, done := 0) && done == r.done
    {
      C.PollIsItsSteps(Idle(), polls);
      C.PollLeavesLoopVariables(Idle(), polls);
      done := PollLoop(polls);
    }
  }
}
