/**
 The NIC descriptor-ring model as an interleaved transition system.

 One driver thread and one device thread share a `Nic`. Every step of either
 thread performs at most one access to shared atomic state, or one access to the
 non-atomic fields of a descriptor; private cursor updates ride along with the
 neighbouring access. Fault injection may happen between any two steps.
 */
module NicModel {
  import opened Bytes

  const MAX_RING: nat := 64
  const MTU: nat := 1536

  type Frame = seq<Byte>

  datatype Owner = Free | Device | Done

  /** A descriptor; frame stands for the first length bytes of its buffer, all that is ever read. */
  datatype Descriptor = Descriptor(owner: Owner, error: bool, frame: Frame)

  /** The three interrupt-status bits. */
  datatype Irq = Irq(tx: bool, rx: bool, error: bool)

  datatype Stats = Stats(txCompleted: nat, rxCompleted: nat, rxNoBuffer: nat, txErrors: nat)

  datatype Nic = Nic(
    tx: seq<Descriptor>, rx: seq<Descriptor>, capacity: nat,
    txSubmit: nat, txReclaim: nat, deviceTx: nat, deviceRx: nat, rxConsume: nat,
    txHead: nat, txTail: nat, rxHead: nat, rxTail: nat,
    irq: Irq, injectFault: bool, stats: Stats)

  // ----- Driver thread -----

  datatype Call = Submit(packet: Frame) | Reclaim | Receive(room: nat) | TakeInterrupts

  datatype Return =
    | SubmitInvalid | SubmitFull | SubmitOk
    | Reclaimed(count: nat, errors: nat)
    | ReceiveEmpty | ReceiveTooSmall | ReceiveOk(frame: Frame)
    | Took(bits: Irq)

  datatype DriverPc =
    | DriverIdle
    | SubmitLoad(packet: Frame)
    | SubmitWrite(packet: Frame)
    | SubmitPublish(packet: Frame)
    | SubmitAdvance
    | ReclaimLoad(count: nat, errors: nat)
    | ReclaimRead(count: nat, errors: nat)
    | ReclaimRelease(count: nat, errors: nat)
    | ReceiveLoad(room: nat)
    | ReceiveRead(room: nat)
    | ReceiveRelease(frame: Frame)
    | ReceiveAdvance(frame: Frame)
    | TakeExchange

  // ----- Device thread -----

  datatype DevicePc =
    | DeviceIdle
    | PollTx
    | TakeFault
    | CheckTx(fault: bool)
    | MarkError | CountError | RaiseError
    | PollRx | CountNoBuffer
    | CopyFrame | PublishRx | AdvanceRx | CountRx | RaiseRx
    | CountTx | CompleteTx | AdvanceTx | RaiseTx

  /** What became of a frame the device took from the TX ring. */
  datatype Outcome = Faulted | NoBuffer | Delivered

  /** Facts about the run so far; no step of either thread branches on them. */
  datatype History = History(
    submitted: seq<Frame>,     // frames published to the device, in order
    outcomes: seq<Outcome>,    // fate of each frame the device has decided on
    delivered: seq<Frame>,     // frames the device published in the RX ring
    received: seq<Frame>,      // frames the driver took back
    completed: nat,            // TX descriptors handed back by the device
    reclaimed: nat,            // TX descriptors freed by the driver
    injections: nat,           // nic_inject_tx_error calls
    results: seq<Return>)      // results of the driver's calls, oldest first

  datatype System = System(
    nic: Nic, driver: DriverPc, device: DevicePc, budget: nat, done: nat, hist: History)

  datatype Event = DriverCall(call: Call) | DriverStep | DeviceCall(polls: nat) | DeviceStep | Inject

  // ----- Initialisation -----

  function InitNic(capacity: nat): (n: Nic) {
    Nic(seq(MAX_RING, _ => Descriptor(Free, false, [])),
        seq(MAX_RING, _ => Descriptor(Device, false, [])),
        capacity, 0, 0, 0, 0, 0, 0, 0, 0, 0, Irq(false, false, false), false, Stats(0, 0, 0, 0))
  }

  /** nic_model_init rejects a capacity outside 1..MAX_RING. */
  predicate ValidCapacity(capacity: nat) { 1 <= capacity <= MAX_RING }

  function Init(capacity: nat): (s: System) {
    System(InitNic(capacity), DriverIdle, DeviceIdle, 0, 0, History([], [], [], [], 0, 0, 0, []))
  }

  // ----- Shape: what makes every step well defined -----

  predicate ShapedNic(n: Nic) {
    && |n.tx| == |n.rx| == MAX_RING
    && ValidCapacity(n.capacity)
    && n.txSubmit < n.capacity && n.txReclaim < n.capacity && n.deviceTx < n.capacity
    && n.deviceRx < n.capacity && n.rxConsume < n.capacity
  }

  predicate ValidPacket(packet: Frame) { 1 <= |packet| <= MTU }

  predicate Shaped(s: System) {
    && ShapedNic(s.nic)
    && (s.driver.SubmitLoad? || s.driver.SubmitWrite? || s.driver.SubmitPublish? ==> ValidPacket(s.driver.packet))
  }

  /** (cursor + 1) % capacity. */
  function Next(cursor: nat, capacity: nat): (r: nat)
    requires cursor < capacity
    ensures r == if cursor + 1 == capacity then 0 else cursor + 1
  {
    (cursor + 1) % capacity
  }

  function SetOwner(ring: seq<Descriptor>, i: nat, owner: Owner): (r: seq<Descriptor>)
    requires i < |ring|
  {
    ring[i := ring[i].(owner := owner)]
  }

  /** memcpy of the frame, then length and error: the non-atomic fields. */
  function Fill(ring: seq<Descriptor>, i: nat, frame: Frame): (r: seq<Descriptor>)
    requires i < |ring|
  {
    ring[i := ring[i].(error := false, frame := frame)]
  }

  function MarkFault(ring: seq<Descriptor>, i: nat): (r: seq<Descriptor>)
    requires i < |ring|
  {
    ring[i := ring[i].(error := true)]
  }

  // ----- Driver steps -----

  function Returning(s: System, r: Return): (s': System) {
    s.(driver := DriverIdle, hist := s.hist.(results := s.hist.results + [r]))
  }

  /** A call by the idle driver thread; a call while one is running is not part of the discipline. */
  function StartCall(s: System, call: Call): (s': System)
    requires Shaped(s)
    ensures Shaped(s')
  {
    if s.driver != DriverIdle then s
    else match call
      case Submit(packet) => if ValidPacket(packet) then s.(driver := SubmitLoad(packet)) else Returning(s, SubmitInvalid)
      case Reclaim => s.(driver := ReclaimLoad(0, 0))
      case Receive(room) => s.(driver := ReceiveLoad(room))
      case TakeInterrupts => s.(driver := TakeExchange)
  }

  function StepDriver(s: System): (s': System)
    requires Shaped(s)
    ensures Shaped(s')
  {
    var n, h := s.nic, s.hist;
    match s.driver
    case DriverIdle => s
    case SubmitLoad(packet) =>
      if n.tx[n.txSubmit].owner != Free then Returning(s, SubmitFull) else s.(driver := SubmitWrite(packet))
    case SubmitWrite(packet) =>
      s.(nic := n.(tx := Fill(n.tx, n.txSubmit, packet)), driver := SubmitPublish(packet))
    case SubmitPublish(packet) =>
      s.(nic := n.(tx := SetOwner(n.tx, n.txSubmit, Device)), driver := SubmitAdvance,
         hist := h.(submitted := h.submitted + [packet]))
    case SubmitAdvance =>
      var cursor := Next(n.txSubmit, n.capacity);
      Returning(s.(nic := n.(txSubmit := cursor, txTail := cursor)), SubmitOk)
    case ReclaimLoad(count, errors) =>
      if count >= n.capacity || n.tx[n.txReclaim].owner != Done then Returning(s, Reclaimed(count, errors))
      else s.(driver := ReclaimRead(count, errors))
    case ReclaimRead(count, errors) =>
      s.(driver := ReclaimRelease(count, if n.tx[n.txReclaim].error then errors + 1 else errors))
    case ReclaimRelease(count, errors) =>
      s.(nic := n.(tx := SetOwner(n.tx, n.txReclaim, Free), txReclaim := Next(n.txReclaim, n.capacity)),
         driver := ReclaimLoad(count + 1, errors), hist := h.(reclaimed := h.reclaimed + 1))
    case ReceiveLoad(room) =>
      if n.rx[n.rxConsume].owner != Done then Returning(s, ReceiveEmpty) else s.(driver := ReceiveRead(room))
    case ReceiveRead(room) =>
      if room < |n.rx[n.rxConsume].frame| then Returning(s, ReceiveTooSmall)
      else s.(driver := ReceiveRelease(n.rx[n.rxConsume].frame))
    case ReceiveRelease(frame) =>
      s.(nic := n.(rx := SetOwner(n.rx, n.rxConsume, Device)), driver := ReceiveAdvance(frame),
         hist := h.(received := h.received + [frame]))
    case ReceiveAdvance(frame) =>
      var cursor := Next(n.rxConsume, n.capacity);
      Returning(s.(nic := n.(rxConsume := cursor, rxHead := cursor)), ReceiveOk(frame))
    case TakeExchange =>
      Returning(s.(nic := n.(irq := Irq(false, false, false))), Took(n.irq))
  }

  // ----- Device steps -----

  /** nic_device_step bounds the budget by the ring size. */
  function StartPoll(s: System, polls: nat): (s': System)
    requires Shaped(s)
    ensures Shaped(s')
  {
    if s.device != DeviceIdle then s
    else s.(device := PollTx, budget := if polls > s.nic.capacity then s.nic.capacity else polls, done := 0)
  }

  function StepDevice(s: System): (s': System)
    requires Shaped(s)
    ensures Shaped(s')
  {
    var n, h := s.nic, s.hist;
    match s.device
    case DeviceIdle => s
    case PollTx =>
      if s.done >= s.budget || n.tx[n.deviceTx].owner != Device then s.(device := DeviceIdle)
      else s.(device := TakeFault)
    case TakeFault => s.(nic := n.(injectFault := false), device := CheckTx(n.injectFault))
    case CheckTx(fault) =>
      var length := |n.tx[n.deviceTx].frame|;
      if fault || length == 0 || length > MTU then s.(device := MarkError) else s.(device := PollRx)
    case MarkError =>
      s.(nic := n.(tx := MarkFault(n.tx, n.deviceTx)), device := CountError,
         hist := h.(outcomes := h.outcomes + [Faulted]))
    case CountError => s.(nic := n.(stats := n.stats.(txErrors := n.stats.txErrors + 1)), device := RaiseError)
    case RaiseError => s.(nic := n.(irq := n.irq.(error := true)), device := CountTx)
    case PollRx =>
      if n.rx[n.deviceRx].owner != Device
      then s.(device := CountNoBuffer, hist := h.(outcomes := h.outcomes + [NoBuffer]))
      else s.(device := CopyFrame)
    case CountNoBuffer => s.(nic := n.(stats := n.stats.(rxNoBuffer := n.stats.rxNoBuffer + 1)), device := CountTx)
    case CopyFrame =>
      s.(nic := n.(rx := Fill(n.rx, n.deviceRx, n.tx[n.deviceTx].frame)), device := PublishRx)
    case PublishRx =>
      s.(nic := n.(rx := SetOwner(n.rx, n.deviceRx, Done)), device := AdvanceRx,
         hist := h.(outcomes := h.outcomes + [Delivered],
                    delivered := h.delivered + [n.rx[n.deviceRx].frame]))
    case AdvanceRx =>
      var cursor := Next(n.deviceRx, n.capacity);
      s.(nic := n.(deviceRx := cursor, rxTail := cursor), device := CountRx)
    case CountRx => s.(nic := n.(stats := n.stats.(rxCompleted := n.stats.rxCompleted + 1)), device := RaiseRx)
    case RaiseRx => s.(nic := n.(irq := n.irq.(rx := true)), device := CountTx)
    case CountTx => s.(nic := n.(stats := n.stats.(txCompleted := n.stats.txCompleted + 1)), device := CompleteTx)
    case CompleteTx =>
      s.(nic := n.(tx := SetOwner(n.tx, n.deviceTx, Done)), device := AdvanceTx,
         hist := h.(completed := h.completed + 1))
    case AdvanceTx =>
      var cursor := Next(n.deviceTx, n.capacity);
      s.(nic := n.(deviceTx := cursor, txHead := cursor), device := RaiseTx)
    case RaiseTx => s.(nic := n.(irq := n.irq.(tx := true)), device := PollTx, done := s.done + 1)
  }

  // ----- Runs -----

  function Step(s: System, e: Event): (s': System)
    requires Shaped(s)
    ensures Shaped(s')
  {
    match e
    case DriverCall(call) => StartCall(s, call)
    case DriverStep => StepDriver(s)
    case DeviceCall(polls) => StartPoll(s, polls)
    case DeviceStep => StepDevice(s)
    case Inject => s.(nic := s.nic.(injectFault := true), hist := s.hist.(injections := s.hist.injections + 1))
  }

  function Run(s: System, events: seq<Event>): (s': System)
    requires Shaped(s)
    ensures Shaped(s')
    decreases |events|
  {
    if events == [] then s else Step(Run(s, events[..|events| - 1]), events[|events| - 1])
  }
}
