/** The interrupt bits: which are set at any time, and what nic_take_interrupts returns. */
module NicInterrupts {
  import opened Basics
  import opened NicModel
  import opened NicRing
  import opened NicInvariant

  /** How many frames the device has completed, delivered and failed, interrupt included. */
  datatype Tally = Tally(tx: int, rx: int, error: int)

  function Tallied(s: System): (r: Tally) {
    Tally(
      s.hist.completed - Unit(s.device.AdvanceTx? || s.device.RaiseTx?),
      |s.hist.delivered| - Unit(s.device.AdvanceRx? || s.device.CountRx? || s.device.RaiseRx?),
      Count(s.hist.outcomes, Faulted) - Unit(s.device.CountError? || s.device.RaiseError?))
  }

  /** The tally when the interrupt bits were last taken, or at the start. */
  function AtLastTake(s: System, events: seq<Event>): (r: Tally)
    requires Shaped(s)
    decreases |events|
  {
    if events == [] then Tallied(s)
    else
      var before := Run(s, events[..|events| - 1]);
      if events[|events| - 1].DriverStep? && before.driver.TakeExchange? then Tallied(before)
      else AtLastTake(s, events[..|events| - 1])
  }

  /** The bits that tell what was completed, delivered and failed from one tally to the other. */
  function NewSince(from: Tally, to: Tally): (r: Irq) { Irq(to.tx > from.tx, to.rx > from.rx, to.error > from.error) }

  predicate NotBefore(from: Tally, to: Tally) { to.tx >= from.tx && to.rx >= from.rx && to.error >= from.error }

  predicate IrqExact(s: System, from: Tally) { s.nic.irq == NewSince(from, Tallied(s)) && NotBefore(from, Tallied(s)) }

  lemma DeviceTally(s: System)
    requires Shaped(s)
    ensures Tallied(StepDevice(s)).tx == Tallied(s).tx + Unit(s.device.RaiseTx?)
    ensures Tallied(StepDevice(s)).rx == Tallied(s).rx + Unit(s.device.RaiseRx?)
  {
  }

  /** The fate a device step records, if it records one. */
  lemma DeviceRecords(s: System)
    requires Shaped(s)
    ensures var was, now := s.hist.outcomes, StepDevice(s).hist.outcomes;
      if s.device.MarkError? then now == was + [Faulted] else now in {was, was + [NoBuffer], was + [Delivered]}
  {
  }

  lemma DeviceFails(s: System)
    requires Shaped(s)
    ensures var t := StepDevice(s);
      t.device.CountError? || t.device.RaiseError? <==> s.device.MarkError? || s.device.CountError?
  {
  }

  lemma DeviceFaultTally(s: System)
    requires Shaped(s)
    ensures Tallied(StepDevice(s)).error == Tallied(s).error + Unit(s.device.RaiseError?)
  {
    DeviceRecords(s);
    DeviceFails(s);
    FaultsCounted(s.hist.outcomes);
  }

  lemma FaultsCounted(outcomes: seq<Outcome>)
    ensures Count(outcomes + [Faulted], Faulted) == Count(outcomes, Faulted) + 1
    ensures Count(outcomes + [NoBuffer], Faulted) == Count(outcomes + [Delivered], Faulted) == Count(outcomes, Faulted)
  {
    CountAppend(outcomes, Faulted, Faulted);
    CountAppend(outcomes, NoBuffer, Faulted);
    CountAppend(outcomes, Delivered, Faulted);
  }

  lemma DeviceIrq(s: System)
    requires Shaped(s)
    ensures StepDevice(s).nic.irq
      == Irq(s.nic.irq.tx || s.device.RaiseTx?, s.nic.irq.rx || s.device.RaiseRx?, s.nic.irq.error || s.device.RaiseError?)
  {
  }

  lemma DriverIrq(s: System)
    requires Shaped(s)
    ensures Tallied(StepDriver(s)) == Tallied(s)
    ensures StepDriver(s).nic.irq == if s.driver.TakeExchange? then Irq(false, false, false) else s.nic.irq
  {
  }

  lemma QuietIrq(s: System, e: Event)
    requires Shaped(s) && !e.DriverStep? && !e.DeviceStep?
    ensures Tallied(Step(s, e)) == Tallied(s) && Step(s, e).nic.irq == s.nic.irq
  {
  }

  lemma StepKeepsIrqs(s: System, e: Event, from: Tally)
    requires Shaped(s) && IrqExact(s, from)
    ensures IrqExact(Step(s, e), if e.DriverStep? && s.driver.TakeExchange? then Tallied(s) else from)
  {
    match e
    case DriverStep => DriverIrq(s);
    case DeviceStep =>
      DeviceTally(s);
      DeviceFaultTally(s);
      DeviceIrq(s);
    case _ => QuietIrq(s, e);
  }

  lemma {:induction false} RunKeepsIrqs(s: System, events: seq<Event>)
    requires Shaped(s) && IrqExact(s, Tallied(s))
    ensures IrqExact(Run(s, events), AtLastTake(s, events))
    decreases |events|
  {
    if events != [] {
      var prefix := events[..|events| - 1];
      RunKeepsIrqs(s, prefix);
      StepKeepsIrqs(Run(s, prefix), events[|events| - 1], AtLastTake(s, prefix));
    }
  }

  /** A bit is set exactly if something was completed, delivered or failed since the bits were last taken. */
  lemma BitsExact(capacity: nat, events: seq<Event>)
    requires ValidCapacity(capacity)
    ensures var s := Run(Init(capacity), events);
      s.nic.irq == NewSince(AtLastTake(Init(capacity), events), Tallied(s))
  {
    RunKeepsIrqs(Init(capacity), events);
  }

  lemma TakeReturns(s: System)
    requires Shaped(s) && s.driver.TakeExchange?
    ensures var t := StepDriver(s);
      && t.hist.results == s.hist.results + [Took(s.nic.irq)]
      && t.nic == s.nic.(irq := Irq(false, false, false)) && t.driver.DriverIdle?
  {
  }

  /** nic_take_interrupts returns exactly these bits, and clears them all. */
  lemma TakenExact(capacity: nat, events: seq<Event>)
    requires ValidCapacity(capacity)
    ensures var s := Run(Init(capacity), events); var t := StepDriver(s);
      s.driver.TakeExchange? ==>
        && t.hist.results == s.hist.results + [Took(NewSince(AtLastTake(Init(capacity), events), Tallied(s)))]
        && t.nic == s.nic.(irq := Irq(false, false, false)) && t.driver.DriverIdle?
  {
    BitsExact(capacity, events);
    var s := Run(Init(capacity), events);
    if s.driver.TakeExchange? {
      TakeReturns(s);
    }
  }
}
