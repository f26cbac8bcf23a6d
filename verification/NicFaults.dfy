/** Injected faults: which frames the device marks faulted, told from the events of the run. */
module NicFaults {
  import opened Basics
  import opened NicModel
  import opened NicRing
  import opened NicInvariant

  // ----- The events that bear on faults -----

  /** nic_inject_tx_error, or the device's exchange of the flag, made once for each frame it takes. */
  datatype Mark = Injection | Exchange

  /** The marks one event leaves; an exchange is a step of the device at the point where it takes the flag. */
  function MarksOf(s: System, e: Event): (r: seq<Mark>) {
    if e.Inject? then [Injection] else if e.DeviceStep? && s.device.TakeFault? then [Exchange] else []
  }

  /** The injections and exchanges of a run, in order. */
  function Marks(s: System, events: seq<Event>): (r: seq<Mark>)
    requires Shaped(s)
  {
    if events == [] then []
    else
      var prefix := events[..|events| - 1];
      Marks(s, prefix) + MarksOf(Run(s, prefix), events[|events| - 1])
  }

  /** There was an injection after the latest exchange. */
  predicate Raised(marks: seq<Mark>) { marks != [] && marks[|marks| - 1].Injection? }

  /** For each exchange in order: was a fault injected since the exchange before it? */
  function FaultsDue(marks: seq<Mark>): (r: seq<bool>) {
    if marks == [] then []
    else
      var before := marks[..|marks| - 1];
      FaultsDue(before) + if marks[|marks| - 1].Exchange? then [Raised(before)] else []
  }

  function CountTrue(bits: seq<bool>): (r: nat) {
    if bits == [] then 0 else CountTrue(bits[..|bits| - 1]) + Unit(bits[|bits| - 1])
  }

  // ----- What every step keeps -----

  /** The device has made the exchange for the frame in hand and not yet recorded its fate. */
  predicate Undecided(pc: DevicePc) {
    pc.CheckTx? || pc.MarkError? || pc.PollRx? || pc.CopyFrame? || pc.PublishRx?
  }

  /** The frame in hand is on the branch that its exchange calls for. */
  predicate OnBranch(pc: DevicePc, due: bool) {
    match pc
    case CheckTx(fault) => fault == due
    case MarkError => due
    case _ => !due
  }

  predicate Agree(outcomes: seq<Outcome>, due: seq<bool>) {
    |outcomes| <= |due| && forall k :: 0 <= k < |outcomes| ==> (outcomes[k] == Faulted <==> due[k])
  }

  predicate FaultInv(flag: bool, pc: DevicePc, outcomes: seq<Outcome>, pending: bool, due: seq<bool>) {
    && flag == pending
    && |due| == |outcomes| + Unit(Undecided(pc))
    && Agree(outcomes, due)
    && (Undecided(pc) ==> OnBranch(pc, due[|outcomes|]))
  }

  predicate Faulty(s: System, pending: bool, due: seq<bool>) {
    FaultInv(s.nic.injectFault, s.device, s.hist.outcomes, pending, due)
  }

  /** What a device step does to the flag, the point reached and the fates. */
  lemma DeviceFaultFrame(s: System)
    requires Shaped(s)
    ensures var t := StepDevice(s);
      && t.nic.injectFault == (s.nic.injectFault && !s.device.TakeFault?)
      && (s.device.TakeFault? ==> t.device == CheckTx(s.nic.injectFault))
      && (s.device.CheckTx? ==> t.device.MarkError? || t.device.PollRx?)
      && (s.device.CheckTx? && !s.device.fault ==>
            (t.device.MarkError? <==> !ValidPacket(s.nic.tx[s.nic.deviceTx].frame)))
      && (s.device.CheckTx? && s.device.fault ==> t.device.MarkError?)
      && (s.device.MarkError? ==> !Undecided(t.device) && t.hist.outcomes == s.hist.outcomes + [Faulted])
      && (s.device.PollRx? && !Undecided(t.device) ==> t.hist.outcomes == s.hist.outcomes + [NoBuffer])
      && (s.device.PublishRx? ==> !Undecided(t.device) && t.hist.outcomes == s.hist.outcomes + [Delivered])
  {
  }

  lemma DeviceFaultQuiet(s: System)
    requires Shaped(s)
    ensures var t := StepDevice(s);
      && (s.device.PollRx? && Undecided(t.device) ==> t.device.CopyFrame? && t.hist.outcomes == s.hist.outcomes)
      && (s.device.CopyFrame? ==> t.device.PublishRx?)
      && (!s.device.MarkError? && !s.device.PollRx? && !s.device.PublishRx? ==> t.hist.outcomes == s.hist.outcomes)
      && (!Undecided(s.device) && !s.device.TakeFault? ==> !Undecided(t.device))
  {
  }

  lemma TakeFaultKeeps(s: System, pending: bool, due: seq<bool>)
    requires Shaped(s) && Faulty(s, pending, due) && s.device.TakeFault?
    ensures Faulty(StepDevice(s), false, due + [pending])
  {
  }

  lemma CheckTxKeeps(s: System, pending: bool, due: seq<bool>)
    requires Inv(s) && Faulty(s, pending, due) && s.device.CheckTx?
    ensures Faulty(StepDevice(s), pending, due)
  {
    FrameInHandValid(s);
    DeviceFaultFrame(s);
    DeviceFaultQuiet(s);
  }

  lemma OthersKeep(s: System, pending: bool, due: seq<bool>)
    requires Shaped(s) && Faulty(s, pending, due) && !s.device.TakeFault? && !s.device.CheckTx?
    ensures Faulty(StepDevice(s), pending, due)
  {
    DeviceFaultFrame(s);
    DeviceFaultQuiet(s);
  }

  lemma ThreadKeeps(s: System, e: Event)
    requires Shaped(s) && !e.DeviceStep?
    ensures var t := Step(s, e);
      && t.nic.injectFault == (s.nic.injectFault || e.Inject?) && t.hist.outcomes == s.hist.outcomes
      && (t.device == s.device || (!Undecided(s.device) && !Undecided(t.device)))
  {
  }

  lemma StepKeepsFaults(s: System, e: Event, marks: seq<Mark>)
    requires Inv(s) && Faulty(s, Raised(marks), FaultsDue(marks))
    ensures var marks' := marks + MarksOf(s, e); Faulty(Step(s, e), Raised(marks'), FaultsDue(marks'))
  {
    MarksStep(marks, Injection);
    MarksStep(marks, Exchange);
    assert marks + [] == marks;
    if !e.DeviceStep? {
      ThreadKeeps(s, e);
    } else if s.device.TakeFault? {
      TakeFaultKeeps(s, Raised(marks), FaultsDue(marks));
    } else if s.device.CheckTx? {
      CheckTxKeeps(s, Raised(marks), FaultsDue(marks));
    } else {
      OthersKeep(s, Raised(marks), FaultsDue(marks));
    }
  }

  lemma MarksStep(marks: seq<Mark>, m: Mark)
    ensures Raised(marks + [m]) == m.Injection?
    ensures FaultsDue(marks + [m]) == FaultsDue(marks) + if m.Exchange? then [Raised(marks)] else []
  {
    assert (marks + [m])[..|marks|] == marks;
  }

  lemma {:induction false} RunKeepsFaults(s: System, events: seq<Event>)
    requires Inv(s) && Faulty(s, Raised([]), FaultsDue([]))
    ensures Faulty(Run(s, events), Raised(Marks(s, events)), FaultsDue(Marks(s, events)))
    decreases |events|
  {
    if events != [] {
      var prefix := events[..|events| - 1];
      RunKeepsFaults(s, prefix);
      RunKeepsInv(s, prefix);
      StepKeepsFaults(Run(s, prefix), events[|events| - 1], Marks(s, prefix));
    }
  }

  // ----- Theorems -----

  /**
   The k-th frame the device takes is faulted exactly if a fault was injected between the exchange made for the
   frame before it and its own, and the flag is up exactly if one was injected since the last.
   */
  lemma FaultExact(capacity: nat, events: seq<Event>)
    requires ValidCapacity(capacity)
    ensures var s := Run(Init(capacity), events); var marks := Marks(Init(capacity), events); var due := FaultsDue(marks);
      && s.nic.injectFault == Raised(marks)
      && |due| == |s.hist.outcomes| + Unit(Undecided(s.device))
      && forall k :: 0 <= k < |s.hist.outcomes| ==> (s.hist.outcomes[k] == Faulted <==> due[k])
  {
    InitHolds(capacity);
    RunKeepsFaults(Init(capacity), events);
  }

  lemma {:induction false} CountFaults(outcomes: seq<Outcome>, due: seq<bool>)
    requires |outcomes| == |due| && Agree(outcomes, due)
    ensures Count(outcomes, Faulted) == CountTrue(due)
  {
    if outcomes != [] {
      CountFaults(outcomes[..|outcomes| - 1], due[..|due| - 1]);
    }
  }

  /** Between frames, tx_errors is the number of exchanges that found a fault injected. */
  lemma ErrorsAreDueFaults(capacity: nat, events: seq<Event>)
    requires ValidCapacity(capacity)
    ensures var s := Run(Init(capacity), events);
      s.device.DeviceIdle? || s.device.PollTx? ==>
        s.nic.stats.txErrors == CountTrue(FaultsDue(Marks(Init(capacity), events)))
  {
    var s := Run(Init(capacity), events);
    FaultExact(capacity, events);
    InitHolds(capacity);
    RunKeepsInv(Init(capacity), events);
    if s.device.DeviceIdle? || s.device.PollTx? {
      CountFaults(s.hist.outcomes, FaultsDue(Marks(Init(capacity), events)));
    }
  }
}
