/** The error counts that nic_tx_reclaim reports, against the faults the device recorded. */
module NicErrors {
  import opened Basics
  import opened NicModel
  import opened NicRing
  import opened NicInvariant

  /** Sum of the error counts reported by all finished reclaims. */
  function Reported(results: seq<Return>): (r: nat) {
    if results == [] then 0
    else
      var last := results[|results| - 1];
      Reported(results[..|results| - 1]) + if last.Reclaimed? then last.errors else 0
  }

  /** Errors counted by a reclaim still under way. */
  function Pending(driver: DriverPc): (r: nat) {
    if driver.ReclaimLoad? || driver.ReclaimRead? || driver.ReclaimRelease? then driver.errors else 0
  }

  /** Descriptors whose error flag the driver has read. */
  function Inspected(s: System): (r: nat) { s.hist.reclaimed + Unit(s.driver.ReclaimRelease?) }

  predicate ReportInv(s: System) {
    && Inspected(s) <= |s.hist.outcomes|
    && Reported(s.hist.results) + Pending(s.driver) == Count(s.hist.outcomes[..Inspected(s)], Faulted)
  }

  lemma ReportedAppend(results: seq<Return>, r: Return)
    ensures Reported(results + [r]) == Reported(results) + if r.Reclaimed? then r.errors else 0
  {
    assert (results + [r])[..|results|] == results;
  }

  /** The error flag of the descriptor being reclaimed tells its frame's fate. */
  lemma FlagTells(s: System)
    requires Shaped(s) && TxCounts(s) && TxRing(s) && DriverInv(s) && DeviceInv(s) && s.driver.ReclaimRead?
    ensures s.hist.reclaimed < |s.hist.outcomes|
    ensures s.nic.tx[s.nic.txReclaim].error == FaultAt(s.hist.outcomes, s.hist.reclaimed)
  {
    SlotAt(s.nic.capacity, s.nic.txReclaim, 0, s.nic.txReclaim);
  }

  lemma InspectOne(s: System)
    requires Shaped(s) && s.driver.ReclaimRead? && ReportInv(s) && s.hist.reclaimed < |s.hist.outcomes|
    requires s.nic.tx[s.nic.txReclaim].error == FaultAt(s.hist.outcomes, s.hist.reclaimed)
    ensures ReportInv(StepDriver(s))
  {
    var h := s.hist;
    assert h.outcomes[..h.reclaimed + 1][..h.reclaimed] == h.outcomes[..h.reclaimed];
  }

  /** Steps other than reading the flag move errors from the running total to the log, if anywhere. */
  lemma PassOnReport(s: System)
    requires Shaped(s) && !s.driver.ReclaimRead? && ReportInv(s)
    ensures ReportInv(StepDriver(s))
  {
    var h, s' := s.hist, StepDriver(s);
    assert s'.hist.outcomes == h.outcomes && Inspected(s') == Inspected(s);
    if s'.hist.results != h.results {
      var r := s'.hist.results[|h.results|];
      assert s'.hist.results == h.results + [r];
      assert Pending(s.driver) == Pending(s'.driver) + if r.Reclaimed? then r.errors else 0;
      ReportedAppend(h.results, r);
    } else {
      assert Pending(s'.driver) == Pending(s.driver);
    }
  }

  lemma DriverKeepsReport(s: System)
    requires Inv(s) && ReportInv(s)
    ensures ReportInv(StepDriver(s))
  {
    if s.driver.ReclaimRead? {
      FlagTells(s);
      InspectOne(s);
    } else {
      PassOnReport(s);
    }
  }

  lemma DeviceKeepsReport(s: System)
    requires Shaped(s) && ReportInv(s)
    ensures ReportInv(StepDevice(s))
  {
    var h, h' := s.hist, StepDevice(s).hist;
    assert h'.results == h.results && h'.reclaimed == h.reclaimed && StepDevice(s).driver == s.driver;
    assert h.outcomes <= h'.outcomes;
    assert h'.outcomes[..Inspected(s)] == h.outcomes[..Inspected(s)];
  }

  lemma CallKeepsReport(s: System, call: Call)
    requires Shaped(s) && ReportInv(s)
    ensures ReportInv(StartCall(s, call))
  {
    CallFrame(s, call);
    ReportedAppend(s.hist.results, SubmitInvalid);
  }

  lemma QuietKeepsReport(s: System, e: Event)
    requires Shaped(s) && ReportInv(s) && (e.DeviceCall? || e.Inject?)
    ensures ReportInv(Step(s, e))
  {
    var s' := Step(s, e);
    assert s'.driver == s.driver && s'.hist == s.hist.(injections := s'.hist.injections);
  }

  lemma StepKeepsReport(s: System, e: Event)
    requires Inv(s) && ReportInv(s)
    ensures ReportInv(Step(s, e))
  {
    match e
    case DriverCall(call) => CallKeepsReport(s, call);
    case DriverStep => DriverKeepsReport(s);
    case DeviceCall(_) => QuietKeepsReport(s, e);
    case DeviceStep => DeviceKeepsReport(s);
    case Inject => QuietKeepsReport(s, e);
  }

  lemma {:induction false} RunKeepsReport(s: System, events: seq<Event>)
    requires Inv(s) && ReportInv(s)
    ensures ReportInv(Run(s, events))
    decreases |events|
  {
    if events != [] {
      var prefix := events[..|events| - 1];
      RunKeepsReport(s, prefix);
      RunKeepsInv(s, prefix);
      StepKeepsReport(Run(s, prefix), events[|events| - 1]);
    }
  }

  /** Between reclaims, the errors reported so far are the faults among the reclaimed descriptors. */
  lemma ErrorReportsExact(capacity: nat, events: seq<Event>)
    requires ValidCapacity(capacity)
    ensures var s := Run(Init(capacity), events);
      && s.hist.reclaimed <= |s.hist.outcomes|
      && (s.driver.DriverIdle? ==> Reported(s.hist.results) == Count(s.hist.outcomes[..s.hist.reclaimed], Faulted))
  {
    InitHolds(capacity);
    RunKeepsReport(Init(capacity), events);
  }
}
