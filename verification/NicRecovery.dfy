/** Running one thread alone until its call returns, and recovery from any reachable state. */
module NicRecovery {
  import opened Basics
  import opened NicModel
  import opened NicRing
  import opened NicInvariant
  import T = NicTheorems

  // ----- The driver alone -----

  function Left(count: nat, limit: nat): (r: nat) { if count < limit then limit - count else 0 }

  /** An upper bound on the steps the driver's current call still takes. */
  function DriverRank(s: System): (r: nat) {
    match s.driver
    case DriverIdle => 0
    case SubmitLoad(_) => 4
    case SubmitWrite(_) => 3
    case SubmitPublish(_) => 2
    case SubmitAdvance => 1
    case ReclaimLoad(count, _) => 3 * Left(count, s.nic.capacity) + 1
    case ReclaimRead(count, _) => 3 * Left(count + 1, s.nic.capacity) + 3
    case ReclaimRelease(count, _) => 3 * Left(count + 1, s.nic.capacity) + 2
    case ReceiveLoad(_) => 4
    case ReceiveRead(_) => 3
    case ReceiveRelease(_) => 2
    case ReceiveAdvance(_) => 1
    case TakeExchange => 1
  }

  lemma DriverRankDrops(s: System)
    requires Shaped(s) && !s.driver.DriverIdle?
    ensures DriverRank(StepDriver(s)) < DriverRank(s)
  {
  }

  /** A driver step changes nothing of the device's. */
  lemma DriverStepFrame(s: System)
    requires Shaped(s)
    ensures StepDriver(s).device == s.device
  {
  }

  /** The driver runs its call to the end while the device stands still. */
  function FinishDriver(s: System): (r: System)
    requires Shaped(s)
    ensures Shaped(r) && r.driver.DriverIdle? && r.device == s.device
    decreases DriverRank(s)
  {
    if s.driver.DriverIdle? then s
    else
      DriverRankDrops(s);
      DriverStepFrame(s);
      FinishDriver(StepDriver(s))
  }

  // ----- The device alone -----

  /** Steps left within the current iteration. */
  function IterationRank(pc: DevicePc): (r: nat) {
    match pc
    case DeviceIdle => 0
    case PollTx => 0
    case TakeFault => 12
    case CheckTx(_) => 11
    case PollRx => 10
    case CopyFrame => 9
    case PublishRx => 8
    case AdvanceRx => 7
    case CountRx => 6
    case RaiseRx => 5
    case MarkError => 7
    case CountError => 6
    case RaiseError => 5
    case CountNoBuffer => 5
    case CountTx => 4
    case CompleteTx => 3
    case AdvanceTx => 2
    case RaiseTx => 1
  }

  function DeviceRank(s: System): (r: nat) {
    if s.device.DeviceIdle? then 0
    else if s.device.PollTx? then 13 * Left(s.done, s.budget) + 1
    else 13 * Left(s.done + 1, s.budget) + 1 + IterationRank(s.device)
  }

  lemma PollRankDrops(s: System)
    requires Shaped(s) && (s.device.PollTx? || s.device.TakeFault? || s.device.CheckTx?)
    ensures DeviceRank(StepDevice(s)) < DeviceRank(s)
  {
  }

  lemma FaultRankDrops(s: System)
    requires Shaped(s) && (s.device.MarkError? || s.device.CountError? || s.device.RaiseError? || s.device.CountNoBuffer?)
    ensures DeviceRank(StepDevice(s)) < DeviceRank(s)
  {
  }

  lemma CopyRankDrops(s: System)
    requires Shaped(s) && (s.device.PollRx? || s.device.CopyFrame? || s.device.PublishRx?)
    ensures DeviceRank(StepDevice(s)) < DeviceRank(s)
  {
  }

  lemma AnnounceRankDrops(s: System)
    requires Shaped(s) && (s.device.AdvanceRx? || s.device.CountRx? || s.device.RaiseRx? || s.device.CountTx?)
    ensures DeviceRank(StepDevice(s)) < DeviceRank(s)
  {
  }

  lemma HandBackRankDrops(s: System)
    requires Shaped(s) && (s.device.CompleteTx? || s.device.AdvanceTx? || s.device.RaiseTx?)
    ensures DeviceRank(StepDevice(s)) < DeviceRank(s)
  {
  }

  lemma DeviceRankDrops(s: System)
    requires Shaped(s) && !s.device.DeviceIdle?
    ensures DeviceRank(StepDevice(s)) < DeviceRank(s)
  {
    match s.device
    case PollTx | TakeFault | CheckTx(_) => PollRankDrops(s);
    case MarkError | CountError | RaiseError | CountNoBuffer => FaultRankDrops(s);
    case PollRx | CopyFrame | PublishRx => CopyRankDrops(s);
    case AdvanceRx | CountRx | RaiseRx | CountTx => AnnounceRankDrops(s);
    case CompleteTx | AdvanceTx | RaiseTx => HandBackRankDrops(s);
  }

  /** A device step changes nothing of the driver's. */
  lemma DeviceStepFrame(s: System)
    requires Shaped(s)
    ensures StepDevice(s).driver == s.driver
  {
  }

  /** The device runs its poll to the end while the driver stands still. */
  function FinishDevice(s: System): (r: System)
    requires Shaped(s)
    ensures Shaped(r) && r.device.DeviceIdle? && r.driver == s.driver
    decreases DeviceRank(s)
  {
    if s.device.DeviceIdle? then s
    else
      DeviceRankDrops(s);
      DeviceStepFrame(s);
      FinishDevice(StepDevice(s))
  }

  // ----- Both are runs -----

  lemma {:induction false} RunConcat(s: System, a: seq<Event>, b: seq<Event>)
    requires Shaped(s)
    ensures Run(s, a + b) == Run(Run(s, a), b)
    decreases |b|
  {
    if b == [] {
      assert a + b == a;
    } else {
      var prefix := b[..|b| - 1];
      RunConcat(s, a, prefix);
      assert (a + b)[..|a + b| - 1] == a + prefix;
    }
  }

  lemma RunOne(s: System, e: Event)
    requires Shaped(s)
    ensures Run(s, [e]) == Step(s, e)
  {
    assert [e][..0] == [];
  }

  lemma {:induction false} FinishDriverRuns(s: System) returns (events: seq<Event>)
    requires Shaped(s)
    ensures Run(s, events) == FinishDriver(s)
    ensures forall e :: e in events ==> e == DriverStep
    decreases DriverRank(s)
  {
    if s.driver.DriverIdle? {
      events := [];
    } else {
      DriverRankDrops(s);
      var rest := FinishDriverRuns(StepDriver(s));
      RunOne(s, DriverStep);
      RunConcat(s, [DriverStep], rest);
      events := [DriverStep] + rest;
    }
  }

  lemma {:induction false} FinishDeviceRuns(s: System) returns (events: seq<Event>)
    requires Shaped(s)
    ensures Run(s, events) == FinishDevice(s)
    ensures forall e :: e in events ==> e == DeviceStep
    decreases DeviceRank(s)
  {
    if s.device.DeviceIdle? {
      events := [];
    } else {
      DeviceRankDrops(s);
      var rest := FinishDeviceRuns(StepDevice(s));
      RunOne(s, DeviceStep);
      RunConcat(s, [DeviceStep], rest);
      events := [DeviceStep] + rest;
    }
  }

  lemma FinishDriverKeepsInv(s: System)
    requires Inv(s)
    ensures Inv(FinishDriver(s)) && FinishDriver(s).nic.capacity == s.nic.capacity
  {
    var events := FinishDriverRuns(s);
    RunKeepsInv(s, events);
    T.CapacityFixed(s, events);
  }

  lemma FinishDeviceKeepsInv(s: System)
    requires Inv(s)
    ensures Inv(FinishDevice(s)) && FinishDevice(s).nic.capacity == s.nic.capacity
  {
    var events := FinishDeviceRuns(s);
    RunKeepsInv(s, events);
    T.CapacityFixed(s, events);
  }

  // ----- What each call achieves when left to run -----

  /** Descriptors the device has still to complete. */
  function Backlog(s: System): (r: int) { |s.hist.submitted| - s.hist.completed }

  /** The budget of the running poll still covers the backlog. */
  predicate Covers(s: System) {
    if s.device.DeviceIdle? then Backlog(s) == 0
    else s.done + Backlog(s) + Unit(s.device.AdvanceTx? || s.device.RaiseTx?) <= s.budget
  }

  lemma PollSeesBacklog(s: System)
    requires Shaped(s) && TxCounts(s) && TxRing(s) && s.device.PollTx?
    ensures Backlog(s) > 0 <==> s.nic.tx[s.nic.deviceTx].owner == Device
  {
    if Backlog(s) > 0 {
      SlotAt(s.nic.capacity, s.nic.txReclaim, DoneCount(s), s.nic.deviceTx);
    }
  }

  lemma PollKeepsCovering(s: System)
    requires Shaped(s) && TxCounts(s) && TxRing(s) && Covers(s) && s.device.PollTx?
    ensures Covers(StepDevice(s))
  {
    PollSeesBacklog(s);
  }

  /** Where the device counts: at the end of an iteration, and nowhere else. */
  lemma WorkCounts(s: System)
    requires Shaped(s) && !s.device.PollTx?
    ensures var t := StepDevice(s);
      && t.budget == s.budget && t.hist.submitted == s.hist.submitted
      && t.hist.completed == s.hist.completed + Unit(s.device.CompleteTx?)
      && t.done == s.done + Unit(s.device.RaiseTx?)
      && (t.device.DeviceIdle? <==> s.device.DeviceIdle?)
      && ((t.device.AdvanceTx? || t.device.RaiseTx?) <==> (s.device.CompleteTx? || s.device.AdvanceTx?))
  {
  }

  lemma WorkKeepsCovering(s: System)
    requires Shaped(s) && Covers(s) && !s.device.PollTx?
    ensures Covers(StepDevice(s))
  {
    WorkCounts(s);
  }

  lemma DeviceLeavesDriverCounts(s: System)
    requires Shaped(s)
    ensures var h, h' := s.hist, StepDevice(s).hist;
      h'.submitted == h.submitted && h'.reclaimed == h.reclaimed && h'.received == h.received
  {
  }

  lemma DeviceKeepsCovering(s: System)
    requires Shaped(s) && TxCounts(s) && TxRing(s) && Covers(s)
    ensures Covers(StepDevice(s)) && StepDevice(s).hist.submitted == s.hist.submitted
    ensures StepDevice(s).hist.reclaimed == s.hist.reclaimed && StepDevice(s).hist.received == s.hist.received
  {
    DeviceLeavesDriverCounts(s);
    if s.device.PollTx? {
      PollKeepsCovering(s);
    } else {
      WorkKeepsCovering(s);
    }
  }

  /** A poll whose budget covers the backlog completes all of it. */
  lemma {:induction false} PollClearsBacklog(s: System, rank: nat)
    requires Inv(s) && Covers(s) && rank == DeviceRank(s)
    ensures Backlog(FinishDevice(s)) == 0
    ensures FinishDevice(s).hist.submitted == s.hist.submitted && FinishDevice(s).hist.reclaimed == s.hist.reclaimed
    decreases rank
  {
    if !s.device.DeviceIdle? {
      DeviceKeepsInv(s);
      DeviceKeepsCovering(s);
      DeviceRankDrops(s);
      PollClearsBacklog(StepDevice(s), DeviceRank(StepDevice(s)));
    }
  }

  predicate Reclaiming(pc: DriverPc) { pc.ReclaimLoad? || pc.ReclaimRead? || pc.ReclaimRelease? }

  /** A reclaim left to run frees every descriptor the device has completed. */
  lemma {:induction false} ReclaimClearsDone(s: System, rank: nat)
    requires Inv(s) && Reclaiming(s.driver) && rank == DriverRank(s)
    ensures var r := FinishDriver(s);
      DoneCount(r) == 0 && r.hist.submitted == s.hist.submitted && r.hist.completed == s.hist.completed
    decreases rank
  {
    var s' := StepDriver(s);
    DriverKeepsInv(s);
    DriverRankDrops(s);
    ReclaimStep(s);
    if Reclaiming(s'.driver) {
      ReclaimClearsDone(s', DriverRank(s'));
    }
  }

  lemma ReclaimStep(s: System)
    requires Shaped(s) && TxCounts(s) && TxRing(s) && DriverInv(s) && Reclaiming(s.driver)
    ensures var s' := StepDriver(s);
      && s'.hist.submitted == s.hist.submitted && s'.hist.completed == s.hist.completed
      && (Reclaiming(s'.driver) || (s'.driver.DriverIdle? && DoneCount(s') == 0))
  {
    SlotAt(s.nic.capacity, s.nic.txReclaim, 0, s.nic.txReclaim);
  }

  lemma {:induction false} SurvivorsValid(frames: seq<Frame>, outcomes: seq<Outcome>, k: nat)
    requires |outcomes| <= |frames| && k < |Survivors(frames, outcomes)|
    requires forall i :: 0 <= i < |frames| ==> ValidPacket(frames[i])
    ensures ValidPacket(Survivors(frames, outcomes)[k])
  {
    var last := |outcomes| - 1;
    if k < |Survivors(frames, outcomes[..last])| {
      SurvivorsValid(frames, outcomes[..last], k);
    }
  }

  /** In a receive with room for any frame. */
  predicate Receiving(pc: DriverPc) {
    || ((pc.ReceiveLoad? || pc.ReceiveRead?) && pc.room >= MTU)
    || pc.ReceiveRelease? || pc.ReceiveAdvance?
  }

  /** Frames that will wait in the RX ring when the driver's receive has returned. */
  function WaitingAfter(s: System): (r: int) {
    if s.driver.ReceiveLoad? || s.driver.ReceiveRead? || s.driver.ReceiveRelease?
    then if RxCount(s) > 0 then RxCount(s) - 1 else 0
    else RxCount(s)
  }

  lemma ReceiveStep(s: System)
    requires Shaped(s) && RxCounts(s) && RxRing(s) && DriverInv(s) && Fates(s.hist) && Receiving(s.driver)
    ensures var s' := StepDriver(s);
      && s'.hist.submitted == s.hist.submitted && s'.hist.completed == s.hist.completed && s'.hist.reclaimed == s.hist.reclaimed
      && WaitingAfter(s') == WaitingAfter(s)
      && (Receiving(s'.driver) || s'.driver.DriverIdle?)
  {
    SlotAt(s.nic.capacity, s.nic.rxConsume, 0, s.nic.rxConsume);
    if s.driver.ReceiveRead? {
      SurvivorsValid(s.hist.submitted, s.hist.outcomes, |s.hist.received|);
    }
  }

  lemma {:induction false} ReceiveTakesOne(s: System, rank: nat)
    requires Inv(s) && Receiving(s.driver) && rank == DriverRank(s)
    ensures var r := FinishDriver(s);
      && RxCount(r) == WaitingAfter(s) && r.hist.submitted == s.hist.submitted
      && r.hist.completed == s.hist.completed && r.hist.reclaimed == s.hist.reclaimed
    decreases rank
  {
    var s' := StepDriver(s);
    DriverKeepsInv(s);
    DriverRankDrops(s);
    ReceiveStep(s);
    if Receiving(s'.driver) {
      ReceiveTakesOne(s', DriverRank(s'));
    }
  }

  // ----- Recovery -----

  /** Both threads idle, every TX descriptor free, every RX descriptor reposted. */
  predicate Quiescent(s: System) {
    && Shaped(s) && s.driver.DriverIdle? && s.device.DeviceIdle?
    && (forall i :: 0 <= i < s.nic.capacity ==> s.nic.tx[i].owner == Free && s.nic.rx[i].owner == Device)
  }

  function Repeat<T>(f: T -> T, x: T, k: nat): (r: T) {
    if k == 0 then x else f(Repeat(f, x, k - 1))
  }

  /** What each application keeps, and counts down to zero, so does any number of them. */
  lemma {:induction false} RepeatKeeps<T(!new)>(f: T -> T, keeps: T -> bool, count: T -> int, x: T, k: nat)
    requires forall y :: keeps(y) ==> keeps(f(y)) && count(f(y)) == (if count(y) > 0 then count(y) - 1 else 0)
    requires keeps(x) && count(x) >= 0
    ensures keeps(Repeat(f, x, k)) && count(Repeat(f, x, k)) == if count(x) > k then count(x) - k else 0
  {
    if k > 0 {
      RepeatKeeps(f, keeps, count, x, k - 1);
    }
  }

  /** The driver makes a receive with room for any frame. */
  function Received(s: System): (r: System)
    ensures Shaped(s) ==> Shaped(r)
  {
    if Shaped(s) then FinishDriver(StartCall(s, Receive(MTU))) else s
  }

  /** The driver makes k receives, one after the other. */
  function ReceiveTimes(s: System, k: nat): (r: System) { Repeat(Received, s, k) }

  /** Let both threads return from the calls they are in. */
  function Settled(s: System): (r: System)
    requires Shaped(s)
    ensures Shaped(r)
  {
    FinishDevice(FinishDriver(s))
  }

  /** One device step with the given budget, one reclaim, k receives. */
  function Recovered(s: System, polls: nat, k: nat): (r: System)
    requires Shaped(s)
  {
    ReceiveTimes(Cleared(Settled(s), polls), k)
  }

  /** One device step with the given budget, one reclaim. */
  function Cleared(s: System, polls: nat): (r: System)
    requires Shaped(s)
    ensures Shaped(r)
  {
    FinishDriver(StartCall(FinishDevice(StartPoll(s, polls)), Reclaim))
  }

  /** Between calls, with nothing in the TX ring. */
  ghost predicate Draining(s: System) {
    Inv(s) && s.driver.DriverIdle? && s.device.DeviceIdle? && Outstanding(s) == 0
  }

  lemma ReceivedDrains(s: System)
    requires Draining(s)
    ensures Draining(Received(s)) && RxCount(Received(s)) == if RxCount(s) > 0 then RxCount(s) - 1 else 0
  {
    ReceiveOnce(s);
  }

  lemma EveryReceiveDrains()
    ensures forall t {:trigger Received(t)} :: Draining(t) ==>
      Draining(Received(t)) && RxCount(Received(t)) == if RxCount(t) > 0 then RxCount(t) - 1 else 0
  {
    forall t | Draining(t)
      ensures Draining(Received(t)) && RxCount(Received(t)) == if RxCount(t) > 0 then RxCount(t) - 1 else 0
    {
      ReceivedDrains(t);
    }
  }

  lemma ReceiveTimesCounts(s: System, k: nat)
    requires Draining(s)
    ensures Draining(ReceiveTimes(s, k)) && RxCount(ReceiveTimes(s, k)) == if RxCount(s) > k then RxCount(s) - k else 0
  {
    EveryReceiveDrains();
    RepeatKeeps(Received, t => Draining(t), RxCount, s, k);
  }

  lemma ReceiveTimesDrains(s: System, k: nat)
    requires Draining(s) && RxCount(s) <= k
    ensures Quiescent(ReceiveTimes(s, k))
  {
    ReceiveTimesCounts(s, k);
    DrainedIsQuiescent(ReceiveTimes(s, k));
  }

  /** One receive more than there are frames finds nothing. */
  lemma ReceiveTimesEnds(s: System, k: nat)
    requires Draining(s) && RxCount(s) < k
    ensures LastEmpty(ReceiveTimes(s, k))
  {
    ReceiveTimesCounts(s, k - 1);
    EmptyReceive(ReceiveTimes(s, k - 1));
  }

  lemma DrainedIsQuiescent(s: System)
    requires Draining(s) && RxCount(s) == 0
    ensures Quiescent(s)
  {
  }

  /** A receive takes a waiting frame, if there is one, and nothing else. */
  lemma ReceiveOnce(s: System)
    requires Inv(s) && s.driver.DriverIdle?
    ensures var r := Received(s);
      && Inv(r) && r.driver.DriverIdle? && r.device == s.device && Outstanding(r) == Outstanding(s)
      && RxCount(r) == if RxCount(s) > 0 then RxCount(s) - 1 else 0
  {
    var called := Step(s, DriverCall(Receive(MTU)));
    StepKeepsInv(s, DriverCall(Receive(MTU)));
    ReceiveTakesOne(called, DriverRank(called));
    FinishDriverKeepsInv(called);
  }

  /** The latest driver call was a receive that found nothing. */
  predicate LastEmpty(s: System) {
    s.hist.results != [] && s.hist.results[|s.hist.results| - 1] == ReceiveEmpty
  }

  lemma EmptyReceive(s: System)
    requires Inv(s) && s.driver.DriverIdle?
    ensures RxCount(s) == 0 ==> LastEmpty(Received(s))
  {
    if RxCount(s) == 0 {
      var s1 := StartCall(s, Receive(MTU));
      var s2 := StepDriver(s1);
      SlotAt(s.nic.capacity, s.nic.rxConsume, 0, s.nic.rxConsume);
      assert s2.driver.DriverIdle?;
      assert FinishDriver(s1) == s2;
    }
  }

  lemma PolledClears(s: System, polls: nat)
    requires Inv(s) && s.driver.DriverIdle? && s.device.DeviceIdle? && polls >= s.nic.capacity
    ensures var r := FinishDevice(StartPoll(s, polls));
      && Inv(r) && r.driver.DriverIdle? && r.device.DeviceIdle? && r.nic.capacity == s.nic.capacity
      && r.hist.completed == |r.hist.submitted|
  {
    var polling := Step(s, DeviceCall(polls));
    StepKeepsInv(s, DeviceCall(polls));
    PollClearsBacklog(polling, DeviceRank(polling));
    FinishDeviceKeepsInv(polling);
  }

  lemma ReclaimClears(s: System)
    requires Inv(s) && s.driver.DriverIdle? && s.device.DeviceIdle? && s.hist.completed == |s.hist.submitted|
    ensures var r := FinishDriver(StartCall(s, Reclaim)); Draining(r) && r.nic.capacity == s.nic.capacity
  {
    var reclaiming := Step(s, DriverCall(Reclaim));
    StepKeepsInv(s, DriverCall(Reclaim));
    ReclaimClearsDone(reclaiming, DriverRank(reclaiming));
    FinishDriverKeepsInv(reclaiming);
  }

  lemma ClearedDrains(s: System, polls: nat)
    requires Inv(s) && s.driver.DriverIdle? && s.device.DeviceIdle? && polls >= s.nic.capacity
    ensures Draining(Cleared(s, polls)) && Cleared(s, polls).nic.capacity == s.nic.capacity
  {
    PolledClears(s, polls);
    ReclaimClears(FinishDevice(StartPoll(s, polls)));
  }

  lemma ReceivedRuns(s: System) returns (events: seq<Event>)
    requires Shaped(s)
    ensures Run(s, events) == Received(s)
  {
    var call := DriverCall(Receive(MTU));
    var steps := FinishDriverRuns(Step(s, call));
    RunOne(s, call);
    RunConcat(s, [call], steps);
    events := [call] + steps;
  }

  lemma {:induction false} ReceiveTimesRuns(s: System, k: nat) returns (events: seq<Event>)
    requires Shaped(s)
    ensures Shaped(ReceiveTimes(s, k)) && Run(s, events) == ReceiveTimes(s, k)
  {
    if k == 0 {
      events := [];
    } else {
      var before := ReceiveTimesRuns(s, k - 1);
      var last := ReceivedRuns(ReceiveTimes(s, k - 1));
      RunConcat(s, before, last);
      events := before + last;
    }
  }

  lemma SettledRuns(s: System) returns (events: seq<Event>)
    requires Shaped(s)
    ensures Run(s, events) == Settled(s)
  {
    var a := FinishDriverRuns(s);
    var b := FinishDeviceRuns(FinishDriver(s));
    RunConcat(s, a, b);
    events := a + b;
  }

  lemma PollAndReclaimRuns(s: System, polls: nat) returns (events: seq<Event>)
    requires Shaped(s)
    ensures Run(s, events) == Cleared(s, polls)
  {
    var poll, reclaim := DeviceCall(polls), DriverCall(Reclaim);
    var polls' := FinishDeviceRuns(Step(s, poll));
    var polled := FinishDevice(Step(s, poll));
    var reclaims := FinishDriverRuns(Step(polled, reclaim));
    RunOne(s, poll);
    RunConcat(s, [poll], polls');
    RunOne(polled, reclaim);
    RunConcat(s, [poll] + polls', [reclaim]);
    RunConcat(s, [poll] + polls' + [reclaim], reclaims);
    events := [poll] + polls' + [reclaim] + reclaims;
  }

  /** Recovery is itself a run of the two threads. */
  lemma RecoveredRuns(s: System, polls: nat, k: nat) returns (events: seq<Event>)
    requires Shaped(s)
    ensures Run(s, events) == Recovered(s, polls, k)
  {
    var a := SettledRuns(s);
    var b := PollAndReclaimRuns(Settled(s), polls);
    var c := ReceiveTimesRuns(Cleared(Settled(s), polls), k);
    RunConcat(s, a, b);
    RunConcat(s, a + b, c);
    events := a + b + c;
  }

  /**
   From any reachable state, once the calls under way have returned, a device step whose budget is at
   least the ring size, one reclaim, and receives until the ring is empty leave every transmit
   descriptor free and every receive descriptor reposted.
   */
  lemma AlwaysRecoverable(capacity: nat, events: seq<Event>, polls: nat, k: nat)
    requires ValidCapacity(capacity) && polls >= capacity && k >= capacity
    ensures Quiescent(Recovered(Run(Init(capacity), events), polls, k))
    ensures k > capacity ==> LastEmpty(Recovered(Run(Init(capacity), events), polls, k))
  {
    var s := Run(Init(capacity), events);
    InitHolds(capacity);
    RunKeepsInv(Init(capacity), events);
    T.CapacityFixed(Init(capacity), events);
    FinishDriverKeepsInv(s);
    FinishDeviceKeepsInv(FinishDriver(s));
    var settled := Settled(s);
    ClearedDrains(settled, polls);
    ReceiveTimesDrains(Cleared(settled, polls), k);
    if k > capacity {
      ReceiveTimesEnds(Cleared(settled, polls), k);
    }
  }

  /** A quiescent ring accepts the next packet and hands it to the device. */
  lemma QuiescentAccepts(s: System, packet: Frame)
    requires Quiescent(s) && ValidPacket(packet)
    ensures var r := FinishDriver(StartCall(s, Submit(packet)));
      && r.hist.results == s.hist.results + [SubmitOk]
      && r.hist.submitted == s.hist.submitted + [packet]
      && r.nic.tx[s.nic.txSubmit] == Descriptor(Device, false, packet)
  {
    var s1 := StartCall(s, Submit(packet));
    var s2 := StepDriver(s1);
    var s3 := StepDriver(s2);
    var s4 := StepDriver(s3);
    var s5 := StepDriver(s4);
    assert s2.driver == SubmitWrite(packet) && s3.driver == SubmitPublish(packet) && s4.driver == SubmitAdvance;
    assert FinishDriver(s1) == FinishDriver(s2) == FinishDriver(s3) == FinishDriver(s4) == s5;
  }
}
