/** How many frames a device step processes. */
module NicPolls {
  import opened Basics
  import opened NicModel
  import opened NicRing
  import opened NicInvariant
  import opened NicRecovery
  import T = NicTheorems

  function Min(a: int, b: int): (r: int) { if a < b then a else b }

  // ----- In any interleaving -----

  /** A nic_device_step: its argument, and the frames the device had completed before it. */
  datatype Poll = Poll(polls: nat, completed: nat)

  /** The latest nic_device_step of a run. */
  function LatestPoll(s: System, events: seq<Event>): (r: Poll)
    requires Shaped(s)
    decreases |events|
  {
    if events == [] then Poll(0, s.hist.completed)
    else
      var before := Run(s, events[..|events| - 1]);
      var e := events[|events| - 1];
      if e.DeviceCall? && before.device.DeviceIdle? then Poll(e.polls, before.hist.completed)
      else LatestPoll(s, events[..|events| - 1])
  }

  /** The frames completed since the call began are those it has counted and the one it is about to count. */
  predicate PollInv(s: System, p: Poll) {
    && s.budget == Min(p.polls, s.nic.capacity)
    && s.done <= s.budget
    && s.hist.completed == p.completed + s.done + Unit(s.device.AdvanceTx? || s.device.RaiseTx?)
  }

  lemma PollTxKeepsPoll(s: System, p: Poll)
    requires Shaped(s) && s.device.PollTx? && PollInv(s, p)
    ensures PollInv(StepDevice(s), p)
  {
  }

  lemma DeviceKeepsPoll(s: System, p: Poll)
    requires Shaped(s) && DeviceInv(s) && PollInv(s, p)
    ensures PollInv(StepDevice(s), p)
  {
    if s.device.PollTx? {
      PollTxKeepsPoll(s, p);
    } else {
      WorkCounts(s);
      assert StepDevice(s).nic.capacity == s.nic.capacity;
    }
  }

  lemma OthersKeepPoll(s: System, e: Event, p: Poll)
    requires Shaped(s) && PollInv(s, p) && !e.DeviceStep?
    ensures PollInv(Step(s, e), if e.DeviceCall? && s.device.DeviceIdle? then Poll(e.polls, s.hist.completed) else p)
  {
  }

  lemma {:induction false} RunKeepsPoll(s: System, events: seq<Event>)
    requires Inv(s) && PollInv(s, Poll(0, s.hist.completed))
    ensures PollInv(Run(s, events), LatestPoll(s, events))
    decreases |events|
  {
    if events != [] {
      var prefix, e := events[..|events| - 1], events[|events| - 1];
      RunKeepsPoll(s, prefix);
      RunKeepsInv(s, prefix);
      if e.DeviceStep? {
        DeviceKeepsPoll(Run(s, prefix), LatestPoll(s, prefix));
      } else {
        OthersKeepPoll(Run(s, prefix), e, LatestPoll(s, prefix));
      }
    }
  }

  /** A device step never completes more frames than it was asked to, nor more than the ring has slots. */
  lemma PollBounded(capacity: nat, events: seq<Event>)
    requires ValidCapacity(capacity)
    ensures var s := Run(Init(capacity), events); var p := LatestPoll(Init(capacity), events);
      p.completed <= s.hist.completed <= p.completed + Min(p.polls, capacity)
  {
    InitHolds(capacity);
    RunKeepsPoll(Init(capacity), events);
    RunKeepsInv(Init(capacity), events);
    T.CapacityFixed(Init(capacity), events);
  }

  // ----- Left to run -----

  /** The count at which the running poll will end. */
  function Target(s: System): (r: int) {
    Min(s.budget, s.done + Backlog(s) + Unit(s.device.AdvanceTx? || s.device.RaiseTx?))
  }

  lemma TargetFixed(s: System)
    requires Shaped(s) && TxCounts(s) && TxRing(s) && !s.device.DeviceIdle? && s.done <= s.budget
    ensures Target(StepDevice(s)) == Target(s)
    ensures StepDevice(s).device.DeviceIdle? ==> StepDevice(s).done == Target(s)
  {
    if s.device.PollTx? {
      PollSeesBacklog(s);
    } else {
      WorkCounts(s);
    }
  }

  lemma {:induction false} PollReachesTarget(s: System, p: Poll, rank: nat)
    requires Inv(s) && PollInv(s, p) && rank == DeviceRank(s) && !s.device.DeviceIdle?
    ensures FinishDevice(s).done == Target(s) && PollInv(FinishDevice(s), p)
    decreases rank
  {
    DeviceKeepsInv(s);
    DeviceKeepsPoll(s, p);
    TargetFixed(s);
    DeviceRankDrops(s);
    var t := StepDevice(s);
    if !t.device.DeviceIdle? {
      PollReachesTarget(t, p, DeviceRank(t));
    }
  }

  /** Left to run, a device step processes as many frames as were asked for, fit the ring and are there. */
  lemma PollExact(s: System, polls: nat)
    requires Inv(s) && s.device.DeviceIdle?
    ensures var r := FinishDevice(StartPoll(s, polls));
      && r.done == Min(Min(polls, s.nic.capacity), Backlog(s))
      && r.hist.completed == s.hist.completed + r.done
  {
    PollKeepsInv(s, polls);
    var t := StartPoll(s, polls);
    PollReachesTarget(t, Poll(polls, s.hist.completed), DeviceRank(t));
  }
}
