/** The private cursors are unbounded counters, taken modulo the ring size. */
module NicCursors {
  import opened Basics
  import opened NicModel
  import opened NicRing
  import opened NicInvariant
  import opened Rounding
  import T = NicTheorems

  // ----- Arithmetic -----

  lemma NextOfMod(c: nat, capacity: nat)
    requires capacity > 0
    ensures Next(c % capacity, capacity) == (c + 1) % capacity
  {
    var q, r := c / capacity, c % capacity;
    assert c == q * capacity + r;
    if r + 1 == capacity {
      MulNext(q, capacity);
      DivUnique(c + 1, capacity, q + 1, 0);
    } else {
      DivUnique(c + 1, capacity, q, r + 1);
    }
  }

  /** Going k slots round from a counter's slot leads to the slot of the counter plus k. */
  lemma WrapOfMod(c: nat, k: int, capacity: nat)
    requires capacity > 0 && -1 <= k <= capacity && c + k >= 0
    ensures Wrap(c % capacity + k, capacity) == (c + k) % capacity
  {
    var q, r := c / capacity, c % capacity;
    assert c == q * capacity + r;
    if r + k < 0 {
      MulNext(q - 1, capacity);
      DivUnique(c + k, capacity, q - 1, r + k + capacity);
    } else if r + k >= capacity {
      MulNext(q, capacity);
      DivUnique(c + k, capacity, q + 1, r + k - capacity);
    } else {
      DivUnique(c + k, capacity, q, r + k);
    }
  }

  // ----- The two cursors the others are counted from -----

  /** Descriptors the driver has moved its consume cursor past. */
  function Consumed(s: System): (r: int) { |s.hist.received| - Unit(s.driver.ReceiveAdvance?) }

  predicate BaseCursors(s: System)
    requires s.nic.capacity > 0
  {
    && s.nic.txReclaim == s.hist.reclaimed % s.nic.capacity
    && Consumed(s) >= 0 && s.nic.rxConsume == Consumed(s) % s.nic.capacity
    && (s.device.AdvanceTx? ==> s.hist.completed >= 1) && (s.device.AdvanceRx? ==> |s.hist.delivered| >= 1)
  }

  /** The two cursors move exactly with their counters. */
  lemma DriverMovesBase(s: System)
    requires Shaped(s)
    ensures var t, n := StepDriver(s), s.nic;
      && t.nic.capacity == n.capacity
      && (if s.driver.ReclaimRelease? then t.nic.txReclaim == Next(n.txReclaim, n.capacity) && t.hist.reclaimed == s.hist.reclaimed + 1
          else t.nic.txReclaim == n.txReclaim && t.hist.reclaimed == s.hist.reclaimed)
      && (if s.driver.ReceiveAdvance? then t.nic.rxConsume == Next(n.rxConsume, n.capacity) && Consumed(t) == Consumed(s) + 1
          else t.nic.rxConsume == n.rxConsume && Consumed(t) == Consumed(s))
      && t.device == s.device && t.hist.completed == s.hist.completed && t.hist.delivered == s.hist.delivered
  {
  }

  lemma DeviceSparesBase(s: System)
    requires Shaped(s)
    ensures var t := StepDevice(s);
      && t.nic.capacity == s.nic.capacity && t.nic.txReclaim == s.nic.txReclaim && t.nic.rxConsume == s.nic.rxConsume
      && t.hist.reclaimed == s.hist.reclaimed && Consumed(t) == Consumed(s)
  {
  }

  lemma DeviceAdvancesAfterStore(s: System)
    requires Shaped(s)
    ensures var t := StepDevice(s);
      (t.device.AdvanceTx? ==> t.hist.completed >= 1) && (t.device.AdvanceRx? ==> |t.hist.delivered| >= 1)
  {
  }

  lemma CallSparesBase(s: System, e: Event)
    requires Shaped(s) && !e.DriverStep? && !e.DeviceStep?
    ensures var t := Step(s, e);
      && t.nic.capacity == s.nic.capacity && t.nic.txReclaim == s.nic.txReclaim && t.nic.rxConsume == s.nic.rxConsume
      && t.hist.reclaimed == s.hist.reclaimed && Consumed(t) == Consumed(s)
      && t.hist.completed == s.hist.completed && t.hist.delivered == s.hist.delivered
      && (t.device == s.device || t.device.PollTx?)
  {
  }

  lemma StepKeepsBase(s: System, e: Event)
    requires Shaped(s) && BaseCursors(s)
    ensures BaseCursors(Step(s, e))
  {
    if e.DriverStep? {
      DriverMovesBase(s);
      NextOfMod(s.hist.reclaimed, s.nic.capacity);
      NextOfMod(Consumed(s), s.nic.capacity);
    } else if e.DeviceStep? {
      DeviceSparesBase(s);
      DeviceAdvancesAfterStore(s);
    } else {
      CallSparesBase(s, e);
    }
  }

  lemma {:induction false} RunKeepsBase(s: System, events: seq<Event>)
    requires Shaped(s) && BaseCursors(s)
    ensures BaseCursors(Run(s, events))
    decreases |events|
  {
    if events != [] {
      RunKeepsBase(s, events[..|events| - 1]);
      StepKeepsBase(Run(s, events[..|events| - 1]), events[|events| - 1]);
    }
  }

  // ----- All five -----

  lemma CountedTx(s: System)
    requires Shaped(s) && TxCounts(s) && BaseCursors(s)
    ensures var n, h := s.nic, s.hist;
      && n.deviceTx == (h.completed - Unit(s.device.AdvanceTx?)) % n.capacity
      && n.txSubmit == (|h.submitted| - Unit(s.driver.SubmitAdvance?)) % n.capacity
  {
    WrapOfMod(s.hist.reclaimed, DoneCount(s) - Unit(s.device.AdvanceTx?), s.nic.capacity);
    WrapOfMod(s.hist.reclaimed, Outstanding(s) - Unit(s.driver.SubmitAdvance?), s.nic.capacity);
  }

  lemma CountedRx(s: System)
    requires Shaped(s) && RxCounts(s) && BaseCursors(s)
    ensures s.nic.deviceRx == (|s.hist.delivered| - Unit(s.device.AdvanceRx?)) % s.nic.capacity
  {
    WrapOfMod(Consumed(s), Unit(s.driver.ReceiveAdvance?), s.nic.capacity);
    WrapOfMod(|s.hist.received|, RxCount(s) - Unit(s.device.AdvanceRx?), s.nic.capacity);
  }

  /** Each cursor is its thread's counter modulo the ring size, one behind between owner store and move. */
  predicate CursorsCount(s: System)
    requires s.nic.capacity > 0
  {
    var n, h := s.nic, s.hist;
    && n.txReclaim == h.reclaimed % n.capacity
    && n.deviceTx == (h.completed - Unit(s.device.AdvanceTx?)) % n.capacity
    && n.txSubmit == (|h.submitted| - Unit(s.driver.SubmitAdvance?)) % n.capacity
    && n.deviceRx == (|h.delivered| - Unit(s.device.AdvanceRx?)) % n.capacity
    && n.rxConsume == (|h.received| - Unit(s.driver.ReceiveAdvance?)) % n.capacity
  }

  lemma CursorsOf(s: System)
    requires Shaped(s) && TxCounts(s) && RxCounts(s) && BaseCursors(s)
    ensures CursorsCount(s)
  {
    CountedTx(s);
    CountedRx(s);
  }

  lemma ReachableCounts(capacity: nat, events: seq<Event>)
    requires ValidCapacity(capacity)
    ensures var s := Run(Init(capacity), events); Shaped(s) && TxCounts(s) && RxCounts(s) && s.nic.capacity == capacity
  {
    InitHolds(capacity);
    RunKeepsInv(Init(capacity), events);
    T.CapacityFixed(Init(capacity), events);
  }

  lemma ReachableBase(capacity: nat, events: seq<Event>)
    requires ValidCapacity(capacity)
    ensures var s := Run(Init(capacity), events); s.nic.capacity > 0 && BaseCursors(s)
  {
    RunKeepsBase(Init(capacity), events);
  }

  lemma CursorsAreCounters(capacity: nat, events: seq<Event>)
    requires ValidCapacity(capacity)
    ensures var s := Run(Init(capacity), events); s.nic.capacity == capacity && CursorsCount(s)
  {
    ReachableCounts(capacity, events);
    ReachableBase(capacity, events);
    CursorsOf(Run(Init(capacity), events));
  }
}
