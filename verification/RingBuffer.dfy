/** The ring buffer: a bounded queue in a fixed array, with a head, a tail and a count. */
module RingBuffer {
  import opened Basics
  import opened RingQueue
  import opened Rounding

  lemma NextIsWrap(i: nat, capacity: nat)
    requires i < capacity
    ensures (i + 1) % capacity == Wrap(i + 1, capacity)
  {
  }

  /** The division in the size check is exact. */
  lemma FitsWord(capacity: nat, itemSize: nat)
    requires itemSize > 0
    ensures capacity > (WORD - 1) / itemSize <==> capacity * itemSize >= WORD
  {
    var q := (WORD - 1) / itemSize;
    assert WORD - 1 == q * itemSize + (WORD - 1) % itemSize;
    if capacity > q {
      MulStep(capacity, q, itemSize);
    } else if capacity < q {
      MulStep(q, capacity, itemSize);
    }
  }

  /** The items in the n slots from tail on. */
  function Slots<T>(storage: seq<T>, tail: nat, n: nat): (r: seq<T>)
    requires tail < |storage| && n <= |storage|
    ensures |r| == n && forall i :: 0 <= i < n ==> r[i] == storage[Wrap(tail + i, |storage|)]
  {
    seq(n, i requires 0 <= i < n => storage[Wrap(tail + i, |storage|)])
  }

  /** Writing behind the last slot appends. */
  lemma SlotsAppend<T>(storage: seq<T>, tail: nat, n: nat, x: T)
    requires tail < |storage| && n < |storage|
    ensures Slots(storage[Wrap(tail + n, |storage|) := x], tail, n + 1) == Slots(storage, tail, n) + [x]
  {
  }

  /** Advancing the tail drops the first. */
  lemma SlotsTail<T>(storage: seq<T>, tail: nat, n: nat)
    requires tail < |storage| && 0 < n <= |storage|
    ensures Slots(storage, Wrap(tail + 1, |storage|), n - 1) == Slots(storage, tail, n)[1..]
  {
  }

  /** How a wait on the condition variable ends. */
  datatype Wake<T> = Signalled(events: seq<Event<T>>) | TimedOut | WaitFailed

  /** The queue after what other threads did while the lock was free. */
  function AfterAll<T>(q: Queue<T>, events: seq<Event<T>>): (r: Queue<T>)
    requires Bounded(q)
    ensures Bounded(r)
    decreases |events|
  {
    if events == [] then q else AfterAll(After(q, events[0]), events[1..])
  }

  datatype Waited<T> = Got(item: T) | Expired | Broken | StillWaiting

  /** Wait until there is an item, through the given wake-ups; queue and outcome. Only a wait with a deadline can expire. */
  function WaitedPop<T>(q: Queue<T>, wakes: seq<Wake<T>>, timeout: int): (r: (Queue<T>, Waited<T>))
    requires Bounded(q)
    ensures Bounded(r.0)
    decreases |wakes|
  {
    if q.items != [] then (Popped(q), Got(q.items[0]))
    else if wakes == [] then (q, StillWaiting)
    else match wakes[0]
      case Signalled(events) => WaitedPop(AfterAll(q, events), wakes[1..], timeout)
      case TimedOut => (q, if timeout < 0 then Broken else Expired)
      case WaitFailed => (q, Broken)
  }

  /** The queue after the first k wake-ups. */
  function Heard<T>(q: Queue<T>, wakes: seq<Wake<T>>, k: nat): (r: Queue<T>)
    requires Bounded(q) && k <= |wakes|
    ensures Bounded(r)
  {
    if k == 0 then q
    else
      var before := Heard(q, wakes, k - 1);
      if wakes[k - 1].Signalled? then AfterAll(before, wakes[k - 1].events) else before
  }

  /** The first k wake-ups were signals, and before each of them the queue was empty. */
  predicate WaitsThrough<T>(q: Queue<T>, wakes: seq<Wake<T>>, k: nat)
    requires Bounded(q)
  {
    k <= |wakes| && forall j :: 0 <= j < k ==> wakes[j].Signalled? && Heard(q, wakes, j).items == []
  }

  lemma {:induction false} HeardShifts<T>(q: Queue<T>, wakes: seq<Wake<T>>, k: nat)
    requires Bounded(q) && k < |wakes| && wakes[0].Signalled?
    ensures Heard(q, wakes, k + 1) == Heard(AfterAll(q, wakes[0].events), wakes[1..], k)
  {
    if k > 0 {
      HeardShifts(q, wakes, k - 1);
    } else {
      assert Heard(q, wakes, 0) == q;
    }
  }

  /** How the wait ends after k wake-ups: with an item, with the time, with an error, or not yet. */
  predicate EndsWith<T(==)>(q: Queue<T>, wakes: seq<Wake<T>>, timeout: int, k: nat, r: Waited<T>)
    requires Bounded(q) && k <= |wakes|
  {
    match r
    case Got(x) => q.items != [] && x == q.items[0]
    case StillWaiting => q.items == [] && k == |wakes|
    case Expired => q.items == [] && k < |wakes| && wakes[k].TimedOut? && timeout >= 0
    case Broken => q.items == [] && k < |wakes| && !wakes[k].Signalled? && (wakes[k].TimedOut? ==> timeout < 0)
  }

  /** The wait goes on exactly while the queue is empty and signals come, and takes the first item only if it got one. */
  lemma {:induction false} WaitExact<T>(q: Queue<T>, wakes: seq<Wake<T>>, timeout: int) returns (k: nat)
    requires Bounded(q)
    ensures WaitsThrough(q, wakes, k)
    ensures var (after, r) := WaitedPop(q, wakes, timeout); var found := Heard(q, wakes, k);
      EndsWith(found, wakes, timeout, k, r) && after == if r.Got? then Popped(found) else found
    decreases |wakes|
  {
    if q.items != [] || wakes == [] || !wakes[0].Signalled? {
      k := 0;
    } else {
      var next := AfterAll(q, wakes[0].events);
      var j := WaitExact(next, wakes[1..], timeout);
      k := j + 1;
      HeardShifts(q, wakes, j);
      forall i | 0 <= i < k
        ensures wakes[i].Signalled? && Heard(q, wakes, i).items == []
      {
        if i > 0 {
          HeardShifts(q, wakes, i - 1);
          assert wakes[1..][i - 1] == wakes[i];
        }
      }
    }
  }

  class RingBuffer<T> {
    const storage: array<T>
    var head: nat
    var tail: nat
    var count: nat
    var highWater: nat
    var dropped: nat

    ghost predicate Valid()
      reads this
    {
      && storage.Length > 0
      && tail < storage.Length && count <= storage.Length
      && head == Wrap(tail + count, storage.Length)
      && count <= highWater <= storage.Length
    }

    ghost function Value(): (q: Queue<T>)
      requires Valid()
      reads this, storage
      ensures Bounded(q)
    {
      Queue(Slots(storage[..], tail, count), storage.Length, highWater, dropped)
    }

    constructor (storage: array<T>)
      requires storage.Length > 0
      ensures Valid() && this.storage == storage && Value() == Empty(storage.Length)
    {
      this.storage := storage;
      head, tail, count, highWater, dropped := 0, 0, 0, 0, 0;
    }

    /**
     mlrt_ring_init refuses a ring without slots, items without bytes, a size that does not fit a machine
     word, and gives up if lock or condition variable cannot be set up.
     */
    static method Init(storage: array<T>, itemSize: nat, locksWork: bool) returns (rb: RingBuffer?<T>)
      ensures rb == null <==> storage.Length == 0 || itemSize == 0 || storage.Length * itemSize >= WORD || !locksWork
      ensures rb != null ==> fresh(rb) && rb.Valid() && rb.storage == storage && rb.Value() == Empty(storage.Length)
    {
      if storage.Length == 0 || itemSize == 0 {
        return null;
      }
      FitsWord(storage.Length, itemSize);
      if storage.Length > (WORD - 1) / itemSize || !locksWork {
        return null;
      }
      rb := new RingBuffer(storage);
    }

    /** Drop the oldest item. */
    method Advance()
      requires Valid() && count > 0
      modifies this`tail, this`count
      ensures Valid() && Value() == old(Value()).(items := old(Value()).items[1..])
    {
      SlotsTail(storage[..], tail, count);
      NextIsWrap(tail, storage.Length);
      tail := (tail + 1) % storage.Length;
      count := count - 1;
    }

    /** Put x behind the newest item. */
    method Store(x: T)
      requires Valid() && count < storage.Length
      modifies this`head, this`count, this`highWater, storage
      ensures Valid() && Value() == Insert(old(Value()), x)
    {
      SlotsAppend(storage[..], tail, count, x);
      NextIsWrap(head, storage.Length);
      ghost var before := storage[..];
      storage[head] := x;
      assert storage[..] == before[head := x];
      head := (head + 1) % storage.Length;
      count := count + 1;
      if count > highWater {
        highWater := count;
      }
    }

    method Push(x: T, overwrite: bool) returns (code: int)
      requires Valid()
      modifies this, storage
      ensures Valid() && Value() == Pushed(old(Value()), x, overwrite)
      ensures code == if old(count) == storage.Length && !overwrite then 1 else 0
    {
      if count == storage.Length {
        if !overwrite {
          dropped := dropped + 1;
          return 1;
        }
        Advance();
        dropped := dropped + 1;
      }
      Store(x);
      return 0;
    }

    method Pop() returns (item: Option<T>)
      requires Valid()
      modifies this
      ensures Valid() && Value() == Popped(old(Value()))
      ensures item == if old(Value()).items == [] then None else Some(old(Value()).items[0])
    {
      if count == 0 {
        return None;
      }
      item := Some(storage[tail]);
      Advance();
    }

    /** mlrt_ring_wait_pop; while the lock is released other threads may push and pop. */
    method WaitPop(wakes: seq<Wake<T>>, timeout: int) returns (r: Waited<T>)
      requires Valid()
      modifies this, storage
      ensures Valid() && (Value(), r) == WaitedPop(old(Value()), wakes, timeout)
    {
      var k := 0;
      ghost var goal := WaitedPop(Value(), wakes, timeout);
      assert wakes[0..] == wakes;
      while count == 0
        invariant Valid() && 0 <= k <= |wakes|
        invariant WaitedPop(Value(), wakes[k..], timeout) == goal
        decreases |wakes| - k
      {
        if k == |wakes| {
          return StillWaiting;
        }
        assert wakes[k..][1..] == wakes[k + 1..];
        if timeout < 0 {
          if !wakes[k].Signalled? {
            return Broken;
          }
        } else {
          if wakes[k].TimedOut? {
            return Expired;
          }
          if wakes[k].WaitFailed? {
            return Broken;
          }
        }
        OthersRun(wakes[k].events);
        k := k + 1;
      }
      r := Got(storage[tail]);
      Advance();
    }

    method OthersRun(events: seq<Event<T>>)
      requires Valid()
      modifies this, storage
      ensures Valid() && Value() == AfterAll(old(Value()), events)
    {
      ghost var goal := AfterAll(Value(), events);
      assert events[0..] == events;
      for i := 0 to |events|
        invariant Valid() && AfterAll(Value(), events[i..]) == goal
      {
        assert events[i..][1..] == events[i + 1..];
        match events[i] {
          case PushRejecting(x) => var _ := Push(x, false);
          case PushOverwriting(x) => var _ := Push(x, true);
          case Pop => var _ := Pop();
        }
      }
    }
  }
}
