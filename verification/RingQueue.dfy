/** A bounded queue, as the ring buffer is meant to behave, and what holds over its runs. */
module RingQueue {
  import opened Basics
  datatype Queue<T> = Queue(items: seq<T>, capacity: nat, highWater: nat, dropped: nat)

  /** What a call did: an item went in or was refused, an item came out or none was there. */
  datatype Event<T> = PushRejecting(item: T) | PushOverwriting(item: T) | Pop

  predicate Bounded<T>(q: Queue<T>) { q.capacity > 0 && |q.items| <= q.highWater <= q.capacity }

  function Max(a: nat, b: nat): (r: nat) { if a >= b then a else b }

  /** Append x to a queue that has room. */
  function Insert<T>(q: Queue<T>, x: T): (r: Queue<T>) {
    q.(items := q.items + [x], highWater := Max(q.highWater, |q.items| + 1))
  }

  function Pushed<T>(q: Queue<T>, x: T, overwrite: bool): (r: Queue<T>)
    requires Bounded(q)
    ensures Bounded(r) && r.capacity == q.capacity
  {
    if |q.items| < q.capacity then Insert(q, x)
    else if overwrite then Insert(q.(items := q.items[1..], dropped := q.dropped + 1), x)
    else q.(dropped := q.dropped + 1)
  }

  function Popped<T>(q: Queue<T>): (r: Queue<T>)
    requires Bounded(q)
    ensures Bounded(r) && r.capacity == q.capacity
  {
    if q.items == [] then q else q.(items := q.items[1..])
  }

  function After<T>(q: Queue<T>, e: Event<T>): (r: Queue<T>)
    requires Bounded(q)
    ensures Bounded(r) && r.capacity == q.capacity
  {
    match e
    case PushRejecting(x) => Pushed(q, x, false)
    case PushOverwriting(x) => Pushed(q, x, true)
    case Pop => Popped(q)
  }

  function Empty<T>(capacity: nat): (r: Queue<T>) { Queue([], capacity, 0, 0) }

  function Run<T>(capacity: nat, es: seq<Event<T>>): (r: Queue<T>)
    requires capacity > 0
    ensures Bounded(r) && r.capacity == capacity
  {
    if es == [] then Empty(capacity) else After(Run(capacity, es[..|es| - 1]), es[|es| - 1])
  }

  // ----- The log of a run -----

  /** The pushes among the events. */
  function Attempts<T>(es: seq<Event<T>>): (r: nat) {
    if es == [] then 0 else Attempts(es[..|es| - 1]) + (if es[|es| - 1].Pop? then 0 else 1)
  }

  /** The items that successful pops returned. */
  function Taken<T>(capacity: nat, es: seq<Event<T>>): (r: seq<T>)
    requires capacity > 0
  {
    if es == [] then []
    else
      var q, e := Run(capacity, es[..|es| - 1]), es[|es| - 1];
      Taken(capacity, es[..|es| - 1]) + (if e.Pop? && q.items != [] then [q.items[0]] else [])
  }

  /** The items that went in. */
  function Admitted<T>(capacity: nat, es: seq<Event<T>>): (r: seq<T>)
    requires capacity > 0
  {
    if es == [] then []
    else
      var q, e := Run(capacity, es[..|es| - 1]), es[|es| - 1];
      Admitted(capacity, es[..|es| - 1])
      + (if e.PushOverwriting? || (e.PushRejecting? && |q.items| < capacity) then [e.item] else [])
  }

  /** The items that left the queue, taken or overwritten, in order. */
  function Left<T>(capacity: nat, es: seq<Event<T>>): (r: seq<T>)
    requires capacity > 0
  {
    if es == [] then []
    else
      var q, e := Run(capacity, es[..|es| - 1]), es[|es| - 1];
      Left(capacity, es[..|es| - 1])
      + (if (e.Pop? && q.items != []) || (e.PushOverwriting? && |q.items| == capacity) then [q.items[0]] else [])
  }

  /** The largest number of items held after any prefix of the events. */
  function Peak<T>(capacity: nat, es: seq<Event<T>>): (r: nat)
    requires capacity > 0
  {
    if es == [] then 0 else Max(Peak(capacity, es[..|es| - 1]), |Run(capacity, es).items|)
  }

  // ----- What holds over every run -----

  /** Every push attempt is taken, still held, or dropped. */
  lemma {:induction false} AttemptsConserved<T>(capacity: nat, es: seq<Event<T>>)
    requires capacity > 0
    ensures Attempts(es) == |Taken(capacity, es)| + |Run(capacity, es).items| + Run(capacity, es).dropped
  {
    if es != [] {
      AttemptsConserved(capacity, es[..|es| - 1]);
    }
  }

  /** The high-water mark is the peak. */
  lemma {:induction false} HighWaterIsPeak<T>(capacity: nat, es: seq<Event<T>>)
    requires capacity > 0
    ensures Run(capacity, es).highWater == Peak(capacity, es)
  {
    if es != [] {
      HighWaterIsPeak(capacity, es[..|es| - 1]);
    }
  }

  lemma Shift<T>(left: seq<T>, items: seq<T>)
    requires items != []
    ensures (left + [items[0]]) + items[1..] == left + items
  {
  }

  lemma Grow<T>(left: seq<T>, items: seq<T>, x: T)
    ensures left + (items + [x]) == (left + items) + [x]
  {
  }

  /** First in, first out: what left, followed by what is held, is what went in. */
  lemma {:induction false} FifoOrder<T>(capacity: nat, es: seq<Event<T>>)
    requires capacity > 0
    ensures Left(capacity, es) + Run(capacity, es).items == Admitted(capacity, es)
  {
    if es != [] {
      var before := es[..|es| - 1];
      var q, e := Run(capacity, before), es[|es| - 1];
      FifoOrder(capacity, before);
      if q.items != [] {
        Shift(Left(capacity, before), q.items);
      }
      if !e.Pop? {
        Grow(Left(capacity, before), q.items, e.item);
        if |q.items| == capacity {
          Grow(Left(capacity, before) + [q.items[0]], q.items[1..], e.item);
        }
      }
    }
  }

  /** Without overwriting nothing that went in is lost: pops return the admitted items in order. */
  lemma RejectingLosesNothing<T>(capacity: nat, es: seq<Event<T>>)
    requires capacity > 0 && forall i :: 0 <= i < |es| ==> !es[i].PushOverwriting?
    ensures Taken(capacity, es) + Run(capacity, es).items == Admitted(capacity, es)
  {
    FifoOrder(capacity, es);
    LeftIsTaken(capacity, es);
  }

  lemma {:induction false} LeftIsTaken<T>(capacity: nat, es: seq<Event<T>>)
    requires capacity > 0 && forall i :: 0 <= i < |es| ==> !es[i].PushOverwriting?
    ensures Left(capacity, es) == Taken(capacity, es)
  {
    if es != [] {
      LeftIsTaken(capacity, es[..|es| - 1]);
    }
  }

  /** With overwriting only, the queue holds the newest items pushed. */
  lemma OverwritingKeepsNewest<T>(capacity: nat, es: seq<Event<T>>)
    requires capacity > 0 && forall i :: 0 <= i < |es| ==> !es[i].PushRejecting?
    ensures |Admitted(capacity, es)| == Attempts(es)
    ensures |Run(capacity, es).items| <= Attempts(es)
    ensures Run(capacity, es).items == Admitted(capacity, es)[Attempts(es) - |Run(capacity, es).items|..]
  {
    FifoOrder(capacity, es);
    AllAdmitted(capacity, es);
    var q, a := Run(capacity, es).items, Admitted(capacity, es);
    assert a[|a| - |q|..] == q;
  }

  lemma {:induction false} AllAdmitted<T>(capacity: nat, es: seq<Event<T>>)
    requires capacity > 0 && forall i :: 0 <= i < |es| ==> !es[i].PushRejecting?
    ensures |Admitted(capacity, es)| == Attempts(es)
  {
    if es != [] {
      AllAdmitted(capacity, es[..|es| - 1]);
    }
  }
}
