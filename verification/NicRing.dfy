/**
 A descriptor ring seen from one end: going round from slot `base`, first `done`
 descriptors are DONE, up to `live` they belong to the device, the rest are free.
 Positions are offsets from `base`, so everything here is linear arithmetic.
 */
module NicRing {
  import opened Basics
  import opened NicModel

  /** How far slot i lies after slot base, going round the ring. */
  function Off(i: int, base: int, capacity: int): (r: int) {
    if i >= base then i - base else i + capacity - base
  }

  predicate Bounds(slots: seq<Descriptor>, capacity: int, base: int) {
    0 <= base < capacity <= |slots|
  }

  function OwnerAt(off: int, done: int, live: int): (r: Owner) {
    if off < done then Done else if off < live then Device else Free
  }

  /** The three consecutive arcs DONE, DEVICE, FREE. */
  ghost predicate Owned(slots: seq<Descriptor>, capacity: int, base: int, done: int, live: int)
    requires Bounds(slots, capacity, base)
  {
    forall i :: 0 <= i < capacity ==> slots[i].owner == OwnerAt(Off(i, base, capacity), done, live)
  }

  /** The first `count` slots from base hold frames[first..first + count]. */
  ghost predicate Loaded(slots: seq<Descriptor>, capacity: int, base: int, frames: seq<Frame>, first: int, count: int)
    requires Bounds(slots, capacity, base) && 0 <= first && first + count <= |frames|
  {
    forall i :: 0 <= i < capacity && Off(i, base, capacity) < count ==>
      slots[i].frame == frames[first + Off(i, base, capacity)]
  }

  /** A slot's error flag is set exactly when the frame in it was failed by a fault. */
  ghost predicate Flagged(slots: seq<Descriptor>, capacity: int, base: int, outcomes: seq<Outcome>, first: int, count: int)
    requires Bounds(slots, capacity, base) && 0 <= first
  {
    forall i :: 0 <= i < capacity && Off(i, base, capacity) < count ==>
      slots[i].error == FaultAt(outcomes, first + Off(i, base, capacity))
  }

  predicate FaultAt(outcomes: seq<Outcome>, k: int) {
    0 <= k < |outcomes| && outcomes[k] == Faulted
  }

  /** The slot at offset `off` from base is the one at `off`, and no other. */
  lemma SlotAt(capacity: int, base: int, off: int, i: int)
    requires 0 <= base < capacity && 0 <= off < capacity && 0 <= i < capacity
    ensures 0 <= Wrap(base + off, capacity) < capacity
    ensures Off(i, base, capacity) == off <==> i == Wrap(base + off, capacity)
  {
  }

  /** Moving the base on by one shifts every offset, and sends the old base to the far end. */
  lemma NextBase(capacity: int, base: int, i: int)
    requires 0 <= base < capacity && 0 <= i < capacity
    ensures Next(base, capacity) < capacity
    ensures Off(i, Next(base, capacity), capacity) ==
      if i == base then capacity - 1 else Off(i, base, capacity) - 1
  {
  }

  /** Writing the non-atomic fields of a slot past the loaded ones disturbs nothing. */
  lemma FillKeeps(slots: seq<Descriptor>, capacity: int, base: int, p: int, frame: Frame, done: int, live: int)
    requires Bounds(slots, capacity, base) && 0 <= p < capacity
    requires Owned(slots, capacity, base, done, live)
    ensures Owned(Fill(slots, p, frame), capacity, base, done, live)
  {
  }

  lemma FillKeepsLoaded(slots: seq<Descriptor>, capacity: int, base: int, p: int, frame: Frame,
                        frames: seq<Frame>, first: int, count: int)
    requires Bounds(slots, capacity, base) && 0 <= p < capacity && 0 <= first && first + count <= |frames|
    requires Off(p, base, capacity) >= count
    requires Loaded(slots, capacity, base, frames, first, count)
    ensures Loaded(Fill(slots, p, frame), capacity, base, frames, first, count)
  {
  }

  lemma FillKeepsFlagged(slots: seq<Descriptor>, capacity: int, base: int, p: int, frame: Frame,
                         outcomes: seq<Outcome>, first: int, count: int)
    requires Bounds(slots, capacity, base) && 0 <= p < capacity && 0 <= first
    requires Off(p, base, capacity) >= count
    requires Flagged(slots, capacity, base, outcomes, first, count)
    ensures Flagged(Fill(slots, p, frame), capacity, base, outcomes, first, count)
  {
  }

  /** FREE -> DEVICE at the end of the live arc. */
  lemma PublishMoves(slots: seq<Descriptor>, capacity: int, base: int, done: int, live: int)
    requires Bounds(slots, capacity, base) && 0 <= done <= live < capacity
    requires Owned(slots, capacity, base, done, live)
    ensures Wrap(base + live, capacity) < |slots|
    ensures Owned(SetOwner(slots, Wrap(base + live, capacity), Device), capacity, base, done, live + 1)
  {
  }

  /** DEVICE -> DONE at the front of the device arc. */
  lemma CompleteMoves(slots: seq<Descriptor>, capacity: int, base: int, done: int, live: int)
    requires Bounds(slots, capacity, base) && 0 <= done < live <= capacity
    requires Owned(slots, capacity, base, done, live)
    ensures Wrap(base + done, capacity) < |slots|
    ensures Owned(SetOwner(slots, Wrap(base + done, capacity), Done), capacity, base, done + 1, live)
  {
  }

  /** DONE -> FREE (transmit) or DONE -> DEVICE (receive) at the front of the done arc. */
  lemma ReleaseMoves(slots: seq<Descriptor>, capacity: int, base: int, done: int, live: int, owner: Owner)
    requires Bounds(slots, capacity, base) && 1 <= done <= live <= capacity
    requires owner == Free || (owner == Device && live == capacity)
    requires Owned(slots, capacity, base, done, live)
    ensures Owned(SetOwner(slots, base, owner), capacity, Next(base, capacity), done - 1,
                  if owner == Free then live - 1 else live)
  {
    forall i | 0 <= i < capacity { NextBase(capacity, base, i); }
  }

  /** Ownership stores leave the non-atomic fields alone. */
  lemma OwnerKeepsLoaded(slots: seq<Descriptor>, capacity: int, base: int, p: int, owner: Owner,
                         frames: seq<Frame>, first: int, count: int)
    requires Bounds(slots, capacity, base) && 0 <= p < capacity && 0 <= first && first + count <= |frames|
    requires Loaded(slots, capacity, base, frames, first, count)
    ensures Loaded(SetOwner(slots, p, owner), capacity, base, frames, first, count)
  {
  }

  lemma OwnerKeepsFlagged(slots: seq<Descriptor>, capacity: int, base: int, p: int, owner: Owner,
                          outcomes: seq<Outcome>, first: int, count: int)
    requires Bounds(slots, capacity, base) && 0 <= p < capacity && 0 <= first
    requires Flagged(slots, capacity, base, outcomes, first, count)
    ensures Flagged(SetOwner(slots, p, owner), capacity, base, outcomes, first, count)
  {
  }

  lemma LoadedGrows(slots: seq<Descriptor>, capacity: int, base: int, frames: seq<Frame>, first: int, count: int, frame: Frame)
    requires Bounds(slots, capacity, base) && 0 <= first && 0 <= count < capacity && first + count == |frames|
    requires Loaded(slots, capacity, base, frames, first, count)
    requires slots[Wrap(base + count, capacity)].frame == frame
    ensures Loaded(slots, capacity, base, frames + [frame], first, count + 1)
  {
    forall i | 0 <= i < capacity { SlotAt(capacity, base, count, i); }
  }

  lemma FlaggedGrows(slots: seq<Descriptor>, capacity: int, base: int, outcomes: seq<Outcome>, first: int, count: int)
    requires Bounds(slots, capacity, base) && 0 <= first && 0 <= count < capacity
    requires |outcomes| <= first + count
    requires Flagged(slots, capacity, base, outcomes, first, count)
    requires !slots[Wrap(base + count, capacity)].error
    ensures Flagged(slots, capacity, base, outcomes, first, count + 1)
  {
    forall i | 0 <= i < capacity { SlotAt(capacity, base, count, i); }
  }

  lemma LoadedShrinks(slots: seq<Descriptor>, capacity: int, base: int, frames: seq<Frame>, first: int, count: int)
    requires Bounds(slots, capacity, base) && 0 <= first && 1 <= count <= capacity && first + count <= |frames|
    requires Loaded(slots, capacity, base, frames, first, count)
    ensures Loaded(slots, capacity, Next(base, capacity), frames, first + 1, count - 1)
  {
    forall i | 0 <= i < capacity { NextBase(capacity, base, i); }
  }

  lemma FlaggedShrinks(slots: seq<Descriptor>, capacity: int, base: int, outcomes: seq<Outcome>, first: int, count: int)
    requires Bounds(slots, capacity, base) && 0 <= first && 1 <= count <= capacity
    requires Flagged(slots, capacity, base, outcomes, first, count)
    ensures Flagged(slots, capacity, Next(base, capacity), outcomes, first + 1, count - 1)
  {
    forall i | 0 <= i < capacity { NextBase(capacity, base, i); }
  }

  /** Deciding on the frame at offset `at` without a fault: its flag was clear and stays clear. */
  lemma FlaggedDecided(slots: seq<Descriptor>, capacity: int, base: int, outcomes: seq<Outcome>, first: int, count: int, o: Outcome)
    requires Bounds(slots, capacity, base) && 0 <= first && o != Faulted
    requires Flagged(slots, capacity, base, outcomes, first, count)
    ensures Flagged(slots, capacity, base, outcomes + [o], first, count)
  {
  }

  /** Failing the frame at offset `at` sets its flag and no other. */
  lemma FlaggedFaulted(slots: seq<Descriptor>, capacity: int, base: int, outcomes: seq<Outcome>, first: int, count: int, at: int)
    requires Bounds(slots, capacity, base) && 0 <= first && 0 <= at < count <= capacity && |outcomes| == first + at
    requires Flagged(slots, capacity, base, outcomes, first, count)
    ensures Wrap(base + at, capacity) < |slots|
    ensures Flagged(MarkFault(slots, Wrap(base + at, capacity)), capacity, base, outcomes + [Faulted], first, count)
  {
    forall i | 0 <= i < capacity { SlotAt(capacity, base, at, i); }
  }

  lemma MarkKeeps(slots: seq<Descriptor>, capacity: int, base: int, p: int, frames: seq<Frame>, first: int, count: int,
                  done: int, live: int)
    requires Bounds(slots, capacity, base) && 0 <= p < capacity && 0 <= first && first + count <= |frames|
    requires Owned(slots, capacity, base, done, live) && Loaded(slots, capacity, base, frames, first, count)
    ensures Owned(MarkFault(slots, p), capacity, base, done, live)
    ensures Loaded(MarkFault(slots, p), capacity, base, frames, first, count)
  {
  }

  // ----- Whole rings -----

  /** A transmit ring whose first live slots hold frames[first..first + live]. */
  ghost predicate TxArcs(slots: seq<Descriptor>, capacity: int, base: int, frames: seq<Frame>, outcomes: seq<Outcome>,
                         first: int, done: int, live: int)
    requires Bounds(slots, capacity, base) && 0 <= first && first + live <= |frames|
  {
    && Owned(slots, capacity, base, done, live)
    && Loaded(slots, capacity, base, frames, first, live)
    && Flagged(slots, capacity, base, outcomes, first, live)
  }

  /** A receive ring: nothing is ever free, and the done slots hold frames[first..first + done]. */
  ghost predicate RxArcs(slots: seq<Descriptor>, capacity: int, base: int, frames: seq<Frame>, first: int, done: int)
    requires Bounds(slots, capacity, base) && 0 <= first && first + done <= |frames|
  {
    && Owned(slots, capacity, base, done, capacity)
    && Loaded(slots, capacity, base, frames, first, done)
  }

  lemma FillTx(slots: seq<Descriptor>, capacity: int, base: int, frames: seq<Frame>, outcomes: seq<Outcome>,
               first: int, done: int, live: int, p: int, frame: Frame)
    requires Bounds(slots, capacity, base) && 0 <= first && first + live <= |frames|
    requires 0 <= live < capacity && p == Wrap(base + live, capacity)
    requires TxArcs(slots, capacity, base, frames, outcomes, first, done, live)
    ensures 0 <= p < capacity && TxArcs(Fill(slots, p, frame), capacity, base, frames, outcomes, first, done, live)
  {
    SlotAt(capacity, base, live, p);
    FillKeeps(slots, capacity, base, p, frame, done, live);
    FillKeepsLoaded(slots, capacity, base, p, frame, frames, first, live);
    FillKeepsFlagged(slots, capacity, base, p, frame, outcomes, first, live);
  }

  lemma PublishTx(slots: seq<Descriptor>, capacity: int, base: int, frames: seq<Frame>, outcomes: seq<Outcome>,
                  first: int, done: int, live: int, p: int)
    requires Bounds(slots, capacity, base) && 0 <= first && first + live == |frames| && |outcomes| <= |frames|
    requires 0 <= done <= live < capacity && p == Wrap(base + live, capacity)
    requires TxArcs(slots, capacity, base, frames, outcomes, first, done, live)
    requires !slots[p].error
    ensures 0 <= p < capacity
    ensures TxArcs(SetOwner(slots, p, Device), capacity, base, frames + [slots[p].frame], outcomes, first, done, live + 1)
  {
    PublishMoves(slots, capacity, base, done, live);
    LoadedGrows(slots, capacity, base, frames, first, live, slots[p].frame);
    FlaggedGrows(slots, capacity, base, outcomes, first, live);
    OwnerKeepsLoaded(slots, capacity, base, p, Device, frames + [slots[p].frame], first, live + 1);
    OwnerKeepsFlagged(slots, capacity, base, p, Device, outcomes, first, live + 1);
  }

  lemma ReclaimTx(slots: seq<Descriptor>, capacity: int, base: int, frames: seq<Frame>, outcomes: seq<Outcome>,
                  first: int, done: int, live: int)
    requires Bounds(slots, capacity, base) && 0 <= first && first + live <= |frames|
    requires 1 <= done <= live <= capacity
    requires TxArcs(slots, capacity, base, frames, outcomes, first, done, live)
    ensures TxArcs(SetOwner(slots, base, Free), capacity, Next(base, capacity), frames, outcomes, first + 1, done - 1, live - 1)
  {
    var freed := SetOwner(slots, base, Free);
    ReleaseMoves(slots, capacity, base, done, live, Free);
    OwnerKeepsLoaded(slots, capacity, base, base, Free, frames, first, live);
    LoadedShrinks(freed, capacity, base, frames, first, live);
    OwnerKeepsFlagged(slots, capacity, base, base, Free, outcomes, first, live);
    FlaggedShrinks(freed, capacity, base, outcomes, first, live);
  }

  lemma FaultTx(slots: seq<Descriptor>, capacity: int, base: int, frames: seq<Frame>, outcomes: seq<Outcome>,
                first: int, done: int, live: int, p: int)
    requires Bounds(slots, capacity, base) && 0 <= first && first + live <= |frames| && |outcomes| == first + done
    requires 0 <= done < live <= capacity && p == Wrap(base + done, capacity)
    requires TxArcs(slots, capacity, base, frames, outcomes, first, done, live)
    ensures 0 <= p < capacity
    ensures TxArcs(MarkFault(slots, p), capacity, base, frames, outcomes + [Faulted], first, done, live)
  {
    MarkKeeps(slots, capacity, base, p, frames, first, live, done, live);
    FlaggedFaulted(slots, capacity, base, outcomes, first, live, done);
  }

  lemma CompleteTxSlot(slots: seq<Descriptor>, capacity: int, base: int, frames: seq<Frame>, outcomes: seq<Outcome>,
                       first: int, done: int, live: int, p: int)
    requires Bounds(slots, capacity, base) && 0 <= first && first + live <= |frames|
    requires 0 <= done < live <= capacity && p == Wrap(base + done, capacity)
    requires TxArcs(slots, capacity, base, frames, outcomes, first, done, live)
    ensures 0 <= p < capacity
    ensures TxArcs(SetOwner(slots, p, Done), capacity, base, frames, outcomes, first, done + 1, live)
  {
    CompleteMoves(slots, capacity, base, done, live);
    OwnerKeepsLoaded(slots, capacity, base, p, Done, frames, first, live);
    OwnerKeepsFlagged(slots, capacity, base, p, Done, outcomes, first, live);
  }

  lemma FillRx(slots: seq<Descriptor>, capacity: int, base: int, frames: seq<Frame>, first: int, done: int, p: int, frame: Frame)
    requires Bounds(slots, capacity, base) && 0 <= first && first + done <= |frames|
    requires 0 <= done < capacity && p == Wrap(base + done, capacity)
    requires RxArcs(slots, capacity, base, frames, first, done)
    ensures 0 <= p < capacity && RxArcs(Fill(slots, p, frame), capacity, base, frames, first, done)
  {
    SlotAt(capacity, base, done, p);
    FillKeeps(slots, capacity, base, p, frame, done, capacity);
    FillKeepsLoaded(slots, capacity, base, p, frame, frames, first, done);
  }

  lemma PublishRxSlot(slots: seq<Descriptor>, capacity: int, base: int, frames: seq<Frame>, first: int, done: int, p: int)
    requires Bounds(slots, capacity, base) && 0 <= first && first + done == |frames|
    requires 0 <= done < capacity && p == Wrap(base + done, capacity)
    requires RxArcs(slots, capacity, base, frames, first, done)
    ensures 0 <= p < capacity
    ensures RxArcs(SetOwner(slots, p, Done), capacity, base, frames + [slots[p].frame], first, done + 1)
  {
    CompleteMoves(slots, capacity, base, done, capacity);
    LoadedGrows(slots, capacity, base, frames, first, done, slots[p].frame);
    OwnerKeepsLoaded(slots, capacity, base, p, Done, frames + [slots[p].frame], first, done + 1);
  }

  lemma RepostRx(slots: seq<Descriptor>, capacity: int, base: int, frames: seq<Frame>, first: int, done: int)
    requires Bounds(slots, capacity, base) && 0 <= first && first + done <= |frames|
    requires 1 <= done <= capacity
    requires RxArcs(slots, capacity, base, frames, first, done)
    ensures RxArcs(SetOwner(slots, base, Device), capacity, Next(base, capacity), frames, first + 1, done - 1)
  {
    ReleaseMoves(slots, capacity, base, done, capacity, Device);
    OwnerKeepsLoaded(slots, capacity, base, base, Device, frames, first, done);
    LoadedShrinks(SetOwner(slots, base, Device), capacity, base, frames, first, done);
  }

  /** The frames in the first `count` slots, read in ring order. */
  function FramesFrom(slots: seq<Descriptor>, capacity: int, base: int, count: nat): (r: seq<Frame>)
    requires Bounds(slots, capacity, base) && count <= capacity
  {
    seq(count, k requires 0 <= k < count => slots[Wrap(base + k, capacity)].frame)
  }

  lemma FramesFromLoaded(slots: seq<Descriptor>, capacity: int, base: int, frames: seq<Frame>, first: nat, count: nat)
    requires Bounds(slots, capacity, base) && count <= capacity && first + count <= |frames|
    requires Loaded(slots, capacity, base, frames, first, count)
    ensures FramesFrom(slots, capacity, base, count) == frames[first..first + count]
  {
    var read, expected := FramesFrom(slots, capacity, base, count), frames[first..first + count];
    forall k | 0 <= k < count
      ensures read[k] == expected[k]
    {
      SlotAt(capacity, base, k, Wrap(base + k, capacity));
    }
  }
}
