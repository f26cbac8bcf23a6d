/** The driver's calls and their results, against what the rings did. */
module NicResults {
  import opened Basics
  import opened NicModel

  // ----- The log -----

  /** The calls of the driver thread in order, the one under way included. */
  function Calls(s: System, events: seq<Event>): (r: seq<Call>)
    requires Shaped(s)
    decreases |events|
  {
    if events == [] then []
    else Calls(s, events[..|events| - 1]) + CallOf(Run(s, events[..|events| - 1]), events[|events| - 1])
  }

  /** The call an event makes, if it makes one. */
  function CallOf(s: System, e: Event): (r: seq<Call>) {
    if e.DriverCall? && s.driver.DriverIdle? then [e.call] else []
  }

  /** A result fits its call: only a packet of bad length is invalid, and a frame received has room. */
  predicate Answers(call: Call, r: Return) {
    match call
    case Submit(packet) => if 1 <= |packet| <= 1536 then r.SubmitOk? || r.SubmitFull? else r.SubmitInvalid?
    case Reclaim => r.Reclaimed?
    case Receive(room) => r.ReceiveEmpty? || r.ReceiveTooSmall? || (r.ReceiveOk? && |r.frame| <= room)
    case TakeInterrupts => r.Took?
  }

  predicate AllAnswered(calls: seq<Call>, results: seq<Return>) {
    |results| <= |calls| && forall k :: 0 <= k < |results| ==> Answers(calls[k], results[k])
  }

  /** The packets of the submissions that were accepted. */
  function Accepted(calls: seq<Call>, results: seq<Return>): (r: seq<Frame>)
    requires |results| <= |calls|
  {
    if results == [] then []
    else
      var last := |results| - 1;
      Accepted(calls, results[..last])
      + if results[last].SubmitOk? && calls[last].Submit? then [calls[last].packet] else []
  }

  /** The frames that receives returned. */
  function Handed(results: seq<Return>): (r: seq<Frame>) {
    if results == [] then []
    else
      var last := results[|results| - 1];
      Handed(results[..|results| - 1]) + if last.ReceiveOk? then [last.frame] else []
  }

  /** The number of descriptors that reclaims reported. */
  function Freed(results: seq<Return>): (r: nat) {
    if results == [] then 0
    else
      var last := results[|results| - 1];
      Freed(results[..|results| - 1]) + if last.Reclaimed? then last.count else 0
  }

  lemma HandedAppend(results: seq<Return>, r: Return)
    ensures Handed(results + [r]) == Handed(results) + if r.ReceiveOk? then [r.frame] else []
    ensures Freed(results + [r]) == Freed(results) + if r.Reclaimed? then r.count else 0
  {
    assert (results + [r])[..|results|] == results;
  }

  lemma AcceptedAppend(calls: seq<Call>, results: seq<Return>, r: Return)
    requires |results| < |calls|
    ensures Accepted(calls, results + [r])
      == Accepted(calls, results) + if r.SubmitOk? && calls[|results|].Submit? then [calls[|results|].packet] else []
  {
    assert (results + [r])[..|results|] == results;
  }

  lemma {:induction false} AcceptedPrefix(calls: seq<Call>, more: seq<Call>, results: seq<Return>)
    requires |results| <= |calls|
    ensures Accepted(calls + more, results) == Accepted(calls, results)
  {
    if results != [] {
      AcceptedPrefix(calls, more, results[..|results| - 1]);
    }
  }

  // ----- What every step keeps -----

  /** The driver is at a point of this call. */
  predicate Serving(call: Call, pc: DriverPc) {
    match pc
    case DriverIdle => false
    case SubmitLoad(packet) => call == Submit(packet) && ValidPacket(packet)
    case SubmitWrite(packet) => call == Submit(packet) && ValidPacket(packet)
    case SubmitPublish(packet) => call == Submit(packet) && ValidPacket(packet)
    case SubmitAdvance => call.Submit? && ValidPacket(call.packet)
    case ReclaimLoad(_, _) => call.Reclaim?
    case ReclaimRead(_, _) => call.Reclaim?
    case ReclaimRelease(_, _) => call.Reclaim?
    case ReceiveLoad(room) => call == Receive(room)
    case ReceiveRead(room) => call == Receive(room)
    case ReceiveRelease(frame) => call.Receive? && |frame| <= call.room
    case ReceiveAdvance(frame) => call.Receive? && |frame| <= call.room
    case TakeExchange => call.TakeInterrupts?
  }

  /** Descriptors freed by a reclaim under way. */
  function Freeing(pc: DriverPc): (r: nat) {
    if pc.ReclaimLoad? || pc.ReclaimRead? || pc.ReclaimRelease? then pc.count else 0
  }

  predicate InStep(s: System, calls: seq<Call>) {
    && |calls| == |s.hist.results| + Unit(!s.driver.DriverIdle?)
    && AllAnswered(calls, s.hist.results)
    && (!s.driver.DriverIdle? ==> Serving(calls[|s.hist.results|], s.driver))
  }

  predicate LogInv(s: System, calls: seq<Call>) {
    && InStep(s, calls)
    && s.hist.submitted
      == Accepted(calls, s.hist.results) + (if s.driver.SubmitAdvance? then [calls[|s.hist.results|].packet] else [])
    && s.hist.received == Handed(s.hist.results) + (if s.driver.ReceiveAdvance? then [s.driver.frame] else [])
    && s.hist.reclaimed == Freed(s.hist.results) + Freeing(s.driver)
  }

  /** A driver step either goes on with the call or returns a result that fits it. */
  lemma DriverServes(s: System, call: Call)
    requires Shaped(s) && Serving(call, s.driver)
    ensures var t := StepDriver(s);
      if t.driver.DriverIdle? then
        |t.hist.results| == |s.hist.results| + 1 && t.hist.results[..|s.hist.results|] == s.hist.results
        && Answers(call, t.hist.results[|s.hist.results|])
      else t.hist.results == s.hist.results && Serving(call, t.driver)
  {
  }

  lemma SubmitBooks(s: System, call: Call)
    requires Shaped(s) && Serving(call, s.driver)
    ensures var t := StepDriver(s);
      t.hist.submitted == s.hist.submitted + if s.driver.SubmitPublish? then [call.packet] else []
    ensures var t := StepDriver(s);
      && (t.driver.SubmitAdvance? <==> s.driver.SubmitPublish?)
      && (t.driver.DriverIdle? && |t.hist.results| > |s.hist.results| ==>
            (t.hist.results[|s.hist.results|].SubmitOk? <==> s.driver.SubmitAdvance?))
  {
  }

  lemma ReceiveBooks(s: System, call: Call)
    requires Shaped(s) && Serving(call, s.driver)
    ensures var t := StepDriver(s);
      t.hist.received == s.hist.received + if s.driver.ReceiveRelease? then [s.driver.frame] else []
    ensures var t := StepDriver(s);
      && (t.driver.ReceiveAdvance? <==> s.driver.ReceiveRelease?)
      && (s.driver.ReceiveRelease? ==> t.driver.frame == s.driver.frame)
      && (t.driver.DriverIdle? && |t.hist.results| > |s.hist.results| ==>
            var r := t.hist.results[|s.hist.results|];
            (r.ReceiveOk? <==> s.driver.ReceiveAdvance?) && (r.ReceiveOk? ==> r.frame == s.driver.frame))
  {
  }

  lemma ReclaimBooks(s: System, call: Call)
    requires Shaped(s) && Serving(call, s.driver)
    ensures var t := StepDriver(s);
      && t.hist.reclaimed == s.hist.reclaimed + Unit(s.driver.ReclaimRelease?)
      && (!t.driver.DriverIdle? ==> Freeing(t.driver) == Freeing(s.driver) + Unit(s.driver.ReclaimRelease?))
      && (t.driver.DriverIdle? ==> !s.driver.ReclaimRelease?)
      && (t.driver.DriverIdle? && |t.hist.results| > |s.hist.results| ==>
            var r := t.hist.results[|s.hist.results|];
            Freeing(s.driver) == if r.Reclaimed? then r.count else 0)
  {
  }

  lemma DriverKeepsStep(s: System, calls: seq<Call>)
    requires Shaped(s) && InStep(s, calls)
    ensures InStep(StepDriver(s), calls)
  {
    if !s.driver.DriverIdle? {
      DriverServes(s, calls[|s.hist.results|]);
    }
  }

  lemma DriverKeepsSubmitted(s: System, calls: seq<Call>, call: Call)
    requires Shaped(s) && LogInv(s, calls) && !s.driver.DriverIdle? && call == calls[|s.hist.results|]
    ensures var t := StepDriver(s);
      && InStep(t, calls)
      && t.hist.submitted
        == Accepted(calls, t.hist.results) + (if t.driver.SubmitAdvance? then [calls[|t.hist.results|].packet] else [])
  {
    var t := StepDriver(s);
    DriverKeepsStep(s, calls);
    DriverServes(s, call);
    SubmitBooks(s, call);
    if t.driver.DriverIdle? {
      assert t.hist.results == s.hist.results + [t.hist.results[|s.hist.results|]];
      AcceptedAppend(calls, s.hist.results, t.hist.results[|s.hist.results|]);
    }
  }

  lemma DriverKeepsReceived(s: System, call: Call)
    requires Shaped(s) && Serving(call, s.driver)
    requires s.hist.received == Handed(s.hist.results) + (if s.driver.ReceiveAdvance? then [s.driver.frame] else [])
    ensures var t := StepDriver(s);
      t.hist.received == Handed(t.hist.results) + (if t.driver.ReceiveAdvance? then [t.driver.frame] else [])
  {
    var t := StepDriver(s);
    DriverServes(s, call);
    ReceiveBooks(s, call);
    if t.driver.DriverIdle? {
      assert t.hist.results == s.hist.results + [t.hist.results[|s.hist.results|]];
      HandedAppend(s.hist.results, t.hist.results[|s.hist.results|]);
    }
  }

  lemma DriverKeepsReclaimed(s: System, call: Call)
    requires Shaped(s) && Serving(call, s.driver) && s.hist.reclaimed == Freed(s.hist.results) + Freeing(s.driver)
    ensures var t := StepDriver(s); t.hist.reclaimed == Freed(t.hist.results) + Freeing(t.driver)
  {
    var t := StepDriver(s);
    DriverServes(s, call);
    ReclaimBooks(s, call);
    if t.driver.DriverIdle? {
      assert t.hist.results == s.hist.results + [t.hist.results[|s.hist.results|]];
      HandedAppend(s.hist.results, t.hist.results[|s.hist.results|]);
    }
  }

  lemma DriverKeepsLog(s: System, calls: seq<Call>)
    requires Shaped(s) && LogInv(s, calls)
    ensures LogInv(StepDriver(s), calls)
  {
    if !s.driver.DriverIdle? {
      DriverKeepsSubmitted(s, calls, calls[|s.hist.results|]);
      DriverKeepsReceived(s, calls[|s.hist.results|]);
      DriverKeepsReclaimed(s, calls[|s.hist.results|]);
    }
  }

  lemma CallKeepsLog(s: System, call: Call, calls: seq<Call>)
    requires Shaped(s) && LogInv(s, calls) && s.driver.DriverIdle?
    ensures LogInv(StartCall(s, call), calls + [call])
  {
    AcceptedPrefix(calls, [call], s.hist.results);
    AcceptedAppend(calls + [call], s.hist.results, SubmitInvalid);
    HandedAppend(s.hist.results, SubmitInvalid);
  }

  lemma DeviceKeepsLog(s: System, e: Event)
    requires Shaped(s) && !e.DriverStep? && !e.DriverCall?
    ensures var h, h' := s.hist, Step(s, e).hist;
      && Step(s, e).driver == s.driver && h'.submitted == h.submitted && h'.received == h.received
      && h'.reclaimed == h.reclaimed && h'.results == h.results
  {
  }

  lemma StepKeepsLog(s: System, e: Event, calls: seq<Call>)
    requires Shaped(s) && LogInv(s, calls)
    ensures LogInv(Step(s, e), calls + CallOf(s, e))
  {
    assert calls + [] == calls;
    match e
    case DriverCall(call) =>
      if s.driver.DriverIdle? {
        CallKeepsLog(s, call, calls);
      }
    case DriverStep => DriverKeepsLog(s, calls);
    case _ => DeviceKeepsLog(s, e);
  }

  lemma {:induction false} RunKeepsLog(s: System, events: seq<Event>)
    requires Shaped(s) && LogInv(s, [])
    ensures LogInv(Run(s, events), Calls(s, events))
    decreases |events|
  {
    if events != [] {
      var prefix := events[..|events| - 1];
      RunKeepsLog(s, prefix);
      StepKeepsLog(Run(s, prefix), events[|events| - 1], Calls(s, prefix));
    }
  }

  /**
   Between calls, every call has a result that fits it; the frames handed to the device are the packets of the
   submissions answered with success, those received are the frames the receives returned, and the descriptors
   reclaimed are as many as the reclaims reported.
   */
  lemma ResultsExact(capacity: nat, events: seq<Event>)
    requires ValidCapacity(capacity)
    ensures var s := Run(Init(capacity), events); var calls := Calls(Init(capacity), events);
      s.driver.DriverIdle? ==>
        && |calls| == |s.hist.results| && AllAnswered(calls, s.hist.results)
        && s.hist.submitted == Accepted(calls, s.hist.results)
        && s.hist.received == Handed(s.hist.results)
        && s.hist.reclaimed == Freed(s.hist.results)
  {
    RunKeepsLog(Init(capacity), events);
  }

  // ----- The published cursors -----

  /** The head and tail registers hold the private cursors they are copied from. */
  predicate Mirrored(n: Nic) {
    n.txTail == n.txSubmit && n.txHead == n.deviceTx && n.rxHead == n.rxConsume && n.rxTail == n.deviceRx
  }

  lemma DriverMirrors(s: System)
    requires Shaped(s) && Mirrored(s.nic)
    ensures Mirrored(StepDriver(s).nic)
  {
  }

  lemma DeviceMirrors(s: System)
    requires Shaped(s) && Mirrored(s.nic)
    ensures Mirrored(StepDevice(s).nic)
  {
  }

  lemma {:induction false} MirrorsExact(capacity: nat, events: seq<Event>)
    requires ValidCapacity(capacity)
    ensures Mirrored(Run(Init(capacity), events).nic)
    decreases |events|
  {
    if events != [] {
      var s := Run(Init(capacity), events[..|events| - 1]);
      MirrorsExact(capacity, events[..|events| - 1]);
      DriverMirrors(s);
      DeviceMirrors(s);
    }
  }
}
