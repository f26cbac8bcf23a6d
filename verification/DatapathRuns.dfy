/** What holds of the datapath over every run of datagrams: its books and its replay filter. */
module DatapathRuns {
  import opened Basics
  import opened Bytes
  import opened Datapath
  import opened NverWire

  /** The state after the datagrams ws, and the verdicts on them. */
  function Run(ws: seq<seq<Byte>>): (r: (State, seq<Verdict>))
    ensures |r.1| == |ws|
  {
    if ws == [] then (INITIAL, [])
    else
      var (s, vs) := Run(ws[..|ws| - 1]);
      var v := Judge(s.last, Validate(ws[|ws| - 1]));
      (Step(s, v), vs + [v])
  }

  /** The verdicts after the last reset. */
  function SinceReset(vs: seq<Verdict>): (r: seq<Verdict>)
    ensures Reset !in r
  {
    if vs == [] || vs[|vs| - 1] == Reset then []
    else SinceReset(vs[..|vs| - 1]) + [vs[|vs| - 1]]
  }

  // ----- The books -----

  function Number(vs: seq<Verdict>, f: Verdict -> bool): (r: nat) {
    if vs == [] then 0 else Number(vs[..|vs| - 1], f) + Unit(f(vs[|vs| - 1]))
  }

  function IsAccepted(v: Verdict): (r: bool) { v.Accepted? }

  function IsRejected(v: Verdict): (r: bool) { v.Rejected? }

  function IsStats(v: Verdict): (r: bool) { v.Stats? }

  function Because(cause: Cause): (r: Verdict -> bool) { (v: Verdict) => v == Rejected(cause) }

  function Volume(vs: seq<Verdict>): (r: nat) {
    if vs == [] then 0
    else Volume(vs[..|vs| - 1]) + (if vs[|vs| - 1].Accepted? then |vs[|vs| - 1].payload| else 0)
  }

  /** What the counters ought to say about the verdicts vs. */
  function Tally(vs: seq<Verdict>): (r: Counters) {
    Counters(
      |vs|, Number(vs, IsAccepted), Number(vs, IsRejected), Number(vs, Because(CrcError)), Number(vs, Because(LengthError)),
      Number(vs, Because(ReplayError)), Number(vs, Because(HeaderError)), Number(vs, Because(TypeError)),
      Number(vs, Because(SessionError)), Volume(vs))
  }

  lemma NumberSnoc(vs: seq<Verdict>, v: Verdict, f: Verdict -> bool)
    ensures Number(vs + [v], f) == Number(vs, f) + Unit(f(v))
  {
    assert (vs + [v])[..|vs|] == vs;
  }

  lemma TallySnoc(vs: seq<Verdict>, v: Verdict, last: map<U32, U32>)
    requires v != Reset
    ensures Step(State(Tally(vs), last), v).counts == Tally(vs + [v])
  {
    NumberSnoc(vs, v, IsAccepted);
    NumberSnoc(vs, v, IsRejected);
    NumberSnoc(vs, v, Because(CrcError));
    NumberSnoc(vs, v, Because(LengthError));
    NumberSnoc(vs, v, Because(ReplayError));
    NumberSnoc(vs, v, Because(HeaderError));
    NumberSnoc(vs, v, Because(TypeError));
    NumberSnoc(vs, v, Because(SessionError));
    assert (vs + [v])[..|vs|] == vs;
  }

  /** A rejection has one cause. */
  lemma OneCause(v: Verdict)
    ensures Unit(IsRejected(v)) == Unit(Because(CrcError)(v)) + Unit(Because(LengthError)(v)) + Unit(Because(ReplayError)(v))
                                  + Unit(Because(HeaderError)(v)) + Unit(Because(TypeError)(v)) + Unit(Because(SessionError)(v))
  {
    if v.Rejected? {
      match v.cause
      case LengthError =>
      case HeaderError =>
      case CrcError =>
      case SessionError =>
      case ReplayError =>
      case TypeError =>
    }
  }

  lemma {:induction false} Balance(vs: seq<Verdict>)
    requires Reset !in vs
    ensures |vs| == Number(vs, IsAccepted) + Number(vs, IsRejected) + Number(vs, IsStats)
    ensures Number(vs, IsRejected)
         == Number(vs, Because(CrcError)) + Number(vs, Because(LengthError)) + Number(vs, Because(ReplayError))
            + Number(vs, Because(HeaderError)) + Number(vs, Because(TypeError)) + Number(vs, Because(SessionError))
  {
    if vs != [] {
      var v := vs[|vs| - 1];
      Balance(vs[..|vs| - 1]);
      OneCause(v);
    }
  }

  // ----- The replay filter -----

  /** The sequence numbers accepted for one session. */
  function Accepts(vs: seq<Verdict>, session: U32): (r: seq<U32>) {
    if vs == [] then []
    else
      var v := vs[|vs| - 1];
      Accepts(vs[..|vs| - 1], session) + (if v.Accepted? && v.session == session then [v.sequence] else [])
  }

  /** Each number comes after the one before it in serial-number order. */
  predicate InOrder(q: seq<U32>) { forall i {:trigger q[i]} :: 0 < i < |q| ==> Follows(q[i], q[i - 1]) }

  /** The table holds the last number of the session, if it has any. */
  predicate TableAt(last: map<U32, U32>, q: seq<U32>, session: U32) {
    (session in last <==> q != []) && (session in last ==> last[session] == q[|q| - 1])
  }

  ghost predicate TableOf(last: map<U32, U32>, vs: seq<Verdict>) { forall s: U32 :: TableAt(last, Accepts(vs, s), s) }

  ghost predicate AllInOrder(vs: seq<Verdict>) { forall s: U32 :: InOrder(Accepts(vs, s)) }

  lemma AcceptsSnoc(vs: seq<Verdict>, v: Verdict, s: U32)
    ensures Accepts(vs + [v], s) == Accepts(vs, s) + (if v.Accepted? && v.session == s then [v.sequence] else [])
  {
    assert (vs + [v])[..|vs|] == vs;
  }

  lemma InOrderSnoc(q: seq<U32>, n: U32)
    requires InOrder(q) && (q != [] ==> Follows(n, q[|q| - 1]))
    ensures InOrder(q + [n])
  {
    var r := q + [n];
    forall i | 0 < i < |r|
      ensures Follows(r[i], r[i - 1])
    {
      if i < |q| {
        assert r[i] == q[i] && r[i - 1] == q[i - 1];
      }
    }
  }

  /** The verdict on any datagram keeps each session's entry and order. */
  lemma StepKeepsSession(s: State, q: seq<U32>, c: Checked, t: U32)
    requires TableAt(s.last, q, t) && InOrder(q) && Judge(s.last, c) != Reset
    ensures var v := Judge(s.last, c);
      var q' := q + (if v.Accepted? && v.session == t then [v.sequence] else []);
      TableAt(Step(s, v).last, q', t) && InOrder(q')
  {
    var v := Judge(s.last, c);
    if v.Accepted? && v.session == t {
      InOrderSnoc(q, v.sequence);
    } else {
      assert q + [] == q;
    }
  }

  lemma StepKeepsTable(s: State, vs: seq<Verdict>, c: Checked)
    requires TableOf(s.last, vs) && AllInOrder(vs) && Judge(s.last, c) != Reset
    ensures var v := Judge(s.last, c); TableOf(Step(s, v).last, vs + [v]) && AllInOrder(vs + [v])
  {
    var v := Judge(s.last, c);
    forall t: U32
      ensures TableAt(Step(s, v).last, Accepts(vs + [v], t), t) && InOrder(Accepts(vs + [v], t))
    {
      AcceptsSnoc(vs, v, t);
      assert TableAt(s.last, Accepts(vs, t), t) && InOrder(Accepts(vs, t));
      StepKeepsSession(s, Accepts(vs, t), c, t);
    }
  }

  lemma StepKeepsBound(s: State, c: Checked)
    requires |s.last| <= MAX_SESSIONS
    ensures |Step(s, Judge(s.last, c)).last| <= MAX_SESSIONS
  {
    var v := Judge(s.last, c);
    if v.Accepted? && v.session !in s.last {
      assert (s.last[v.session := v.sequence]).Keys == s.last.Keys + {v.session};
      assert |s.last.Keys + {v.session}| == |s.last.Keys| + 1;
      assert |(s.last[v.session := v.sequence]).Keys| == |s.last[v.session := v.sequence]|;
    } else if v.Accepted? {
      assert (s.last[v.session := v.sequence]).Keys == s.last.Keys;
      assert |(s.last[v.session := v.sequence]).Keys| == |s.last[v.session := v.sequence]|;
    }
  }

  // ----- Every reachable state -----

  /** The state is exactly what the verdicts since the last reset make it. */
  ghost predicate Explained(s: State, vs: seq<Verdict>) {
    && s.counts == Tally(vs)
    && TableOf(s.last, vs)
    && AllInOrder(vs)
    && |s.last| <= MAX_SESSIONS
  }

  lemma InitiallyExplained()
    ensures Explained(INITIAL, [])
  {
  }

  lemma SinceResetSnoc(vs: seq<Verdict>, v: Verdict)
    ensures SinceReset(vs + [v]) == if v == Reset then [] else SinceReset(vs) + [v]
  {
    assert (vs + [v])[..|vs|] == vs;
  }

  lemma {:induction false} RunExplained(ws: seq<seq<Byte>>)
    ensures Explained(Run(ws).0, SinceReset(Run(ws).1))
  {
    InitiallyExplained();
    if ws != [] {
      var (s, vs) := Run(ws[..|ws| - 1]);
      RunExplained(ws[..|ws| - 1]);
      var c := Validate(ws[|ws| - 1]);
      var v := Judge(s.last, c);
      SinceResetSnoc(vs, v);
      if v != Reset {
        TallySnoc(SinceReset(vs), v, s.last);
        StepKeepsTable(s, SinceReset(vs), c);
        StepKeepsBound(s, c);
      }
    }
  }

  /** Since the last reset every datagram was accepted, invalid or a statistics request, and every invalid one has one cause. */
  lemma BooksBalance(ws: seq<seq<Byte>>)
    ensures var (s, vs) := Run(ws);
      && s.counts.datagrams == s.counts.accepted + s.counts.invalid + Number(SinceReset(vs), IsStats)
      && s.counts.invalid == s.counts.crcErrors + s.counts.lengthErrors + s.counts.replayErrors
                             + s.counts.headerErrors + s.counts.typeErrors + s.counts.sessionErrors
      && s.counts.bytesAccepted == Volume(SinceReset(vs))
      && |s.last| <= MAX_SESSIONS
  {
    RunExplained(ws);
    Balance(SinceReset(Run(ws).1));
  }

  // ----- Unwrapped sequence numbers -----

  /** An unbounded counter behind the wrapping numbers q: it grows by their differences. */
  function Unwrapped(q: seq<U32>, i: nat): (r: nat)
    requires i < |q|
  {
    if i == 0 then q[0] else Unwrapped(q, i - 1) + Delta(q[i], q[i - 1])
  }

  lemma Congruent(u: nat, last: U32, next: U32)
    requires u % SPAN == last
    ensures (u + Delta(next, last)) % SPAN == next
  {
    var k := u / SPAN;
    assert u == k * SPAN + last;
    if next >= last {
      assert Delta(next, last) == next - last;
      assert u + Delta(next, last) == k * SPAN + next;
    } else {
      assert Delta(next, last) == next - last + SPAN;
      assert u + Delta(next, last) == (k + 1) * SPAN + next;
    }
  }

  lemma {:induction false} UnwrappedCongruent(q: seq<U32>, i: nat)
    requires i < |q|
    ensures Unwrapped(q, i) % SPAN == q[i]
  {
    if i > 0 {
      UnwrappedCongruent(q, i - 1);
      Congruent(Unwrapped(q, i - 1), q[i - 1], q[i]);
    }
  }

  /** Every accepted packet moves its session's counter by 1 to 2^31 - 1. */
  lemma {:induction false} UnwrappedGrows(q: seq<U32>, i: nat, j: nat)
    requires InOrder(q) && i <= j < |q|
    ensures (j - i) <= Unwrapped(q, j) - Unwrapped(q, i) <= (j - i) * (HALF - 1)
    decreases j
  {
    if i < j {
      UnwrappedGrows(q, i, j - 1);
      assert Follows(q[j], q[j - 1]);
      assert (j - i) * (HALF - 1) == (j - 1 - i) * (HALF - 1) + (HALF - 1);
    }
  }

  lemma SameRemainder(a: nat, b: nat)
    requires a < b && a % SPAN == b % SPAN
    ensures b - a >= SPAN
  {
  }

  /** A session accepts a sequence number it accepted before only after at least two others. */
  lemma ReplayNeedsTwoOthers(ws: seq<seq<Byte>>, session: U32, i: nat, j: nat)
    requires i < j < |Accepts(SinceReset(Run(ws).1), session)|
    requires Accepts(SinceReset(Run(ws).1), session)[i] == Accepts(SinceReset(Run(ws).1), session)[j]
    ensures j - i >= 3
  {
    var q := Accepts(SinceReset(Run(ws).1), session);
    RunExplained(ws);
    assert InOrder(q);
    UnwrappedCongruent(q, i);
    UnwrappedCongruent(q, j);
    UnwrappedGrows(q, i, j);
    SameRemainder(Unwrapped(q, i), Unwrapped(q, j));
  }

  /** The data packets of one session with the sequence numbers q and no payload, as datagrams. */
  function Datagrams(session: U32, q: seq<U32>): (r: seq<seq<Byte>>)
    ensures |r| == |q|
  {
    if q == [] then [] else Datagrams(session, q[..|q| - 1]) + [EncodeReply(DATA, session, q[|q| - 1], [])]
  }

  function Acceptances(session: U32, q: seq<U32>): (r: seq<Verdict>) {
    if q == [] then [] else Acceptances(session, q[..|q| - 1]) + [Accepted(session, q[|q| - 1], [])]
  }

  lemma {:induction false} AcceptancesNoReset(session: U32, q: seq<U32>)
    ensures SinceReset(Acceptances(session, q)) == Acceptances(session, q)
  {
    if q != [] {
      AcceptancesNoReset(session, q[..|q| - 1]);
      SinceResetSnoc(Acceptances(session, q[..|q| - 1]), Accepted(session, q[|q| - 1], []));
    }
  }

  lemma {:induction false} AcceptancesAccept(session: U32, q: seq<U32>)
    ensures Accepts(Acceptances(session, q), session) == q
  {
    if q != [] {
      var before, n := q[..|q| - 1], q[|q| - 1];
      AcceptancesAccept(session, before);
      AcceptsSnoc(Acceptances(session, before), Accepted(session, n, []), session);
      assert before + [n] == q;
    }
  }

  /** A run extended by one datagram. */
  lemma RunSnoc(ws: seq<seq<Byte>>, w: seq<Byte>)
    ensures var (s, vs), v := Run(ws), Judge(Run(ws).0.last, Validate(w)); Run(ws + [w]) == (Step(s, v), vs + [v])
  {
    assert (ws + [w])[..|ws|] == ws;
  }

  /** The table after such acceptances: the one session, at its last number. */
  function OneSession(session: U32, q: seq<U32>): (r: map<U32, U32>) {
    if q == [] then map[] else map[session := q[|q| - 1]]
  }

  lemma DatagramIsGood(session: U32, n: U32)
    ensures Validate(EncodeReply(DATA, session, n, [])) == Good(DATA, session, n, [])
  {
    ValidateExact(EncodeReply(DATA, session, n, []), DATA, session, n, []);
  }

  /** The next number in order is accepted, and is then the session's last. */
  lemma NextIsAccepted(s: State, session: U32, before: seq<U32>, n: U32)
    requires s.last == OneSession(session, before) && (before != [] ==> Follows(n, before[|before| - 1]))
    ensures Judge(s.last, Good(DATA, session, n, [])) == Accepted(session, n, [])
    ensures Step(s, Accepted(session, n, [])).last == map[session := n]
  {
  }

  lemma ExtendRun(ws: seq<seq<Byte>>, w: seq<Byte>, session: U32, before: seq<U32>, n: U32)
    requires Run(ws).0.last == OneSession(session, before) && (before != [] ==> Follows(n, before[|before| - 1]))
    requires Validate(w) == Good(DATA, session, n, [])
    ensures Run(ws + [w]).1 == Run(ws).1 + [Accepted(session, n, [])]
    ensures Run(ws + [w]).0.last == map[session := n]
  {
    RunSnoc(ws, w);
    NextIsAccepted(Run(ws).0, session, before, n);
  }

  /** Every sequence of numbers in serial order is accepted as a whole, however far it goes round. */
  lemma {:induction false} InOrderIsAccepted(session: U32, q: seq<U32>)
    requires InOrder(q)
    ensures Run(Datagrams(session, q)).1 == Acceptances(session, q)
    ensures Run(Datagrams(session, q)).0.last == OneSession(session, q)
  {
    if q != [] {
      var before, n := q[..|q| - 1], q[|q| - 1];
      InOrderIsAccepted(session, before);
      DatagramIsGood(session, n);
      assert before != [] ==> Follows(q[|q| - 1], before[|before| - 1]);
      ExtendRun(Datagrams(session, before), EncodeReply(DATA, session, n, []), session, before, n);
    }
  }

  /**
   Two others are enough: a run of four datagrams, half the number space on, half again, and two more, in
   which the same number is accepted twice.
   */
  lemma TwoOthersSuffice(session: U32)
    ensures var q := [0, HALF - 1, 2 * HALF - 2, 0];
      Accepts(SinceReset(Run(Datagrams(session, q)).1), session) == q
  {
    var q: seq<U32> := [0, HALF - 1, 2 * HALF - 2, 0];
    assert Delta(q[3], q[2]) == 2;
    assert InOrder(q);
    InOrderIsAccepted(session, q);
    AcceptancesNoReset(session, q);
    AcceptancesAccept(session, q);
  }

  lemma JudgedByHistory(last: map<U32, U32>, q: seq<U32>, session: U32, sequence: U32, payload: seq<Byte>)
    requires TableAt(last, q, session) && |last| <= MAX_SESSIONS
    ensures Judge(last, Good(DATA, session, sequence, payload)).Accepted? <==>
      if q != [] then Follows(sequence, q[|q| - 1]) else |last| < MAX_SESSIONS
  {
  }

  lemma ReachableTable(ws: seq<seq<Byte>>, session: U32)
    ensures var (s, vs) := Run(ws); TableAt(s.last, Accepts(SinceReset(vs), session), session) && |s.last| <= MAX_SESSIONS
  {
    RunExplained(ws);
    assert TableOf(Run(ws).0.last, SinceReset(Run(ws).1));
  }

  /** Acceptance depends on the session's own history, and for a new session on the room in the table. */
  lemma SessionsIndependent(ws: seq<seq<Byte>>, session: U32, sequence: U32, payload: seq<Byte>)
    ensures var (s, vs) := Run(ws);
      var q := Accepts(SinceReset(vs), session);
      Judge(s.last, Good(DATA, session, sequence, payload)).Accepted? <==>
        if q != [] then Follows(sequence, q[|q| - 1]) else |s.last| < MAX_SESSIONS
  {
    ReachableTable(ws, session);
    var (s, vs) := Run(ws);
    JudgedByHistory(s.last, Accepts(SinceReset(vs), session), session, sequence, payload);
  }

  /** And it leaves every other session's history alone. */
  lemma OthersUntouched(vs: seq<Verdict>, v: Verdict, other: U32)
    requires v.Accepted? ==> v.session != other
    ensures Accepts(vs + [v], other) == Accepts(vs, other)
  {
    AcceptsSnoc(vs, v, other);
    assert Accepts(vs, other) + [] == Accepts(vs, other);
  }
}
