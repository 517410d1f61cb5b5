/** The converse: every trace of the language is emitted by both listeners, so the language is
    exactly theirs, up to the reason given on closing. */
module ListenerLanguages {
  import opened Common
  import opened Listeners
  import opened ListenerLaws

  lemma WalkCons(p: Phase, t: seq<Event>)
    requires t != []
    ensures Walk(p, t) == Walk(Advance(p, t[0]), t[1..])
  {
    assert t == [t[0]] + t[1..];
    WalkConcat(p, [t[0]], t[1..]);
    WalkOne(p, t[0]);
  }

  lemma {:induction false} EndedIsLast(t: seq<Event>)
    requires Walk(Ended, t) != Rejected
    ensures t == []
  {
    if t != [] {
      WalkCons(Ended, t);
      RejectedStays(t[1..]);
    }
  }

  // ----- Keybase

  /** A turn of the polling loop that emits `e`. */
  function PollFor(e: Event): Poll {
    match e
    case Opened => Poll(false, Some([]))
    case Slate => Poll(false, Some([true]))
    case Dropped => Poll(false, None)
    case Reestablished => Poll(false, Some([]))
    case Closed(Normal) => Poll(true, None)
    case Closed(Abnormal) => Poll(false, None)
  }

  function KeybaseScript(t: seq<Event>): seq<Poll> {
    seq(|t|, i requires 0 <= i < |t| => PollFor(t[i]))
  }

  /** An abnormal close is only ever the whole trace. */
  ghost predicate AbnormalAlone(t: seq<Event>) {
    Closed(Abnormal) in t ==> |t| == 1
  }

  lemma KeybaseEmitsOne(st: KeybaseState, e: Event)
    requires KeybasePhase(st) && st.status.Running? && Advance(Walk(Starting, st.trace), e) != Rejected
    requires e == Closed(Abnormal) ==> Walk(Starting, st.trace) == Starting
    ensures var st' := KeybaseStep(st, PollFor(e));
      st'.trace == st.trace + [e] && (st'.status.Running? <==> Advance(Walk(Starting, st.trace), e) != Ended)
  {
    hide Walk;
  }

  lemma {:induction false} KeybaseEmits(t: seq<Event>)
    requires Accepts(t) && AbnormalAlone(t)
    ensures var st := KeybaseRun(KeybaseScript(t));
      st.trace == t && KeybasePhase(st) && (st.status.Running? <==> Walk(Starting, t) != Ended)
  {
    if t != [] {
      var n := |t| - 1;
      assert t == t[..n] + [t[n]];
      assert KeybaseScript(t)[..n] == KeybaseScript(t[..n]);
      PrefixAccepted(t[..n], t);
      KeybaseEmits(t[..n]);
      var st := KeybaseRun(KeybaseScript(t[..n]));
      assert KeybaseRun(KeybaseScript(t)) == KeybaseStep(st, PollFor(t[n]));
      assert Walk(Starting, t) == Advance(Walk(Starting, t[..n]), t[n]);
      if t[n] == Closed(Abnormal) { assert t[..n] == []; }
      hide KeybaseRun, KeybaseScript, KeybaseStep, KeybasePhase, Walk, PollFor;
      KeybaseStepAccepted(st, PollFor(t[n]));
      KeybaseEmitsOne(st, t[n]);
    }
  }

  /** The Keybase listener emits exactly the language, with abnormal closes only on their own. */
  lemma KeybaseLanguage(t: seq<Event>)
    ensures Accepts(t) && AbnormalAlone(t) <==> exists script :: t <= KeybaseRun(script).trace
  {
    if Accepts(t) && AbnormalAlone(t) {
      KeybaseEmits(t);
    }
    forall script | t <= KeybaseRun(script).trace ensures Accepts(t) && AbnormalAlone(t) {
      KeybaseAccepted(script);
      KeybaseEnds(script);
      PrefixAccepted(t, KeybaseRun(script).trace);
      assert t == KeybaseRun(script).trace[..|t|];
    }
  }

  // ----- the websocket listener

  function SlatesAhead(t: seq<Event>): (n: nat)
    ensures n <= |t| && t[..n] == Slates(n) && (n < |t| ==> t[n] != Slate)
  {
    if t == [] || t[0] != Slate then 0 else
      var n := SlatesAhead(t[1..]) + 1;
      assert t[..n] == [t[0]] + t[1..][..n - 1];
      n
  }

  /** Connections that emit `t` from a moment when none is up. */
  function GrinboxScript(t: seq<Event>): seq<Connection>
    decreases |t|
  {
    if t == [] then []
    else if t[0].Closed? then [Connection(true, false, 0, true, t[0].reason.Abnormal?, false)]
    else
      var n := SlatesAhead(t[1..]);
      var rest := t[1 + n..];
      if rest != [] && rest[0].Closed? then [Connection(true, true, n, true, rest[0].reason.Abnormal?, false)]
      else [Connection(true, true, n, false, false, false)] + if rest == [] then [] else GrinboxScript(rest[1..])
  }

  function RunFrom(st: GrinboxState, script: seq<Connection>): GrinboxState
    decreases |script|
  {
    if script == [] then st else RunFrom(GrinboxStep(true, st, script[0]), script[1..])
  }

  lemma {:induction false} RunFromRun(a: seq<Connection>, b: seq<Connection>)
    ensures RunFrom(GrinboxRun(true, a), b) == GrinboxRun(true, a + b)
    decreases |b|
  {
    if b == [] {
      assert a + b == a;
    } else {
      assert (a + [b[0]])[..|a|] == a;
      RunFromRun(a + [b[0]], b[1..]);
      assert a + [b[0]] + b[1..] == a + b;
    }
  }

  /** What may follow the slates of a session: nothing, a drop, or a close that ends everything. */
  ghost predicate SessionEnd(rest: seq<Event>) {
    rest == [] || (rest[0] == Dropped && Walk(Down, rest[1..]) != Rejected) || (rest[0].Closed? && |rest| == 1)
  }

  lemma EndOfSession(rest: seq<Event>)
    requires Walk(Up, rest) != Rejected && (rest != [] ==> rest[0] != Slate)
    ensures SessionEnd(rest)
  {
    if rest != [] {
      WalkCons(Up, rest);
      RejectedStays(rest[1..]);
      hide Walk;
      if rest[0].Closed? { EndedIsLast(rest[1..]); }
    }
  }

  lemma SlatesThenEnd(u: seq<Event>)
    requires Walk(Up, u) != Rejected
    ensures u == Slates(SlatesAhead(u)) + u[SlatesAhead(u)..] && SessionEnd(u[SlatesAhead(u)..])
  {
    var n := SlatesAhead(u);
    assert u == Slates(n) + u[n..];
    WalkConcat(Up, Slates(n), u[n..]);
    WalkSlates(n);
    hide *;
    EndOfSession(u[n..]);
  }

  /** An accepted rest begins with the right opening event, then slates, then the session's end. */
  lemma SplitSession(p: Phase, t: seq<Event>)
    requires (p == Starting || p == Down) && t != [] && Walk(p, t) != Rejected && !t[0].Closed?
    ensures t[0] == if p == Starting then Opened else Reestablished
    ensures var n := SlatesAhead(t[1..]);
      t == [t[0]] + Slates(n) + t[1 + n..] && SessionEnd(t[1 + n..])
  {
    hide *;
    FirstOpens(p, t);
    SlatesThenEnd(t[1..]);
    TailOfTail(t, SlatesAhead(t[1..]), Slates(SlatesAhead(t[1..])));
  }

  lemma FirstOpens(p: Phase, t: seq<Event>)
    requires (p == Starting || p == Down) && t != [] && Walk(p, t) != Rejected && !t[0].Closed?
    ensures t[0] == (if p == Starting then Opened else Reestablished) && Walk(Up, t[1..]) != Rejected
  {
    WalkCons(p, t);
    RejectedStays(t[1..]);
    hide Walk;
  }

  lemma TailOfTail<T>(t: seq<T>, n: nat, mid: seq<T>)
    requires 1 + n <= |t| && t[1..] == mid + t[1..][n..]
    ensures t[1..][n..] == t[1 + n..] && t == [t[0]] + mid + t[1 + n..]
  {
    assert t == [t[0]] + t[1..];
  }

  lemma ScriptOfSession(t: seq<Event>)
    requires t != [] && !t[0].Closed?
    ensures var n := SlatesAhead(t[1..]); var rest := t[1 + n..];
      GrinboxScript(t) ==
        if rest == [] then [Connection(true, true, n, false, false, false)]
        else if rest[0].Closed? then [Connection(true, true, n, true, rest[0].reason.Abnormal?, false)]
        else [Connection(true, true, n, false, false, false)] + GrinboxScript(rest[1..])
  {}

  lemma RunFromCons(st: GrinboxState, c: Connection, rest: seq<Connection>)
    ensures RunFrom(st, [c] + rest) == RunFrom(GrinboxStep(true, st, c), rest)
    ensures RunFrom(st, [c]) == GrinboxStep(true, st, c)
  {
    assert ([c] + rest)[1..] == rest && [c][1..] == [];
  }

  lemma EmitsClose(st: GrinboxState, e: Event)
    requires st.status.Running? && e.Closed?
    ensures RunFrom(st, GrinboxScript([e])).trace == st.trace + [e]
  {
    RunFromCons(st, GrinboxScript([e])[0], []);
  }

  function Session(st: GrinboxState, n: nat): seq<Event> {
    [if st.connected then Reestablished else Opened] + Slates(n)
  }

  lemma EmitsOpenSession(st: GrinboxState, n: nat)
    requires st.status.Running?
    ensures st.trace + Session(st, n) <= RunFrom(st, [Connection(true, true, n, false, false, false)]).trace
  {
    hide *;
    SessionTrace(st, n);
    RunFromCons(st, Connection(true, true, n, false, false, false), []);
  }

  lemma EmitsClosedSession(st: GrinboxState, n: nat, r: CloseReason)
    requires st.status.Running?
    ensures st.trace + (Session(st, n) + [Closed(r)]) ==
      RunFrom(st, [Connection(true, true, n, true, r.Abnormal?, false)]).trace
  {
    hide *;
    SessionTrace(st, n);
    RunFromCons(st, Connection(true, true, n, true, r.Abnormal?, false), []);
  }

  lemma PrefixAssoc<T>(x: seq<T>, a: seq<T>, more: seq<T>, z: seq<T>)
    requires x + a + more <= z
    ensures x + (a + more) <= z
  {
    assert x + (a + more) == x + a + more;
  }

  /** The inductive step: one connection that drops, then whatever follows. */
  lemma EmitsDroppedSession(st: GrinboxState, n: nat, more: seq<Event>, t: seq<Event>)
    requires st.status.Running? && Walk(Down, more) != Rejected && t == Session(st, n) + [Dropped] + more
    ensures st.trace + t <= RunFrom(st, [Connection(true, true, n, false, false, false)] + GrinboxScript(more)).trace
    decreases |more|, 2
  {
    hide *;
    var c := Connection(true, true, n, false, false, false);
    var up := GrinboxStep(true, st, c);
    SessionTrace(st, n);
    RunFromCons(st, c, GrinboxScript(more));
    GrinboxEmits(up, more);
    PrefixAssoc(st.trace, Session(st, n) + [Dropped], more, RunFrom(up, GrinboxScript(more)).trace);
  }

  lemma SessionOf(st: GrinboxState, t: seq<Event>)
    requires t != [] && Walk(if st.connected then Down else Starting, t) != Rejected && !t[0].Closed?
    ensures var n := SlatesAhead(t[1..]); t == Session(st, n) + t[1 + n..] && SessionEnd(t[1 + n..])
  {
    SplitSession(if st.connected then Down else Starting, t);
    hide Walk, SlatesAhead, Slates, SessionEnd;
  }

  lemma {:induction false} GrinboxEmits(st: GrinboxState, t: seq<Event>)
    requires st.status.Running? && Walk(if st.connected then Down else Starting, t) != Rejected
    ensures st.trace + t <= RunFrom(st, GrinboxScript(t)).trace
    decreases |t|, 1
  {
    var p := if st.connected then Down else Starting;
    if t == [] {
    } else if t[0].Closed? {
      WalkCons(p, t);
      EndedIsLast(t[1..]);
      assert t == [t[0]];
      EmitsClose(st, t[0]);
    } else {
      SessionOf(st, t);
      ScriptOfSession(t);
      GrinboxEmitsSession(st, t, SlatesAhead(t[1..]));
    }
  }

  lemma GrinboxEmitsSession(st: GrinboxState, t: seq<Event>, n: nat)
    requires st.status.Running? && t != [] && !t[0].Closed? && 1 + n <= |t| && n == SlatesAhead(t[1..])
    requires t == Session(st, n) + t[1 + n..] && SessionEnd(t[1 + n..])
    ensures st.trace + t <= RunFrom(st, GrinboxScript(t)).trace
    decreases |t|, 0
  {
    var rest := t[1 + n..];
    assert rest == [] || (rest[0] == Dropped && Walk(Down, rest[1..]) != Rejected) || (rest[0].Closed? && |rest| == 1);
    ScriptOfSession(t);
    hide *;
    if rest == [] {
      assert t == Session(st, n);
      EmitsOpenSession(st, n);
    } else if rest[0].Closed? {
      CloseTail(Session(st, n), t, rest, rest[0].reason);
      EmitsClosedSession(st, n, rest[0].reason);
    } else {
      DropTail(Session(st, n), t, rest);
      EmitsDroppedSession(st, n, rest[1..], t);
    }
  }

  lemma CloseTail(head: seq<Event>, t: seq<Event>, rest: seq<Event>, r: CloseReason)
    requires t == head + rest && |rest| == 1 && rest[0] == Closed(r)
    ensures t == head + [Closed(r)]
  {
    assert rest == [Closed(r)];
  }

  lemma DropTail(head: seq<Event>, t: seq<Event>, rest: seq<Event>)
    requires t == head + rest && rest != [] && rest[0] == Dropped
    ensures t == head + [Dropped] + rest[1..]
  {
    assert rest == [Dropped] + rest[1..];
  }

  /** What one completed connection adds to the trace. */
  lemma SessionTrace(st: GrinboxState, n: nat)
    requires st.status.Running?
    ensures var up := GrinboxStep(true, st, Connection(true, true, n, false, false, false));
      up.trace == st.trace + (Session(st, n) + [Dropped]) && up.status.Running? && up.connected
    ensures forall failed: bool ::
      GrinboxStep(true, st, Connection(true, true, n, true, failed, false)).trace ==
        st.trace + (Session(st, n) + [Closed(if failed then Abnormal else Normal)])
  {
    var first := [if st.connected then Reestablished else Opened];
    assert st.trace + first + Slates(n) == st.trace + Session(st, n);
    assert forall e: Event :: st.trace + Session(st, n) + [e] == st.trace + (Session(st, n) + [e]);
  }

  /** The websocket listener emits exactly the language. */
  lemma GrinboxLanguage(t: seq<Event>)
    ensures Accepts(t) <==> exists script :: t <= GrinboxRun(true, script).trace
  {
    if Accepts(t) {
      GrinboxEmits(GrinboxStart, t);
      RunFromRun([], GrinboxScript(t));
      assert [] + GrinboxScript(t) == GrinboxScript(t);
      assert [] + t == t;
    }
    forall script | t <= GrinboxRun(true, script).trace ensures Accepts(t) {
      CheckedGrinboxAccepted(script);
      PrefixAccepted(t, GrinboxRun(true, script).trace);
    }
  }

  /** The two loops have the same normal behaviours: a trace without an abnormal close is one of
      the websocket listener's exactly when it is one of the Keybase listener's. */
  lemma ListenersAgree(t: seq<Event>)
    requires Closed(Abnormal) !in t
    ensures (exists script :: t <= GrinboxRun(true, script).trace) <==> (exists script :: t <= KeybaseRun(script).trace)
  {
    GrinboxLanguage(t);
    KeybaseLanguage(t);
  }
}
