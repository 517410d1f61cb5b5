/** The two listeners emit one language of events: an open, then slates with drops and
    re-establishments strictly alternating, no slate while dropped, and at most one close, last. */
module ListenerLaws {
  import opened Common
  import opened Listeners

  // ----- the language

  datatype Phase = Starting | Up | Down | Ended | Rejected

  function Advance(p: Phase, e: Event): Phase {
    match e
    case Opened => if p.Starting? then Up else Rejected
    case Slate => if p.Up? then Up else Rejected
    case Dropped => if p.Up? then Down else Rejected
    case Reestablished => if p.Down? then Up else Rejected
    case Closed(_) => if p.Ended? || p.Rejected? then Rejected else Ended
  }

  function Walk(p: Phase, t: seq<Event>): Phase {
    if t == [] then p else Advance(Walk(p, t[..|t| - 1]), t[|t| - 1])
  }

  ghost predicate Accepts(t: seq<Event>) {
    Walk(Starting, t) != Rejected
  }

  lemma {:induction false} WalkConcat(p: Phase, a: seq<Event>, b: seq<Event>)
    ensures Walk(p, a + b) == Walk(Walk(p, a), b)
  {
    if b == [] {
      assert a + b == a;
    } else {
      assert (a + b)[..|a + b| - 1] == a + b[..|b| - 1];
      WalkConcat(p, a, b[..|b| - 1]);
    }
  }

  lemma WalkOne(p: Phase, e: Event)
    ensures Walk(p, [e]) == Advance(p, e)
  {
    assert [e][..0] == [];
  }

  lemma WalkSnoc(t: seq<Event>, e: Event)
    ensures Walk(Starting, t + [e]) == Advance(Walk(Starting, t), e)
  {
    assert (t + [e])[..|t|] == t;
  }

  lemma {:induction false} WalkSlates(n: nat)
    ensures Walk(Up, Slates(n)) == Up
  {
    if n > 0 {
      assert Slates(n)[..n - 1] == Slates(n - 1);
      WalkSlates(n - 1);
    }
  }

  lemma {:induction false} RejectedStays(t: seq<Event>)
    ensures Walk(Rejected, t) == Rejected
  {
    if t != [] { RejectedStays(t[..|t| - 1]); }
  }

  lemma PrefixAccepted(t: seq<Event>, u: seq<Event>)
    requires t <= u && Accepts(u)
    ensures Accepts(t)
  {
    assert u == t + u[|t|..];
    WalkConcat(Starting, t, u[|t|..]);
    RejectedStays(u[|t|..]);
  }

  // ----- the websocket listener stays in the language

  /** How many turns ago a handshake last completed. */
  function Since(script: seq<Connection>): Option<nat> {
    if script == [] then None
    else if script[|script| - 1].Opens() then Some(0)
    else match Since(script[..|script| - 1])
      case None => None
      case Some(d) => Some(d + 1)
  }

  lemma WalkConnected(st: GrinboxState, c: Connection)
    requires Walk(Starting, st.trace) == if st.connected then Down else Starting
    ensures Walk(Starting, Connected(st, c).trace) ==
      if c.Opens() then Up else if st.connected then Down else Starting
  {
    if c.Opens() {
      var first := if st.connected then Reestablished else Opened;
      WalkConcat(Starting, st.trace + [first], Slates(c.slates));
      WalkConcat(Starting, st.trace, [first]);
      WalkOne(Walk(Starting, st.trace), first);
      WalkSlates(c.slates);
    }
  }

  /** The phase after a turn: a close ends it, a drop is right after a handshake only, and a turn
      without either leaves the phase alone. */
  lemma PhaseAfterTurn(checks: bool, st: GrinboxState, c: Connection)
    requires st.status.Running? && Walk(Starting, st.trace) == if st.connected then Down else Starting
    ensures Walk(Starting, GrinboxStep(checks, st, c).trace) ==
      if GrinboxStep(checks, st, c).status.Returned? then Ended
      else if c.Opens() then Down
      else if st.connected then (if st.retries == 0 then Rejected else Down) else Starting
  {
    WalkConnected(st, c);
    TurnShape(checks, st, c);
    var t := Connected(st, c).trace;
    WalkSnoc(t, Dropped);
    WalkSnoc(t, Closed(Normal));
    WalkSnoc(t, Closed(Abnormal));
    hide Connected, Walk, GrinboxStep;
  }

  /** One turn: unless a stale zero of the retry counter makes it report a second drop, the trace
      stays in the language. */
  lemma GrinboxStepAccepted(checks: bool, st: GrinboxState, c: Connection)
    requires st.status.Running? && Walk(Starting, st.trace) == if st.connected then Down else Starting
    ensures var st' := GrinboxStep(checks, st, c);
      (Accepts(st'.trace) <==> !(st'.status != Returned && !c.Opens() && st.connected && st.retries == 0)) &&
      (st'.status.Running? && Accepts(st'.trace) ==>
        Walk(Starting, st'.trace) == if st'.connected then Down else Starting)
  {
    PhaseAfterTurn(checks, st, c);
    TurnShape(checks, st, c);
    hide Connected, Walk, GrinboxStep;
  }

  lemma TurnShape(checks: bool, st: GrinboxState, c: Connection)
    requires st.status.Running?
    ensures var st', t := GrinboxStep(checks, st, c), Connected(st, c).trace;
      (st'.status.Returned? ==> st'.trace == t + [Closed(Normal)] || st'.trace == t + [Closed(Abnormal)]) &&
      (!st'.status.Returned? ==> st'.connected == (st.connected || c.Opens())) &&
      (!st'.status.Returned? ==>
        st'.trace == if c.Opens() || (st.connected && st.retries == 0) then t + [Dropped] else t)
  {}

  /** With overflow checks the retry counter never wraps, and every trace is in the language,
      whatever the network and the user do. */
  lemma {:induction false} CheckedGrinboxAccepted(script: seq<Connection>)
    ensures var st := GrinboxRun(true, script);
      Accepts(st.trace) && st.retries <= 64 && (st.status.Running? ==>
        Walk(Starting, st.trace) == (if st.connected then Down else Starting) && (st.connected ==> st.retries > 0))
  {
    if script != [] {
      var n := |script| - 1;
      CheckedGrinboxAccepted(script[..n]);
      var st := GrinboxRun(true, script[..n]);
      if st.status.Running? {
        GrinboxStepAccepted(true, st, script[n]);
        CheckedStep(st, script[n]);
      }
      assert GrinboxRun(true, script) == GrinboxStep(true, st, script[n]);
      assert !st.status.Running? ==> GrinboxRun(true, script) == st;
      hide GrinboxStep, GrinboxRun, Walk;
    }
  }

  lemma CheckedStep(st: GrinboxState, c: Connection)
    requires st.status.Running? && st.retries <= 64
    ensures var st' := GrinboxStep(true, st, c);
      st'.retries <= 64 && (st'.status.Running? ==> st'.retries > 0)
  {}

  // ----- exactly when, without overflow checks

  lemma {:induction false} TraceGrows(checks: bool, st: GrinboxState, c: Connection)
    ensures st.trace <= GrinboxStep(checks, st, c).trace
  {}

  lemma {:induction false} RetriesCount(script: seq<Connection>)
    requires GrinboxRun(false, script).status.Running?
    ensures var st := GrinboxRun(false, script);
      (st.connected <==> Since(script).Some?) && (st.connected ==> st.retries == (Since(script).value + 1) % U32)
  {
    if script != [] {
      var n := |script| - 1;
      RetriesCount(script[..n]);
      if Since(script[..n]).Some? {
        WrapNext(Since(script[..n]).value + 1);
      }
    }
  }

  lemma WrapNext(x: nat)
    ensures (x % U32 + 1) % U32 == (x + 1) % U32
  {}

  /** At some point the listener was running and a completed handshake lay 2^32 turns back. */
  ghost predicate LongDrought(script: seq<Connection>) {
    exists k :: 0 <= k <= |script| && GrinboxRun(false, script[..k]).status.Running? && DryFor(script[..k], U32)
  }

  ghost predicate DryFor(script: seq<Connection>, d: nat) {
    Since(script).Some? && Since(script).value >= d
  }

  lemma DroughtSnoc(script: seq<Connection>)
    requires script != []
    ensures LongDrought(script) <==>
      LongDrought(script[..|script| - 1]) || (GrinboxRun(false, script).status.Running? && DryFor(script, U32))
  {
    hide GrinboxRun, DryFor;
    var n := |script| - 1;
    assert script[..|script|] == script;
    forall k | 0 <= k <= n ensures script[..n][..k] == script[..k] {}
  }

  /** Without overflow checks, the trace of a listener is in the language if and only if the server
      was never out of reach for 2^32 consecutive turns while it ran: the wrapped counter then reports
      the drop a second time. Closed listeners included: their close event is the only one, and last. */
  lemma {:induction false} UncheckedGrinboxExact(script: seq<Connection>)
    ensures var st := GrinboxRun(false, script);
      (Accepts(st.trace) <==> !LongDrought(script)) &&
      (Accepts(st.trace) && st.status.Running? ==> Walk(Starting, st.trace) == if st.connected then Down else Starting)
  {
    if script == [] {
      assert forall k :: 0 <= k <= 0 ==> script[..k] == [];
    } else {
      var n := |script| - 1;
      var st, c := GrinboxRun(false, script[..n]), script[n];
      UncheckedGrinboxExact(script[..n]);
      DroughtSnoc(script);
      assert GrinboxRun(false, script) == GrinboxStep(false, st, c);
      if st.status.Running? {
        UncheckedTurn(script);
      }
    }
  }

  lemma RunSnoc(checks: bool, script: seq<Connection>)
    requires script != []
    ensures GrinboxRun(checks, script) ==
      GrinboxStep(checks, GrinboxRun(checks, script[..|script| - 1]), script[|script| - 1])
  {
    hide GrinboxStep;
  }

  lemma NeverPanics(st: GrinboxState, c: Connection)
    requires !st.status.Panicked?
    ensures !GrinboxStep(false, st, c).status.Panicked?
  {}

  /** The inductive step: the next turn of a listener that is still running. */
  lemma UncheckedTurn(script: seq<Connection>)
    requires script != [] && GrinboxRun(false, script[..|script| - 1]).status.Running?
    requires var st := GrinboxRun(false, script[..|script| - 1]);
      (Accepts(st.trace) <==> !LongDrought(script[..|script| - 1])) &&
      (Accepts(st.trace) ==> Walk(Starting, st.trace) == if st.connected then Down else Starting)
    ensures var st := GrinboxRun(false, script);
      (Accepts(st.trace) <==> !LongDrought(script)) &&
      (Accepts(st.trace) && st.status.Running? ==> Walk(Starting, st.trace) == if st.connected then Down else Starting)
  {
    var n := |script| - 1;
    var st, c := GrinboxRun(false, script[..n]), script[n];
    var st' := GrinboxStep(false, st, c);
    hide *;
    RunSnoc(false, script);
    DroughtSnoc(script);
    NeverPanics(st, c);
    if Accepts(st.trace) {
      GrinboxStepAccepted(false, st, c);
      LastDry(script);
    } else {
      TraceGrows(false, st, c);
      if Accepts(st'.trace) {
        PrefixAccepted(st.trace, st'.trace);
      }
    }
  }

  /** While there was no long drought yet, a zero counter tells that this turn completes one. */
  lemma LastDry(script: seq<Connection>)
    requires script != [] && GrinboxRun(false, script[..|script| - 1]).status.Running?
    requires !LongDrought(script[..|script| - 1])
    ensures var st := GrinboxRun(false, script[..|script| - 1]);
      DryFor(script, U32) <==> !script[|script| - 1].Opens() && st.connected && st.retries == 0
  {
    var s := script[..|script| - 1];
    assert s[..|s|] == s;
    RetriesCount(s);
    hide GrinboxRun;
    assert !DryFor(s, U32);
  }

  const DryTurn := Connection(true, false, 0, false, false, false)

  function DryTurns(d: nat): seq<Connection> {
    seq(d, _ => DryTurn)
  }

  /** One session, then `d` turns that never complete the handshake. */
  function DryScript(d: nat): seq<Connection> {
    [Connection(true, true, 0, false, false, false)] + DryTurns(d)
  }

  lemma DryScriptSnoc(d: nat)
    ensures DryScript(d + 1)[..d + 1] == DryScript(d) && |DryScript(d + 1)| == d + 2 &&
      DryScript(d + 1)[d + 1] == DryTurn
  {}

  /** The state after a session that ended and some failed reconnects. */
  function Waiting(retries: u32): GrinboxState {
    GrinboxState(true, retries, true, [Opened, Dropped], Running)
  }

  lemma DryTurnFrom(retries: u32)
    requires 0 < retries
    ensures GrinboxStep(false, Waiting(retries), DryTurn) == Waiting(if retries + 1 == U32 then 0 else retries + 1)
  {}

  lemma DryStart()
    ensures GrinboxRun(false, DryScript(0)) == Waiting(1)
  {
    assert DryScript(0)[..0] == [];
  }

  lemma {:induction false} DryRun(d: nat)
    requires d < U32
    ensures GrinboxRun(false, DryScript(d)) == Waiting(if d + 1 == U32 then 0 else d + 1)
  {
    if d == 0 {
      DryStart();
    } else {
      DryRun(d - 1);
      DryScriptSnoc(d - 1);
      RunSnoc(false, DryScript(d));
      DryTurnFrom(d);
      hide *;
    }
  }

  lemma TwoDropsRejected()
    ensures !Accepts([Opened, Dropped, Dropped])
  {
    WalkSnoc([], Opened);
    WalkSnoc([Opened], Dropped);
    WalkSnoc([Opened, Dropped], Dropped);
    assert [] + [Opened] == [Opened] && [Opened] + [Dropped] == [Opened, Dropped];
    assert [Opened, Dropped] + [Dropped] == [Opened, Dropped, Dropped];
  }

  /** It does happen: after one session and 2^32 failed reconnects the drop is reported twice. */
  lemma SecondDropExample()
    ensures GrinboxRun(false, DryScript(U32)).trace == [Opened, Dropped, Dropped]
    ensures !Accepts(GrinboxRun(false, DryScript(U32)).trace)
  {
    hide DryScript, Walk;
    DryRun(U32 - 1);
    DryScriptSnoc(U32 - 1);
    TwoDropsRejected();
  }

  /** The turns up to now, counted from the last that completed a handshake. */
  function Attempts(script: seq<Connection>): nat {
    match Since(script) case None => |script| case Some(d) => d + 1
  }

  lemma {:induction false} CheckedRetries(script: seq<Connection>)
    requires GrinboxRun(true, script).status.Running?
    ensures GrinboxRun(true, script).retries == Attempts(script)
  {
    if script != [] {
      var n := |script| - 1;
      var st, c := GrinboxRun(true, script[..n]), script[n];
      assert GrinboxRun(true, script) == GrinboxStep(true, st, c) && st.status.Running?;
      CheckedRetries(script[..n]);
      AttemptsSnoc(script);
      RetriesAfterTurn(st, c);
      hide *;
    }
  }

  lemma AttemptsSnoc(script: seq<Connection>)
    requires script != []
    ensures Attempts(script) == if script[|script| - 1].Opens() then 1 else Attempts(script[..|script| - 1]) + 1
  {}

  lemma RetriesAfterTurn(st: GrinboxState, c: Connection)
    requires st.status.Running? && GrinboxStep(true, st, c).status.Running?
    ensures GrinboxStep(true, st, c).retries == if c.Opens() then 1 else st.retries + 1
  {}

  /** With overflow checks the loop panics exactly in a turn that comes 64 turns or more after the
      last handshake, completes none itself, and finds a sender that no stop has removed. */
  lemma CheckedGrinboxPanics(script: seq<Connection>, c: Connection)
    requires GrinboxRun(true, script).status.Running?
    ensures GrinboxRun(true, script + [c]).status.Panicked? <==>
      !c.Opens() && !c.stopped && (c.made || GrinboxRun(true, script).inner) && Attempts(script) >= 64
  {
    assert (script + [c])[..|script|] == script;
    CheckedRetries(script);
  }

  lemma {:induction false} DryTurnsRun(n: nat)
    requires n <= 64
    ensures GrinboxRun(true, DryTurns(n)) == GrinboxState(n > 0, n, false, [], Running)
  {
    if n > 0 {
      DryTurnsRun(n - 1);
      assert DryTurns(n)[..n - 1] == DryTurns(n - 1);
    }
  }

  /** It does happen: a listener that never reaches its server survives 64 turns, not 65. */
  lemma PanicExample()
    ensures GrinboxRun(true, DryTurns(64)).status.Running?
    ensures GrinboxRun(true, DryTurns(65)).status.Panicked?
  {
    DryTurnsRun(64);
    assert DryTurns(65)[..64] == DryTurns(64);
  }

  /** A stop called while the loop sleeps is forgotten if the next attempt gets as far as making a
      connection: the run then goes on as if it had not been called. The listener closes after such a
      stop if and only if the next attempt makes no connection or is stopped itself. */
  lemma StopWhileAsleepIsLost(checks: bool, script: seq<Connection>, b: Connection, c: Connection)
    ensures c.made ==> (GrinboxRun(checks, script + [b.(stoppedAsleep := true), c]) ==
      GrinboxRun(checks, script + [b.(stoppedAsleep := false), c]))
    ensures GrinboxRun(checks, script + [b.(stoppedAsleep := true)]).status.Running? ==>
      (GrinboxRun(checks, script + [b.(stoppedAsleep := true), c]).status.Returned? <==> !c.made || c.stopped)
  {
    var b1, b2 := b.(stoppedAsleep := true), b.(stoppedAsleep := false);
    RunTwo(checks, script, b1, c);
    RunTwo(checks, script, b2, c);
    var st := GrinboxRun(checks, script);
    assert (script + [b1])[..|script|] == script;
    assert GrinboxRun(checks, script + [b1]) == GrinboxStep(checks, st, b1);
    hide *;
    if c.made { SleepForgotten(checks, st, b, c); }
    StoppedAsleep(checks, st, b, c);
  }

  /** It does happen: a listener stopped while it slept is still running after the next attempt. */
  lemma SleepExample(checks: bool)
    ensures GrinboxRun(checks, [DryTurn.(stoppedAsleep := true), DryTurn]).status.Running?
  {
    var b := DryTurn.(stoppedAsleep := true);
    RunTwo(checks, [], b, DryTurn);
    assert [] + [b, DryTurn] == [b, DryTurn];
  }

  lemma StoppedAsleep(checks: bool, st: GrinboxState, b: Connection, c: Connection)
    ensures var st' := GrinboxStep(checks, st, b.(stoppedAsleep := true));
      st'.status.Running? ==> (GrinboxStep(checks, st', c).status.Returned? <==> !c.made || c.stopped)
  {}

  lemma RunTwo(checks: bool, script: seq<Connection>, b: Connection, c: Connection)
    ensures GrinboxRun(checks, script + [b, c]) ==
      GrinboxStep(checks, GrinboxStep(checks, GrinboxRun(checks, script), b), c)
  {
    hide GrinboxStep;
    var s := script + [b, c];
    assert s[..|s| - 1] == script + [b] && (script + [b])[..|script|] == script;
  }

  lemma SleepForgotten(checks: bool, st: GrinboxState, b: Connection, c: Connection)
    requires c.made
    ensures GrinboxStep(checks, GrinboxStep(checks, st, b.(stoppedAsleep := true)), c) ==
      GrinboxStep(checks, GrinboxStep(checks, st, b.(stoppedAsleep := false)), c)
  {
    var s1 := GrinboxStep(checks, st, b.(stoppedAsleep := true));
    var s2 := GrinboxStep(checks, st, b.(stoppedAsleep := false));
    assert s1 == s2 || (s1 == s2.(inner := false) && s2.status.Running?);
    hide GrinboxStep;
    if s1 != s2 { SenderReplaced(checks, s2, c); }
  }

  /** The factory puts its sender in place whatever was there before. */
  lemma SenderReplaced(checks: bool, st: GrinboxState, c: Connection)
    requires c.made && st.status.Running?
    ensures GrinboxStep(checks, st.(inner := false), c) == GrinboxStep(checks, st, c)
  {}

  // ----- the Keybase listener

  ghost predicate KeybasePhase(st: KeybaseState) {
    var p := Walk(Starting, st.trace);
    p != Rejected &&
    (st.status.Running? ==> p == if !st.subscribed then Starting else if st.dropped then Down else Up) &&
    (st.status.Running? && !st.subscribed ==> !st.dropped)
  }

  lemma KeybaseStepAccepted(st: KeybaseState, p: Poll)
    requires KeybasePhase(st)
    ensures KeybasePhase(KeybaseStep(st, p))
  {
    hide Walk, Slates, Parsed;
    if st.status.Running? {
      if p.stopped {
        WalkSnoc(st.trace, Closed(Normal));
      } else if p.unread.Some? {
        WalkUnread(st, Parsed(p.unread.value));
      } else if !st.dropped {
        WalkSnoc(st.trace, if st.subscribed then Dropped else Closed(Abnormal));
      }
    }
  }

  /** A successful poll leads from any phase to a connected one. */
  lemma WalkUnread(st: KeybaseState, n: nat)
    requires KeybasePhase(st) && st.status.Running?
    ensures Walk(Starting, st.trace + (if st.subscribed then [] else [Opened]) +
      (if st.dropped then [Reestablished] else []) + Slates(n)) == Up
  {
    var head := st.trace + (if st.subscribed then [] else [Opened]) + (if st.dropped then [Reestablished] else []);
    WalkSnoc(st.trace, Opened);
    WalkSnoc(st.trace, Reestablished);
    WalkConcat(Starting, head, Slates(n));
    WalkSlates(n);
    hide Walk, Slates;
    assert head ==
      if !st.subscribed then st.trace + [Opened] else if st.dropped then st.trace + [Reestablished] else st.trace;
  }

  /** Every trace of the Keybase listener is in the language, whether or not messages parse. */
  lemma {:induction false} KeybaseAccepted(script: seq<Poll>)
    ensures KeybasePhase(KeybaseRun(script)) && Accepts(KeybaseRun(script).trace)
  {
    if script != [] {
      KeybaseAccepted(script[..|script| - 1]);
      KeybaseStepAccepted(KeybaseRun(script[..|script| - 1]), script[|script| - 1]);
    }
  }

  /** Turn `k` is reached and fetches messages of which one does not parse. */
  ghost predicate MeetsUnparsable(script: seq<Poll>, k: nat) {
    k < |script| && KeybaseRun(script[..k]).status.Running? && !script[k].stopped && script[k].unread.Some? &&
    Parsed(script[k].unread.value) < |script[k].unread.value|
  }

  ghost predicate Unclosed(t: seq<Event>) {
    forall r :: Closed(r) !in t
  }

  lemma UnparsableTurn(st: KeybaseState, p: Poll)
    requires st.status.Running? && Unclosed(st.trace)
    ensures var st' := KeybaseStep(st, p);
      (st'.status.Running? ==> Unclosed(st'.trace)) && (st'.status.Returned? && Unclosed(st'.trace) <==>
        !p.stopped && p.unread.Some? && Parsed(p.unread.value) < |p.unread.value|)
  {}

  lemma UnparsableSnoc(script: seq<Poll>)
    requires script != []
    ensures var n := |script| - 1;
      (exists k :: MeetsUnparsable(script, k)) <==>
        (exists k :: MeetsUnparsable(script[..n], k)) || MeetsUnparsable(script, n)
  {
    var n := |script| - 1;
    hide KeybaseRun;
    forall k: nat | k < n ensures MeetsUnparsable(script[..n], k) == MeetsUnparsable(script, k) {
      assert script[..n][..k] == script[..k];
    }
  }

  /** The listener ends without a close event if and only if it meets a message that does not parse. */
  lemma {:induction false} KeybaseEndsUnclosed(script: seq<Poll>)
    ensures var st := KeybaseRun(script);
      (st.status.Returned? && Unclosed(st.trace) <==> exists k :: MeetsUnparsable(script, k)) &&
      (st.status.Running? ==> Unclosed(st.trace)) && !st.status.Panicked?
  {
    if script != [] {
      var n := |script| - 1;
      var st := KeybaseRun(script[..n]);
      KeybaseEndsUnclosed(script[..n]);
      UnparsableSnoc(script);
      assert KeybaseRun(script) == KeybaseStep(st, script[n]);
      assert MeetsUnparsable(script, n) ==> st.status.Running?;
      if st.status.Running? {
        UnparsableTurn(st, script[n]);
        hide KeybaseRun, KeybaseStep;
      }
    }
  }

  /** It does happen: one message that does not parse ends the listener with an open as its only
      event; and a listener that never reaches its server still reports itself as running. */
  lemma KeybaseEndsExamples()
    ensures KeybaseRun([Poll(false, Some([false]))]) == KeybaseState(false, true, false, [Opened], Returned)
    ensures KeybaseRun([Poll(false, None)]) == KeybaseState(false, false, true, [Closed(Abnormal)], Returned)
  {
    assert [Poll(false, Some([false]))][..0] == [] && [Poll(false, None)][..0] == [];
  }

  /** How the Keybase listener ends: with a close event as the last unless it met a message that does
      not parse; abnormally only when it never opened; and with its stop signal set only if it was stopped, so that
      otherwise it still reports itself running. */
  lemma {:induction false} KeybaseEnds(script: seq<Poll>)
    ensures var st := KeybaseRun(script);
      (st.status.Running? ==> Unclosed(st.trace) && !st.stopSignal) &&
      (st.status.Returned? ==> (Unclosed(st.trace) <==> exists k :: MeetsUnparsable(script, k))) &&
      (st.status.Returned? && !Unclosed(st.trace) ==> st.trace[|st.trace| - 1].Closed?) &&
      (Closed(Abnormal) in st.trace ==> st.trace == [Closed(Abnormal)] && !st.stopSignal) &&
      (Closed(Normal) in st.trace <==> st.stopSignal) && !st.status.Panicked?
  {
    KeybaseEndsUnclosed(script);
    if script != [] {
      var n := |script| - 1;
      KeybaseEnds(script[..n]);
      KeybaseAccepted(script[..n]);
      var st := KeybaseRun(script[..n]);
      assert KeybaseRun(script) == KeybaseStep(st, script[n]);
      if st.status.Running? && !st.subscribed {
        StartingIsEmpty(st.trace);
      }
      hide KeybaseRun, KeybaseStep, MeetsUnparsable, Walk, Unclosed;
      EndingTurn(st, script[n]);
    }
  }

  /** What one turn keeps of the way the listener ends. */
  lemma EndingTurn(st: KeybaseState, p: Poll)
    requires st.status.Running? ==> Unclosed(st.trace) && !st.stopSignal && (!st.subscribed ==> st.trace == [])
    requires st.status.Running? ==> (!st.subscribed ==> !st.dropped)
    ensures !st.status.Running? ==> KeybaseStep(st, p) == st
    ensures st.status.Running? ==> var st' := KeybaseStep(st, p);
      (st'.status.Running? ==> Unclosed(st'.trace) && !st'.stopSignal) &&
      (st'.status.Returned? && !Unclosed(st'.trace) ==> st'.trace[|st'.trace| - 1].Closed?) &&
      (Closed(Abnormal) in st'.trace ==> st'.trace == [Closed(Abnormal)] && !st'.stopSignal) &&
      (Closed(Normal) in st'.trace <==> st'.stopSignal) && !st'.status.Panicked?
  {}

  lemma StartingIsEmpty(t: seq<Event>)
    requires Walk(Starting, t) == Starting
    ensures t == []
  {}
}
