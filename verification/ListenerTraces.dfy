/** The traces and the ends of both listeners in closed form: what each turn emits and which turn is
    the last, from the script alone. */
module ListenerTraces {
  import opened Common
  import opened Listeners
  import opened ListenerLaws

  // ----- the websocket listener

  /** Turn `k` finds no sender: it was stopped, or it made no connection and the sender of the turn
      before, if any, was removed while the loop slept. */
  predicate Closes(script: seq<Connection>, k: nat)
    requires k < |script|
  {
    script[k].stopped || (!script[k].made && (k == 0 || script[k - 1].stoppedAsleep))
  }

  /** Turn `k` overflows the back-off of a build that checks. */
  predicate Overflows(script: seq<Connection>, k: nat)
    requires k < |script|
  {
    !Closes(script, k) && !script[k].Opens() && 64 <= Attempts(script[..k])
  }

  /** No turn before `k` ended the loop. */
  ghost predicate Reached(checks: bool, script: seq<Connection>, k: nat)
    requires k <= |script|
  {
    forall m :: 0 <= m < k ==> !Closes(script, m) && !(checks && Overflows(script, m))
  }

  /** What turn `k` emits: an opening and the slates of a session, then a close if the loop ends, or a
      drop when the last handshake is a multiple of 2^32 turns back. */
  function Emitted(script: seq<Connection>, k: nat): seq<Event>
    requires k < |script|
  {
    (if script[k].made && script[k].handshake
     then [if Since(script[..k]).Some? then Reestablished else Opened] + seq(script[k].slates, _ => Slate) else []) +
    (if Closes(script, k) then [Closed(if script[k].failed then Abnormal else Normal)]
     else match Since(script[..k + 1])
       case None => []
       case Some(d) => if d % U32 == 0 then [Dropped] else [])
  }

  /** What the first `k` turns emit, as far as they are reached. */
  ghost function EmittedUpTo(checks: bool, script: seq<Connection>, k: nat): seq<Event>
    requires k <= |script|
  {
    if k == 0 then [] else
      EmittedUpTo(checks, script, k - 1) + if Reached(checks, script, k - 1) then Emitted(script, k - 1) else []
  }

  /** What a running listener remembers. */
  ghost predicate Remembers(st: GrinboxState, script: seq<Connection>, k: nat)
    requires k <= |script|
  {
    st.status.Running? && st.inner == (0 < k && !script[k - 1].stoppedAsleep) &&
    match Since(script[..k])
    case None => !st.connected && st.retries == k % U32
    case Some(d) => st.connected && st.retries == (d + 1) % U32
  }

  lemma SinceSnoc(script: seq<Connection>, k: nat)
    requires k < |script|
    ensures Since(script[..k + 1]) == if script[k].Opens() then Some(0) else
      match Since(script[..k]) case None => None case Some(d) => Some(d + 1)
  {
    assert script[..k + 1][..k] == script[..k];
  }

  /** What the turn does to the sender and the counter decides how it ends. */
  lemma TurnEnds(checks: bool, st: GrinboxState, script: seq<Connection>, k: nat)
    requires k < |script| && Remembers(st, script, k) && (checks ==> st.retries == Attempts(script[..k]))
    ensures var st' := GrinboxStep(checks, st, script[k]);
      (st'.status.Returned? <==> Closes(script, k)) && (st'.status.Panicked? <==> checks && Overflows(script, k))
  {
    hide Since, Slates, Attempts;
  }

  lemma TurnKeeps(checks: bool, st: GrinboxState, script: seq<Connection>, k: nat)
    requires k < |script| && Remembers(st, script, k)
    ensures var st' := GrinboxStep(checks, st, script[k]);
      st'.status.Running? ==> Remembers(st', script, k + 1)
  {
    SinceSnoc(script, k);
    hide Since, Slates;
  }

  lemma TurnEmits(checks: bool, st: GrinboxState, script: seq<Connection>, k: nat)
    requires k < |script| && Remembers(st, script, k)
    ensures GrinboxStep(checks, st, script[k]).trace == st.trace + Emitted(script, k)
  {
    SinceSnoc(script, k);
    var c := script[k];
    hide Since;
    assert Closes(script, k) <==> !Connected(st, c).inner;
    assert Slates(c.slates) == seq(c.slates, _ => Slate);
  }

  /** Some turn that was reached before `k` closed the loop. */
  ghost predicate HasClosed(checks: bool, script: seq<Connection>, k: nat)
    requires k <= |script|
  {
    exists m :: 0 <= m < k && Reached(checks, script, m) && Closes(script, m)
  }

  /** Some turn that was reached before `k` overflowed the back-off of a build that checks. */
  ghost predicate HasPanicked(checks: bool, script: seq<Connection>, k: nat)
    requires k <= |script|
  {
    checks && exists m :: 0 <= m < k && Reached(checks, script, m) && Overflows(script, m)
  }

  lemma OneTurnMore(checks: bool, script: seq<Connection>, k: nat)
    requires k < |script|
    ensures HasClosed(checks, script, k + 1) <==>
      HasClosed(checks, script, k) || (Reached(checks, script, k) && Closes(script, k))
    ensures HasPanicked(checks, script, k + 1) <==>
      HasPanicked(checks, script, k) || (checks && Reached(checks, script, k) && Overflows(script, k))
    ensures Reached(checks, script, k + 1) <==>
      Reached(checks, script, k) && !Closes(script, k) && !(checks && Overflows(script, k))
  {
    hide Closes, Overflows;
  }

  lemma EmittedNext(checks: bool, script: seq<Connection>, k: nat)
    requires k < |script|
    ensures EmittedUpTo(checks, script, k + 1) ==
      EmittedUpTo(checks, script, k) + if Reached(checks, script, k) then Emitted(script, k) else []
  {
    hide Reached, Emitted;
  }

  /** After `k` turns: the trace, and whether and how the loop has ended. */
  ghost predicate Ended(checks: bool, script: seq<Connection>, st: GrinboxState, k: nat)
    requires k <= |script|
  {
    st.trace == EmittedUpTo(checks, script, k) &&
    (st.status.Running? <==> Reached(checks, script, k)) && (st.status.Running? ==> Remembers(st, script, k)) &&
    (st.status.Returned? <==> HasClosed(checks, script, k)) && (st.status.Panicked? <==> HasPanicked(checks, script, k))
  }

  lemma EndedNext(checks: bool, script: seq<Connection>, st: GrinboxState, k: nat)
    requires k < |script| && st == GrinboxRun(checks, script[..k]) && Ended(checks, script, st, k)
    ensures Ended(checks, script, GrinboxStep(checks, st, script[k]), k + 1)
  {
    hide GrinboxStep, GrinboxRun, Remembers, Emitted, Closes, Overflows, Reached, HasClosed, HasPanicked, EmittedUpTo;
    OneTurnMore(checks, script, k);
    EmittedNext(checks, script, k);
    if st.status.Running? {
      if checks { CheckedRetries(script[..k]); }
      TurnEnds(checks, st, script, k);
      TurnKeeps(checks, st, script, k);
      TurnEmits(checks, st, script, k);
    } else {
      StaysEnded(checks, st, script[k]);
      assert st.trace + [] == st.trace;
    }
  }

  lemma StaysEnded(checks: bool, st: GrinboxState, c: Connection)
    requires !st.status.Running?
    ensures GrinboxStep(checks, st, c) == st
  {}

  lemma {:induction false} EndedAt(checks: bool, script: seq<Connection>, k: nat)
    requires k <= |script|
    ensures Ended(checks, script, GrinboxRun(checks, script[..k]), k)
  {
    if k == 0 {
      assert script[..0] == [];
    } else {
      hide *;
      EndedAt(checks, script, k - 1);
      EndedNext(checks, script, GrinboxRun(checks, script[..k - 1]), k - 1);
      RunNext(checks, script, k - 1);
    }
  }

  /** The websocket listener in closed form. It emits what the turns it reaches emit; it runs until the
      first that finds no sender or, with overflow checks, overflows its back-off; and it returns or
      panics accordingly. */
  lemma GrinboxExact(checks: bool, script: seq<Connection>)
    ensures var st := GrinboxRun(checks, script);
      st.trace == EmittedUpTo(checks, script, |script|) &&
      (st.status.Running? <==> Reached(checks, script, |script|)) &&
      (st.status.Returned? <==> HasClosed(checks, script, |script|)) &&
      (st.status.Panicked? <==> HasPanicked(checks, script, |script|))
  {
    EndedAt(checks, script, |script|);
    assert script[..|script|] == script;
    hide GrinboxRun, EmittedUpTo, Reached, HasClosed, HasPanicked;
  }

  // ----- the Keybase listener

  /** Poll `k` ends the loop: it is stopped, it is the first and fails, or a message does not parse. */
  predicate PollEnds(script: seq<Poll>, k: nat)
    requires k < |script|
  {
    script[k].stopped || (k == 0 && script[k].unread.None?) ||
    (script[k].unread.Some? && false in script[k].unread.value)
  }

  /** No poll before `k` ended the loop. */
  ghost predicate PollReached(script: seq<Poll>, k: nat)
    requires k <= |script|
  {
    forall m :: 0 <= m < k ==> !PollEnds(script, m)
  }

  /** What a poll that is reached emits: the messages before the first that does not parse, after an
      opening for the first poll or a re-establishment for one after a failure; a drop for a failure
      after a success. */
  function PollEmits(script: seq<Poll>, k: nat): seq<Event>
    requires k < |script|
  {
    if script[k].stopped then [Closed(Normal)] else
      match script[k].unread
      case Some(msgs) =>
        (if k == 0 then [Opened] else if script[k - 1].unread.None? then [Reestablished] else []) +
        seq(Parsed(msgs), _ => Slate)
      case None =>
        if k == 0 then [Closed(Abnormal)] else if script[k - 1].unread.Some? then [Dropped] else []
  }

  ghost function PollsEmit(script: seq<Poll>, k: nat): seq<Event>
    requires k <= |script|
  {
    if k == 0 then [] else
      PollsEmit(script, k - 1) + if PollReached(script, k - 1) then PollEmits(script, k - 1) else []
  }

  lemma ParsedAll(msgs: seq<bool>)
    ensures Parsed(msgs) == |msgs| <==> false !in msgs
  {
    hide Parsed;
  }

  ghost predicate KeybaseRemembers(st: KeybaseState, script: seq<Poll>, k: nat)
    requires k <= |script|
  {
    st.status.Running? && !st.stopSignal && st.subscribed == (0 < k) &&
    st.dropped == (0 < k && script[k - 1].unread.None?)
  }

  lemma PollTurn(st: KeybaseState, script: seq<Poll>, k: nat)
    requires k < |script| && KeybaseRemembers(st, script, k)
    ensures var st' := KeybaseStep(st, script[k]);
      st'.trace == st.trace + PollEmits(script, k) && !st'.status.Panicked? &&
      st'.stopSignal == script[k].stopped &&
      (st'.status.Running? <==> !PollEnds(script, k)) && (st'.status.Running? ==> KeybaseRemembers(st', script, k + 1))
  {
    if script[k].unread.Some? { ParsedAll(script[k].unread.value); }
    hide Parsed;
  }

  ghost predicate PollsEnded(script: seq<Poll>, k: nat)
    requires k <= |script|
  {
    var st := KeybaseRun(script[..k]);
    st.trace == PollsEmit(script, k) && !st.status.Panicked? &&
    (st.status.Running? <==> PollReached(script, k)) && (st.status.Running? ==> KeybaseRemembers(st, script, k)) &&
    (st.stopSignal <==> exists m :: 0 <= m < k && PollReached(script, m) && script[m].stopped)
  }

  lemma PollsNext(script: seq<Poll>, k: nat)
    requires k < |script| && PollsEnded(script, k)
    ensures PollsEnded(script, k + 1)
  {
    var st := KeybaseRun(script[..k]);
    assert script[..k + 1][..k] == script[..k];
    assert KeybaseRun(script[..k + 1]) == KeybaseStep(st, script[k]);
    if st.status.Running? {
      PollTurn(st, script, k);
    } else {
      assert KeybaseStep(st, script[k]) == st && st.trace + [] == st.trace;
    }
    hide KeybaseStep, KeybaseRun, PollEmits, PollEnds;
  }

  lemma {:induction false} PollsEndedAt(script: seq<Poll>, k: nat)
    requires k <= |script|
    ensures PollsEnded(script, k)
  {
    if k == 0 {
      assert script[..0] == [];
    } else {
      hide *;
      PollsEndedAt(script, k - 1);
      PollsNext(script, k - 1);
    }
  }

  /** The Keybase listener in closed form. It emits what the polls it reaches emit, runs until the first
      that ends it, and has its stop signal set exactly if one of those was stopped. */
  lemma KeybaseExact(script: seq<Poll>)
    ensures var st := KeybaseRun(script);
      st.trace == PollsEmit(script, |script|) && !st.status.Panicked? &&
      (st.status.Running? <==> PollReached(script, |script|)) &&
      (st.stopSignal <==> exists m :: 0 <= m < |script| && PollReached(script, m) && script[m].stopped)
  {
    PollsEndedAt(script, |script|);
    assert script[..|script|] == script;
  }
}
