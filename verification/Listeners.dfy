/** The two listener loops, driven by a script of what the network and the user do, and the handler
    events they emit. */
module Listeners {
  import opened Common

  datatype CloseReason = Normal | Abnormal

  datatype Event = Opened | Slate | Dropped | Reestablished | Closed(reason: CloseReason)

  /** The subscription handler, as far as it matters: the calls made to it. */
  class Handler {
    var trace: seq<Event>

    constructor ()
      ensures trace == []
    {
      trace := [];
    }

    method Call(e: Event)
      modifies this
      ensures trace == old(trace) + [e]
    {
      trace := trace + [e];
    }
  }

  datatype Status = Running | Returned | Panicked

  function Slates(n: nat): seq<Event> {
    seq(n, _ => Slate)
  }

  // ----- the websocket listener

  /** One turn of the reconnect loop: whether the connection factory ran, whether the handshake
      completed and how many slates came, whether `stop` was called after the factory ran and before
      the loop tests for a sender, whether `connect` failed, and whether `stop` was called after that
      test but before the factory of the next turn ran. A stop in that last stretch finds the loop
      asleep, or awake in a `connect` that has not got as far as the factory. In a turn whose factory
      does not run, `stopped` is a stop at any time before the test. */
  datatype Connection = Connection(
    made: bool, handshake: bool, slates: nat, stopped: bool, failed: bool, stoppedAsleep: bool) {
    predicate Opens() { made && handshake }
  }

  datatype GrinboxState = GrinboxState(inner: bool, retries: u32, connected: bool, trace: seq<Event>, status: Status)

  const GrinboxStart := GrinboxState(false, 0, false, [], Running)

  /** The state when `connect` has returned. */
  function Connected(st: GrinboxState, c: Connection): GrinboxState {
    var inner := (c.made || st.inner) && !c.stopped;
    if c.Opens()
    then GrinboxState(inner, 0, true,
      st.trace + [if st.connected then Reestablished else Opened] + Slates(c.slates), st.status)
    else st.(inner := inner)
  }

  /** `checks` tells whether the build traps arithmetic overflow: 2^retries overflows 64 bits from
      64 retries on. */
  function GrinboxStep(checks: bool, st: GrinboxState, c: Connection): GrinboxState {
    if !st.status.Running? then st else
      var st1 := Connected(st, c);
      if !st1.inner then st1.(trace := st1.trace + [Closed(if c.failed then Abnormal else Normal)], status := Returned)
      else
        var st2 := if st1.retries == 0 && st1.connected then st1.(trace := st1.trace + [Dropped]) else st1;
        if checks && st2.retries >= 64 then st2.(status := Panicked)
        else st2.(retries := (st2.retries + 1) % U32, inner := !c.stoppedAsleep)
  }

  function GrinboxRun(checks: bool, script: seq<Connection>): GrinboxState {
    if script == [] then GrinboxStart
    else GrinboxStep(checks, GrinboxRun(checks, script[..|script| - 1]), script[|script| - 1])
  }

  class ConnectionMetadata {
    var retries: u32
    var connectedAtLeastOnce: bool

    constructor ()
      ensures retries == 0 && !connectedAtLeastOnce
    {
      retries, connectedAtLeastOnce := 0, false;
    }
  }

  /** `GrinboxClient::on_open`. */
  method OnOpen(meta: ConnectionMetadata, handler: Handler)
    modifies meta, handler
    ensures handler.trace == old(handler.trace) + [if old(meta.connectedAtLeastOnce) then Reestablished else Opened]
    ensures meta.connectedAtLeastOnce && meta.retries == 0
  {
    if meta.connectedAtLeastOnce {
      handler.Call(Reestablished);
    } else {
      handler.Call(Opened);
      meta.connectedAtLeastOnce := true;
    }
    meta.retries := 0;
  }

  method DeliverSlates(handler: Handler, n: nat)
    modifies handler
    ensures handler.trace == old(handler.trace) + Slates(n)
  {
    for i := 0 to n
      invariant handler.trace == old(handler.trace) + Slates(i)
    {
      handler.Call(Slate);
    }
  }

  class GrinboxBroker {
    var inner: bool // a sender is present

    constructor ()
      ensures !inner
    {
      inner := false;
    }

    /** The callbacks made while `connect` runs, and what `stop` does meanwhile. */
    method Connect(c: Connection, meta: ConnectionMetadata, handler: Handler)
      modifies this, meta, handler
      ensures inner == ((c.made || old(inner)) && !c.stopped)
      ensures c.Opens() ==> (meta.retries == 0 && meta.connectedAtLeastOnce && handler.trace ==
        old(handler.trace) + [if old(meta.connectedAtLeastOnce) then Reestablished else Opened] + Slates(c.slates))
      ensures !c.Opens() ==> unchanged(meta) && unchanged(handler)
    {
      if c.made {
        inner := true;
        if c.handshake {
          OnOpen(meta, handler);
          DeliverSlates(handler, c.slates);
        }
      }
      if c.stopped {
        inner := false;
      }
    }

    /** One turn of the loop of `subscribe` (`grinbox.rs`, lines 196 to 233). */
    method Turn(checks: bool, c: Connection, meta: ConnectionMetadata, handler: Handler, ghost st: GrinboxState)
      returns (status: Status)
      requires st.status.Running? && handler.trace == st.trace && inner == st.inner
      requires meta.retries == st.retries && meta.connectedAtLeastOnce == st.connected
      modifies this, meta, handler
      ensures var st' := GrinboxStep(checks, st, c);
        status == st'.status && handler.trace == st'.trace && inner == st'.inner &&
        (status.Running? ==> meta.retries == st'.retries && meta.connectedAtLeastOnce == st'.connected)
    {
      Connect(c, meta, handler);
      if !inner {
        handler.Call(Closed(if c.failed then Abnormal else Normal));
        return Returned;
      }
      if meta.retries == 0 && meta.connectedAtLeastOnce {
        handler.Call(Dropped);
      }
      if checks && meta.retries >= 64 {
        return Panicked; // 2^retries overflows
      }
      inner := !c.stoppedAsleep; // asleep for min(32, 2^retries) seconds
      meta.retries := (meta.retries as nat + 1) % U32;
      status := Running;
    }

    /** The loop of `subscribe`, for as long as the script lasts. */
    method Subscribe(checks: bool, script: seq<Connection>, handler: Handler) returns (status: Status)
      requires !inner && handler.trace == []
      modifies this, handler
      ensures var st := GrinboxRun(checks, script);
        status == st.status && handler.trace == st.trace && inner == st.inner
    {
      var meta := new ConnectionMetadata();
      status := Running;
      ghost var st := GrinboxStart;
      for i := 0 to |script|
        invariant fresh(meta) && st == GrinboxRun(checks, script[..i])
        invariant status == st.status && handler.trace == st.trace && inner == st.inner
        invariant status.Running? ==> meta.retries == st.retries && meta.connectedAtLeastOnce == st.connected
      {
        RunNext(checks, script, i);
        if status.Running? {
          hide GrinboxStep;
          status := Turn(checks, script[i], meta, handler, st);
        } // otherwise the loop has been left
        st := GrinboxStep(checks, st, script[i]);
      }
      assert script[..|script|] == script;
    }
  }

  lemma RunNext(checks: bool, script: seq<Connection>, i: nat)
    requires i < |script|
    ensures GrinboxRun(checks, script[..i + 1]) == GrinboxStep(checks, GrinboxRun(checks, script[..i]), script[i])
  {
    assert script[..i + 1][..i] == script[..i];
  }

  // ----- the Keybase listener

  /** One turn of the polling loop: whether `stop` was called before it, and what `get_unread`
      gives: nothing, or messages of which some may not parse as slates. */
  datatype Poll = Poll(stopped: bool, unread: Option<seq<bool>>)

  datatype KeybaseState = KeybaseState(
    stopSignal: bool, subscribed: bool, dropped: bool, trace: seq<Event>, status: Status)

  const KeybaseStart := KeybaseState(false, false, false, [], Running)

  /** How many messages come before the first that does not parse. */
  function Parsed(msgs: seq<bool>): (n: nat)
    ensures n <= |msgs| && (n < |msgs| ==> !msgs[n]) && forall i :: 0 <= i < n ==> msgs[i]
  {
    if msgs == [] || !msgs[0] then 0 else Parsed(msgs[1..]) + 1
  }

  function KeybaseStep(st: KeybaseState, p: Poll): KeybaseState {
    if !st.status.Running? then st
    else if p.stopped then st.(stopSignal := true, trace := st.trace + [Closed(Normal)], status := Returned)
    else match p.unread
      case Some(msgs) =>
        var opening := if st.subscribed then [] else [Opened];
        var reopening := if st.dropped then [Reestablished] else [];
        st.(subscribed := true, dropped := false, trace := st.trace + opening + reopening + Slates(Parsed(msgs)),
          status := if Parsed(msgs) < |msgs| then Returned else Running)
      case None =>
        if st.dropped then st
        else if st.subscribed then st.(dropped := true, trace := st.trace + [Dropped])
        else st.(dropped := true, trace := st.trace + [Closed(Abnormal)], status := Returned)
  }

  function KeybaseRun(script: seq<Poll>): KeybaseState {
    if script == [] then KeybaseStart
    else KeybaseStep(KeybaseRun(script[..|script| - 1]), script[|script| - 1])
  }

  class KeybaseSubscriber {
    var stopSignal: bool

    constructor ()
      ensures stopSignal
    {
      stopSignal := true;
    }

    method Stop() returns (r: bool)
      modifies this
      ensures stopSignal && r
    {
      stopSignal := true;
      r := true;
    }

    predicate IsRunning()
      reads this
    {
      !stopSignal
    }

    /** The message loop of one turn; false when it left the function on a message that does not parse. */
    method Receive(msgs: seq<bool>, handler: Handler) returns (parsed: bool)
      modifies handler
      ensures handler.trace == old(handler.trace) + Slates(Parsed(msgs)) && parsed == (Parsed(msgs) == |msgs|)
    {
      var i := 0;
      while i < |msgs|
        invariant i <= |msgs| && (forall k :: 0 <= k < i ==> msgs[k])
        invariant handler.trace == old(handler.trace) + Slates(i)
      {
        if !msgs[i] {
          return false;
        }
        handler.Call(Slate);
        i := i + 1;
      }
      parsed := true;
    }

    /** The loop of `start`, for as long as the script lasts. */
    method Start(script: seq<Poll>, handler: Handler) returns (status: Status)
      requires handler.trace == []
      modifies this, handler
      ensures var st := KeybaseRun(script);
        status == st.status && handler.trace == st.trace && stopSignal == st.stopSignal
      ensures IsRunning() <==> !KeybaseRun(script).stopSignal
    {
      stopSignal := false;
      status := Running;
      var subscribed, dropped := false, false;
      ghost var st := KeybaseStart;
      for i := 0 to |script|
        invariant st == KeybaseRun(script[..i])
        invariant status == st.status && handler.trace == st.trace && stopSignal == st.stopSignal
        invariant status.Running? ==> subscribed == st.subscribed && dropped == st.dropped && !stopSignal
      {
        assert script[..i + 1][..i] == script[..i];
        st := KeybaseStep(st, script[i]);
        if !status.Running? {
          continue; // the loop has been left
        }
        if script[i].stopped {
          var _ := Stop();
        }
        if stopSignal {
          handler.Call(Closed(Normal));
          status := Returned;
          continue;
        }
        match script[i].unread {
          case Some(msgs) =>
            if !subscribed {
              subscribed := true;
              handler.Call(Opened);
            }
            if dropped {
              dropped := false;
              handler.Call(Reestablished);
            }
            var parsed := Receive(msgs, handler);
            if !parsed {
              status := Returned;
            }
          case None =>
            if !dropped {
              dropped := true;
              if subscribed {
                handler.Call(Dropped);
              } else {
                handler.Call(Closed(Abnormal));
                status := Returned;
              }
            }
        }
      }
      assert script[..|script|] == script;
    }
  }
}
