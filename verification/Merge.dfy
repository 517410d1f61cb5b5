/** Assigning a wallet's outputs to its transactions (`calc_best_merge`). */
module Merge {
  import opened Common

  datatype TxType = ConfirmedCoinbase | TxReceived | TxSent | TxReceivedCancelled | TxSentCancelled

  datatype TxLogEntry = TxLogEntry(
    id: u32,
    txType: TxType,
    numOutputs: nat,
    amountCredited: u64,
    slateId: Option<string>,
    kernelExcess: Option<string>)
  {
    predicate IsCancelled() {
      txType.TxReceivedCancelled? || txType.TxSentCancelled?
    }
  }

  datatype OutputData = OutputData(value: u64, nChild: u32, commit: Option<string>, txLogEntry: Option<u32>)

  /** A transaction, the outputs assigned to it, and whether the search for them succeeded. */
  datatype Entry = Entry(tx: TxLogEntry, outputs: seq<OutputData>, found: bool)

  // ----- windows of outputs

  function Sum(outs: seq<OutputData>): nat {
    if outs == [] then 0 else Sum(outs[..|outs| - 1]) + outs[|outs| - 1].value
  }

  lemma {:induction false} SumSplit(a: seq<OutputData>, b: seq<OutputData>)
    ensures Sum(a + b) == Sum(a) + Sum(b)
  {
    if b == [] {
      assert a + b == a;
    } else {
      assert (a + b)[..|a + b| - 1] == a + b[..|b| - 1];
      SumSplit(a, b[..|b| - 1]);
    }
  }

  /** The `n` outputs from `i` on add up, in 64-bit arithmetic, to `amount`. */
  predicate Fits(outs: seq<OutputData>, i: nat, n: nat, amount: u64)
    requires i + n <= |outs|
  {
    Sum(outs[i..i + n]) % U64 == amount
  }

  ghost predicate NoFitBefore(outs: seq<OutputData>, i: nat, n: nat, amount: u64) {
    forall k :: 0 <= k < i && k + n <= |outs| ==> !Fits(outs, k, n, amount)
  }

  /** The leftmost window of `n` outputs, at `i` or later, that fits. */
  function FirstWindow(outs: seq<OutputData>, i: nat, n: nat, amount: u64): (r: Option<nat>)
    requires i <= |outs| && NoFitBefore(outs, i, n, amount)
    ensures r.Some? ==> r.value + n <= |outs| && Fits(outs, r.value, n, amount) && NoFitBefore(outs, r.value, n, amount)
    ensures r.None? ==> forall k :: 0 <= k && k + n <= |outs| ==> !Fits(outs, k, n, amount)
    decreases |outs| - i
  {
    if |outs| < i + n then None
    else if Fits(outs, i, n, amount) then Some(i)
    else if i == |outs| then None
    else FirstWindow(outs, i + 1, n, amount)
  }

  // ----- the meaning of the merge

  datatype State = State(outputs: seq<OutputData>, nextCancelled: bool, res: seq<Entry>)

  /** What is left of `outs` when the window at `i` is taken. */
  function Without(outs: seq<OutputData>, i: nat, n: nat): seq<OutputData>
    requires i + n <= |outs|
  {
    outs[..i] + outs[i + n..]
  }

  /** Whether the next cancelled transaction should still be treated as having no outputs:
      it should unless the derivation index goes on without a gap across the window taken. */
  function GapAfter(rest: seq<OutputData>, i: nat, last: OutputData): bool {
    i < |rest| ==> (rest[i].nChild - last.nChild) % U32 > 1
  }

  function CancelledFlag(st: State, tx: TxLogEntry): bool
    requires st.outputs != []
  {
    if tx.IsCancelled() && st.res == [] then tx.amountCredited != st.outputs[0].value else st.nextCancelled
  }

  /** The transaction gets as far as the search: there are outputs left, it needs some, and it is not
      a cancelled one that is taken to have none. */
  predicate Searched(st: State, tx: TxLogEntry) {
    st.outputs != [] && tx.numOutputs > 0 && !(tx.IsCancelled() && CancelledFlag(st, tx))
  }

  /** The transaction gets past all tests only to find fewer outputs left than it needs:
      no branch of the code records it. */
  predicate Dropped(st: State, tx: TxLogEntry) {
    Searched(st, tx) && tx.numOutputs > |st.outputs|
  }

  /** What the search comes to when the leftmost fitting window is `r`. */
  function Found(st: State, tx: TxLogEntry, r: Option<nat>): State
    requires 0 < tx.numOutputs && (r.Some? ==> r.value + tx.numOutputs <= |st.outputs|)
  {
    match r
    case None => st.(res := st.res + [Entry(tx, [], false)])
    case Some(i) =>
      var taken, rest := st.outputs[i..i + tx.numOutputs], Without(st.outputs, i, tx.numOutputs);
      State(rest, GapAfter(rest, i, taken[|taken| - 1]), st.res + [Entry(tx, taken, true)])
  }

  function Step(st: State, tx: TxLogEntry): State {
    if st.outputs == [] then st.(res := st.res + [Entry(tx, [], false)])
    else if tx.numOutputs == 0 then st.(res := st.res + [Entry(tx, [], true)])
    else
      var st1 := st.(nextCancelled := CancelledFlag(st, tx));
      if tx.IsCancelled() && st1.nextCancelled then st1.(res := st.res + [Entry(tx, [], true)])
      else if tx.numOutputs > |st.outputs| then st1
      else Found(st1, tx, FirstWindow(st.outputs, 0, tx.numOutputs, tx.amountCredited))
  }

  function Run(txs: seq<TxLogEntry>, st: State): State {
    if txs == [] then st else Step(Run(txs[..|txs| - 1], st), txs[|txs| - 1])
  }

  function Init(outs: seq<OutputData>): State {
    State(outs, true, [])
  }

  // ----- what the code computes, with and without overflow checks

  /** The running sum of a window: past 64 bits it panics with `checks`, and wraps without. */
  function WindowSum(checks: bool, outs: seq<OutputData>): Outcome<u64> {
    if outs == [] then Ok(0) else
      var amount :- WindowSum(checks, outs[..|outs| - 1]);
      var next := amount as nat + outs[|outs| - 1].value as nat;
      if checks && U64 <= next then Panic else Ok(next % U64)
  }

  /** The flag set after a window was taken: a falling index panics with `checks`, and wraps without. */
  function IndexGap(checks: bool, rest: seq<OutputData>, i: nat, last: OutputData): Outcome<bool> {
    if |rest| <= i then Ok(true)
    else if checks && rest[i].nChild < last.nChild then Panic
    else Ok((rest[i].nChild - last.nChild) % U32 > 1)
  }

  /** The search from window `i` on; it sums every window it passes. */
  function SearchFrom(checks: bool, st: State, tx: TxLogEntry, i: nat): Outcome<State>
    requires 0 < tx.numOutputs
    decreases |st.outputs| - i
  {
    var n := tx.numOutputs;
    if |st.outputs| < i + n then Ok(st.(res := st.res + [Entry(tx, [], false)]))
    else
      var amount :- WindowSum(checks, st.outputs[i..i + n]);
      if amount != tx.amountCredited then SearchFrom(checks, st, tx, i + 1)
      else
        var rest := Without(st.outputs, i, n);
        var gap :- IndexGap(checks, rest, i, st.outputs[i + n - 1]);
        Ok(State(rest, gap, st.res + [Entry(tx, st.outputs[i..i + n], true)]))
  }

  function StepIn(checks: bool, st: State, tx: TxLogEntry): Outcome<State> {
    if Searched(st, tx) && tx.numOutputs <= |st.outputs|
    then SearchFrom(checks, st.(nextCancelled := CancelledFlag(st, tx)), tx, 0)
    else Ok(Step(st, tx)) // no arithmetic
  }

  function RunIn(checks: bool, txs: seq<TxLogEntry>, st: State): Outcome<State> {
    if txs == [] then Ok(st) else
      var st' :- RunIn(checks, txs[..|txs| - 1], st);
      StepIn(checks, st', txs[|txs| - 1])
  }

  // ----- where a build that checks overflow stops

  /** The window of `tx.numOutputs` outputs at `i` is the leftmost with the credited amount. */
  ghost predicate LeftmostFit(outs: seq<OutputData>, i: nat, tx: TxLogEntry) {
    i + tx.numOutputs <= |outs| && Fits(outs, i, tx.numOutputs, tx.amountCredited) &&
    NoFitBefore(outs, i, tx.numOutputs, tx.amountCredited)
  }

  /** Some window sum computed for the transaction is beyond 64 bits, or the output after the window
      taken has a smaller derivation index than the window's last. */
  ghost predicate Traps(st: State, tx: TxLogEntry) {
    Searched(st, tx) && exists k :: SumTraps(st.outputs, k, tx) || IndexTraps(st.outputs, k, tx)
  }

  ghost predicate SumTraps(outs: seq<OutputData>, k: nat, tx: TxLogEntry) {
    k + tx.numOutputs <= |outs| && NoFitBefore(outs, k, tx.numOutputs, tx.amountCredited) &&
    U64 <= Sum(outs[k..k + tx.numOutputs])
  }

  ghost predicate IndexTraps(outs: seq<OutputData>, i: nat, tx: TxLogEntry) {
    LeftmostFit(outs, i, tx) && 0 < tx.numOutputs && i + tx.numOutputs < |outs| &&
    outs[i + tx.numOutputs].nChild < outs[i + tx.numOutputs - 1].nChild
  }

  /** Some transaction traps when it comes up. */
  ghost predicate RunTraps(txs: seq<TxLogEntry>, outs: seq<OutputData>) {
    exists k :: 0 <= k < |txs| && Traps(StateAt(txs, outs, k), txs[k])
  }

  /** The state before the k-th transaction. */
  function StateAt(txs: seq<TxLogEntry>, outs: seq<OutputData>, k: nat): State
    requires k <= |txs|
  {
    Run(txs[..k], Init(outs))
  }

  lemma SumNext(outs: seq<OutputData>, i: nat, k: nat)
    requires i + k < |outs|
    ensures Sum(outs[i..i + k + 1]) == Sum(outs[i..i + k]) + outs[i + k].value
  {
    assert outs[i..i + k + 1][..k] == outs[i..i + k];
  }

  lemma SumMonotone(outs: seq<OutputData>, k: nat)
    requires k <= |outs|
    ensures Sum(outs[..k]) <= Sum(outs)
  {
    assert outs == outs[..k] + outs[k..];
    SumSplit(outs[..k], outs[k..]);
  }

  lemma WrapAdd(s: nat, v: nat)
    ensures (s % U64 + v) % U64 == (s + v) % U64
  {}

  lemma WrapSmall(s: nat)
    requires s < U64
    ensures s % U64 == s
  {}

  /** A running sum that panics past 64 bits panics exactly when the whole sum is past them. */
  lemma {:induction false} WindowSumIs(checks: bool, outs: seq<OutputData>)
    ensures WindowSum(checks, outs) == if checks && U64 <= Sum(outs) then Panic else Ok(Sum(outs) % U64)
  {
    if outs != [] {
      var before, v := outs[..|outs| - 1], outs[|outs| - 1].value;
      WindowSumIs(checks, before);
      WrapAdd(Sum(before), v);
      if Sum(before) < U64 { WrapSmall(Sum(before)); }
    }
  }

  lemma WindowStep(outs: seq<OutputData>, i: nat, n: nat, amount: u64)
    requires i <= |outs| && 0 < n && NoFitBefore(outs, i, n, amount)
    ensures |outs| < i + n ==> FirstWindow(outs, i, n, amount) == None
    ensures i + n <= |outs| && Sum(outs[i..i + n]) % U64 == amount ==> FirstWindow(outs, i, n, amount) == Some(i)
    ensures i + n <= |outs| && Sum(outs[i..i + n]) % U64 != amount ==> (NoFitBefore(outs, i + 1, n, amount) &&
      FirstWindow(outs, i, n, amount) == FirstWindow(outs, i + 1, n, amount))
  {}

  /** The traps of the windows from `i` on. */
  ghost predicate TrapsFrom(outs: seq<OutputData>, tx: TxLogEntry, i: nat) {
    exists k :: i <= k && (SumTraps(outs, k, tx) || IndexTraps(outs, k, tx))
  }

  lemma TrapsHere(outs: seq<OutputData>, tx: TxLogEntry, i: nat)
    requires NoFitBefore(outs, i, tx.numOutputs, tx.amountCredited)
    ensures |outs| < i + tx.numOutputs ==> !TrapsFrom(outs, tx, i)
    ensures i + tx.numOutputs <= |outs| ==> (TrapsFrom(outs, tx, i) <==>
      U64 <= Sum(outs[i..i + tx.numOutputs]) ||
      if Fits(outs, i, tx.numOutputs, tx.amountCredited) then IndexTraps(outs, i, tx) else TrapsFrom(outs, tx, i + 1))
  {
    hide Sum;
    if i + tx.numOutputs <= |outs| {
      assert U64 <= Sum(outs[i..i + tx.numOutputs]) <==> SumTraps(outs, i, tx);
    }
  }

  lemma TakingExact(checks: bool, st: State, tx: TxLogEntry, i: nat)
    requires 0 < tx.numOutputs && LeftmostFit(st.outputs, i, tx)
    ensures IndexGap(checks, Without(st.outputs, i, tx.numOutputs), i, st.outputs[i + tx.numOutputs - 1]) ==
      if checks && IndexTraps(st.outputs, i, tx) then Panic else Ok(Found(st, tx, Some(i)).nextCancelled)
  {
    hide Fits, NoFitBefore, Sum;
  }

  /** One turn of the search. */
  lemma SearchTurn(checks: bool, st: State, tx: TxLogEntry, i: nat)
    requires 0 < tx.numOutputs
    ensures |st.outputs| < i + tx.numOutputs ==>
      SearchFrom(checks, st, tx, i) == Ok(State(st.outputs, st.nextCancelled, st.res + [Entry(tx, [], false)]))
    ensures i + tx.numOutputs <= |st.outputs| ==>
      var sum := Sum(st.outputs[i..i + tx.numOutputs]);
      if checks && U64 <= sum then SearchFrom(checks, st, tx, i) == Panic
      else if sum % U64 == tx.amountCredited then
        WindowSum(checks, st.outputs[i..i + tx.numOutputs]) == Ok(tx.amountCredited)
      else SearchFrom(checks, st, tx, i) == SearchFrom(checks, st, tx, i + 1)
  {
    if i + tx.numOutputs <= |st.outputs| {
      WindowSumIs(checks, st.outputs[i..i + tx.numOutputs]);
    }
    hide Sum, WindowSum;
  }

  lemma TakingTurn(checks: bool, st: State, tx: TxLogEntry, i: nat)
    requires 0 < tx.numOutputs && LeftmostFit(st.outputs, i, tx)
    requires checks ==> Sum(st.outputs[i..i + tx.numOutputs]) < U64
    ensures SearchFrom(checks, st, tx, i) ==
      if checks && IndexTraps(st.outputs, i, tx) then Panic else Ok(Found(st, tx, Some(i)))
  {
    WindowSumIs(checks, st.outputs[i..i + tx.numOutputs]);
    TakingExact(checks, st, tx, i);
    hide IndexGap, WindowSum, Sum, NoFitBefore, IndexTraps, GapAfter;
  }

  lemma {:induction false} SearchExact(checks: bool, st: State, tx: TxLogEntry, i: nat)
    requires 0 < tx.numOutputs && i <= |st.outputs| && NoFitBefore(st.outputs, i, tx.numOutputs, tx.amountCredited)
    ensures SearchFrom(checks, st, tx, i) == if checks && TrapsFrom(st.outputs, tx, i) then Panic
      else Ok(Found(st, tx, FirstWindow(st.outputs, i, tx.numOutputs, tx.amountCredited)))
    decreases |st.outputs| - i
  {
    hide SearchFrom, TrapsFrom, FirstWindow, NoFitBefore, Sum, IndexTraps, WindowSum, GapAfter, Without;
    var n := tx.numOutputs;
    WindowStep(st.outputs, i, n, tx.amountCredited);
    TrapsHere(st.outputs, tx, i);
    SearchTurn(checks, st, tx, i);
    if i + n <= |st.outputs| && !(checks && U64 <= Sum(st.outputs[i..i + n])) {
      if Fits(st.outputs, i, n, tx.amountCredited) {
        TakingTurn(checks, st, tx, i);
      } else {
        SearchExact(checks, st, tx, i + 1);
      }
    }
  }

  /** One transaction in a build with overflow checks panics exactly when it traps, and otherwise
      has the effect it has without them. */
  lemma StepInExact(checks: bool, st: State, tx: TxLogEntry)
    ensures StepIn(checks, st, tx) == if checks && Traps(st, tx) then Panic else Ok(Step(st, tx))
  {
    if Searched(st, tx) && tx.numOutputs <= |st.outputs| {
      SearchExact(checks, st.(nextCancelled := CancelledFlag(st, tx)), tx, 0);
    }
  }

  lemma RunTrapsSnoc(txs: seq<TxLogEntry>, outs: seq<OutputData>)
    requires txs != []
    ensures var n := |txs| - 1;
      RunTraps(txs, outs) <==> RunTraps(txs[..n], outs) || Traps(Run(txs[..n], Init(outs)), txs[n])
  {
    var n := |txs| - 1;
    hide Traps, Run;
    forall k | 0 <= k <= n ensures txs[..n][..k] == txs[..k] {}
    assert StateAt(txs, outs, n) == Run(txs[..n], Init(outs));
  }

  /** A whole run in a build with overflow checks panics exactly when some transaction traps, and
      otherwise ends as it does without them. */
  lemma {:induction false} RunInExact(checks: bool, txs: seq<TxLogEntry>, outs: seq<OutputData>)
    ensures RunIn(checks, txs, Init(outs)) == if checks && RunTraps(txs, outs) then Panic else Ok(Run(txs, Init(outs)))
  {
    if txs != [] {
      var n := |txs| - 1;
      RunInExact(checks, txs[..n], outs);
      RunTrapsSnoc(txs, outs);
      StepInExact(checks, Run(txs[..n], Init(outs)), txs[n]);
      hide RunTraps, Traps, StepIn, Step;
    }
  }

  // ----- the loop over two deques

  /** A double-ended queue, consumed in place. */
  class VecDeque<T> {
    var items: seq<T>

    constructor (items: seq<T>)
      ensures this.items == items
    {
      this.items := items;
    }

    method PopFront() returns (x: T)
      requires items != []
      modifies this
      ensures [x] + items == old(items)
    {
      x := items[0];
      items := items[1..];
    }

    method Remove(i: nat) returns (x: T)
      requires i < |items|
      modifies this
      ensures x == old(items)[i] && items == old(items)[..i] + old(items)[i + 1..]
    {
      x := items[i];
      items := items[..i] + items[i + 1..];
    }
  }

  method SumWindow(checks: bool, outs: seq<OutputData>, i: nat, n: nat) returns (r: Outcome<u64>)
    requires i + n <= |outs|
    ensures r == if checks && U64 <= Sum(outs[i..i + n]) then Panic else Ok(Sum(outs[i..i + n]) % U64)
  {
    var amount: u64 := 0;
    assert Sum(outs[i..i]) == 0;
    hide Sum;
    for k := 0 to n
      invariant amount == Sum(outs[i..i + k]) % U64 && (checks ==> Sum(outs[i..i + k]) < U64)
    {
      SumNext(outs, i, k);
      WrapAdd(Sum(outs[i..i + k]), outs[k + i].value);
      var next := amount as nat + outs[k + i].value as nat;
      if checks && U64 <= next {
        WindowPrefix(outs, i, k + 1, n);
        return Panic;
      }
      amount := next % U64;
    }
    r := Ok(amount);
  }

  lemma WindowPrefix(outs: seq<OutputData>, i: nat, k: nat, n: nat)
    requires k <= n && i + n <= |outs|
    ensures Sum(outs[i..i + k]) <= Sum(outs[i..i + n])
  {
    assert outs[i..i + n][..k] == outs[i..i + k];
    SumMonotone(outs[i..i + n], k);
  }

  method TakeWindow(outputs: VecDeque<OutputData>, i: nat, n: nat) returns (taken: seq<OutputData>)
    requires i + n <= |outputs.items|
    modifies outputs
    ensures taken == old(outputs.items)[i..i + n]
    ensures outputs.items == Without(old(outputs.items), i, n)
  {
    ghost var was := outputs.items;
    taken := [];
    for k := 0 to n
      invariant taken == was[i..i + k] && outputs.items == Without(was, i, k)
    {
      var o := outputs.Remove(i);
      taken := taken + [o];
    }
  }

  /** What a search of the deque comes to: the entry and the cancelled flag, or a panic. */
  function AfterSearch(r: Outcome<(Entry, bool)>, outs: seq<OutputData>, res: seq<Entry>): Outcome<State> {
    var found :- r;
    Ok(State(outs, found.1, res + [found.0]))
  }

  /** `api.rs`, lines 427 to 442: take the window that was found. */
  method TakeFound(checks: bool, outputs: VecDeque<OutputData>, tx: TxLogEntry, i: nat, ghost st: State)
    returns (r: Outcome<(Entry, bool)>)
    requires outputs.items == st.outputs && 0 < tx.numOutputs && i + tx.numOutputs <= |st.outputs|
    requires WindowSum(checks, st.outputs[i..i + tx.numOutputs]) == Ok(tx.amountCredited)
    modifies outputs
    ensures AfterSearch(r, outputs.items, st.res) == SearchFrom(checks, st, tx, i)
  {
    hide WindowSum;
    var taken := TakeWindow(outputs, i, tx.numOutputs);
    var nextCancelled := true;
    if i < |outputs.items| {
      if checks && outputs.items[i].nChild < taken[tx.numOutputs - 1].nChild {
        return Panic;
      }
      nextCancelled := (outputs.items[i].nChild - taken[tx.numOutputs - 1].nChild) % U32 > 1;
    }
    r := Ok((Entry(tx, taken, true), nextCancelled));
  }

  /** What a search from the first window on means for the transaction. */
  lemma SearchMeans(checks: bool, st: State, tx: TxLogEntry, r: Outcome<(Entry, bool)>, outs: seq<OutputData>)
    requires Searched(st, tx) && tx.numOutputs <= |st.outputs|
    requires AfterSearch(r, outs, st.res) == SearchFrom(checks, st.(nextCancelled := CancelledFlag(st, tx)), tx, 0)
    ensures r == Panic <==> checks && Traps(st, tx)
    ensures r != Panic ==> r.Ok? && State(outs, r.value.1, st.res + [r.value.0]) == Step(st, tx)
  {
    StepInExact(checks, st, tx);
    hide Traps, Step, SearchFrom, CancelledFlag, Searched;
  }

  /** `api.rs`, lines 419 to 447: find the leftmost fitting window and take it. With `checks` it may
      panic instead. */
  method Assign(checks: bool, outputs: VecDeque<OutputData>, tx: TxLogEntry, nextCancelled: bool, ghost st: State)
    returns (r: Outcome<(Entry, bool)>)
    requires outputs.items == st.outputs && 0 < tx.numOutputs <= |outputs.items|
    requires nextCancelled == CancelledFlag(st, tx) && !(tx.IsCancelled() && nextCancelled)
    modifies outputs
    ensures r == Panic <==> checks && Traps(st, tx)
    ensures r != Panic ==> r.Ok? && State(outputs.items, r.value.1, st.res + [r.value.0]) == Step(st, tx)
  {
    ghost var st1 := st.(nextCancelled := CancelledFlag(st, tx));
    assert Searched(st, tx);
    hide Step, Traps, StepIn, SearchFrom, CancelledFlag, Searched;
    r := Search(checks, outputs, tx, nextCancelled, st1);
    SearchMeans(checks, st, tx, r, outputs.items);
  }

  /** The loop over the windows. */
  method Search(checks: bool, outputs: VecDeque<OutputData>, tx: TxLogEntry, nextCancelled: bool, ghost st: State)
    returns (r: Outcome<(Entry, bool)>)
    requires outputs.items == st.outputs && 0 < tx.numOutputs <= |outputs.items| && nextCancelled == st.nextCancelled
    modifies outputs
    ensures AfterSearch(r, outputs.items, st.res) == SearchFrom(checks, st, tx, 0)
  {
    hide SearchFrom, WindowSum, Sum;
    var n := tx.numOutputs;
    var i := 0;
    while i < |outputs.items| - (n - 1)
      invariant i <= |st.outputs| - (n - 1) && outputs.items == st.outputs
      invariant SearchFrom(checks, st, tx, 0) == SearchFrom(checks, st, tx, i)
    {
      SearchTurn(checks, st, tx, i);
      var amount :- SumWindow(checks, outputs.items, i, n);
      if amount == tx.amountCredited {
        r := TakeFound(checks, outputs, tx, i, st);
        return;
      }
      i := i + 1;
    }
    SearchTurn(checks, st, tx, i);
    r := Ok((Entry(tx, [], false), nextCancelled));
  }

  lemma RunTrapsLonger(txs: seq<TxLogEntry>, outs: seq<OutputData>, k: nat)
    requires k < |txs| && Traps(Run(txs[..k], Init(outs)), txs[k])
    ensures RunTraps(txs, outs)
  {
    assert Traps(StateAt(txs, outs, k), txs[k]);
    hide Traps;
  }

  lemma RunNext(txs: seq<TxLogEntry>, outs: seq<OutputData>, k: nat)
    requires k < |txs|
    ensures Run(txs[..k + 1], Init(outs)) == Step(Run(txs[..k], Init(outs)), txs[k])
    ensures RunTraps(txs[..k + 1], outs) <==> RunTraps(txs[..k], outs) || Traps(Run(txs[..k], Init(outs)), txs[k])
  {
    hide Step, RunTraps, Traps;
    assert txs[..k + 1][..k] == txs[..k];
    RunTrapsSnoc(txs[..k + 1], outs);
  }

  /** The branches that search for nothing. */
  lemma Unsearched(st: State, tx: TxLogEntry)
    ensures st.outputs == [] ==> Step(st, tx) == State([], st.nextCancelled, st.res + [Entry(tx, [], false)])
    ensures st.outputs != [] && tx.numOutputs == 0 ==>
      Step(st, tx) == State(st.outputs, st.nextCancelled, st.res + [Entry(tx, [], true)])
    ensures st.outputs != [] && tx.numOutputs > 0 && tx.IsCancelled() && CancelledFlag(st, tx) ==>
      Step(st, tx) == State(st.outputs, true, st.res + [Entry(tx, [], true)])
    ensures Dropped(st, tx) ==> Step(st, tx) == State(st.outputs, CancelledFlag(st, tx), st.res)
    ensures !Searched(st, tx) || Dropped(st, tx) ==> !Traps(st, tx)
  {
    hide FirstWindow, Found, NoFitBefore, Sum, Fits;
  }

  /** `api.rs`, lines 391 to 449: one transaction; its entry, if any, is added to the result. */
  method MergeNext(checks: bool, outputs: VecDeque<OutputData>, tx: TxLogEntry, res: seq<Entry>, flag: bool,
      ghost st: State)
    returns (r: Outcome<(seq<Entry>, bool)>)
    requires st == State(outputs.items, flag, res)
    modifies outputs
    ensures r == Panic <==> checks && Traps(st, tx)
    ensures r != Panic ==> r.Ok? && State(outputs.items, r.value.1, r.value.0) == Step(st, tx)
  {
    Unsearched(st, tx);
    hide Traps, Step;
    var nextCancelled := flag;
    if outputs.items == [] {
      return Ok((res + [Entry(tx, [], false)], nextCancelled));
    }
    if tx.numOutputs == 0 {
      return Ok((res + [Entry(tx, [], true)], nextCancelled));
    }
    if tx.IsCancelled() {
      if res == [] {
        nextCancelled := tx.amountCredited != outputs.items[0].value;
      }
      if nextCancelled {
        return Ok((res + [Entry(tx, [], true)], nextCancelled));
      }
    }
    if tx.numOutputs <= |outputs.items| {
      var entry :- Assign(checks, outputs, tx, nextCancelled, st);
      return Ok((res + [entry.0], entry.1));
    }
    r := Ok((res, nextCancelled));
  }

  lemma FrontOf<T>(all: seq<T>, done: nat, x: T, rest: seq<T>)
    requires done <= |all| && [x] + rest == all[done..]
    ensures done < |all| && x == all[done] && rest == all[done + 1..]
  {
    assert |[x] + rest| > 0;
    assert ([x] + rest)[0] == x && ([x] + rest)[1..] == rest;
  }

  /** The loop of `calc_best_merge`: the result and the outstanding outputs, or a panic. */
  method CalcBestMerge(checks: bool, outputs: VecDeque<OutputData>, transactions: VecDeque<TxLogEntry>)
    returns (r: Outcome<(seq<Entry>, seq<OutputData>)>)
    modifies outputs, transactions
    ensures r == Panic <==> checks && RunTraps(old(transactions.items), old(outputs.items))
    ensures r != Panic ==>
      var st := Run(old(transactions.items), Init(old(outputs.items)));
      r == Ok((st.res, st.outputs)) && transactions.items == [] && outputs.items == st.outputs
  {
    var res: seq<Entry> := [];
    var nextCancelled := true;
    ghost var txs, outs := transactions.items, outputs.items;
    ghost var done := 0;
    assert Run(txs[..0], Init(outs)) == State(outs, true, []) && !RunTraps(txs[..0], outs);
    hide *;
    while transactions.items != []
      invariant done <= |txs| && transactions.items == txs[done..]
      invariant Run(txs[..done], Init(outs)) == State(outputs.items, nextCancelled, res)
      invariant checks ==> !RunTraps(txs[..done], outs)
      decreases |transactions.items|
    {
      ghost var st := State(outputs.items, nextCancelled, res);
      var tx := transactions.PopFront();
      FrontOf(txs, done, tx, transactions.items);
      RunNext(txs, outs, done);
      var next := MergeNext(checks, outputs, tx, res, nextCancelled, st);
      if next == Panic {
        RunTrapsLonger(txs, outs, done);
        return Panic;
      }
      res, nextCancelled := next.value.0, next.value.1;
      done := done + 1;
    }
    assert txs[..done] == txs;
    r := Ok((res, outputs.items));
  }
}
