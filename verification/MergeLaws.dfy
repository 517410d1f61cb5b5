/** What every run of the merge guarantees: nothing is lost or doubled, order is kept, every
    assignment is a leftmost fitting window, and which transactions go unrecorded. */
module MergeLaws {
  import opened Common
  import opened Merge
  import opened Sequences

  function Assigned(res: seq<Entry>): seq<OutputData> {
    if res == [] then [] else Assigned(res[..|res| - 1]) + res[|res| - 1].outputs
  }

  /** The credited amounts of the transactions that got outputs. */
  function Credited(res: seq<Entry>): nat {
    if res == [] then 0 else
      var e := res[|res| - 1];
      Credited(res[..|res| - 1]) + if e.outputs == [] then 0 else e.tx.amountCredited
  }

  function Transactions(res: seq<Entry>): seq<TxLogEntry> {
    seq(|res|, i requires 0 <= i < |res| => res[i].tx)
  }

  lemma WithoutIsSubsequence(outs: seq<OutputData>, i: nat, n: nat)
    requires i + n <= |outs|
    ensures Subsequence(Without(outs, i, n), outs)
  {
    DropIsSubsequence(outs[i..], n);
    assert outs[i..][n..] == outs[i + n..] && outs == outs[..i] + outs[i..];
    SubsequencePrefix(outs[..i], outs[i + n..], outs[i..]);
  }

  // ----- one transaction

  ghost predicate NoFit(outs: seq<OutputData>, tx: TxLogEntry) {
    forall k :: 0 <= k && k + tx.numOutputs <= |outs| ==> !Fits(outs, k, tx.numOutputs, tx.amountCredited)
  }

  /** `e` is the right entry for `tx` in state `st`: with outputs exactly when it was searched for and
      a window fits, failed exactly when no output was left or the search found none. */
  ghost predicate Explained(e: Entry, st: State, tx: TxLogEntry) {
    e.tx == tx &&
    (e.outputs != [] <==> Searched(st, tx) && !NoFit(st.outputs, tx)) &&
    (!e.found <==> st.outputs == [] || (Searched(st, tx) && NoFit(st.outputs, tx)))
  }

  /** What a transaction does to the result: nothing if it is dropped, else one entry for it. A
      non-empty entry is the leftmost fitting window, and it alone leaves the deque. */
  lemma StepShape(st: State, tx: TxLogEntry) returns (added: seq<Entry>, i: nat)
    ensures var st' := Step(st, tx);
      st'.res == st.res + added && |added| == (if Dropped(st, tx) then 0 else 1)
    ensures added == [] || added[0].outputs == [] ==> Step(st, tx).outputs == st.outputs
    ensures added != [] ==> Explained(added[0], st, tx)
    ensures added != [] && added[0].outputs != [] ==>
      LeftmostFit(st.outputs, i, tx) && added[0].found && added[0].outputs == st.outputs[i..i + tx.numOutputs] &&
      Step(st, tx).outputs == Without(st.outputs, i, tx.numOutputs)
  {
    hide FirstWindow, Fits, Sum, GapAfter, Without;
    var r := if tx.numOutputs <= |st.outputs| then
      FirstWindow(st.outputs, 0, tx.numOutputs, tx.amountCredited) else None;
    i := if r.Some? then r.value else 0;
    added := Step(st, tx).res[|st.res|..];
  }

  lemma AssignedAppend(res: seq<Entry>, added: seq<Entry>)
    requires |added| <= 1
    ensures Assigned(res + added) == Assigned(res) + if added == [] then [] else added[0].outputs
    ensures Credited(res + added) == Credited(res) +
      if added == [] || added[0].outputs == [] then 0 else added[0].tx.amountCredited
  {
    if added == [] {
      assert res + added == res;
    } else {
      assert (res + added)[..|res|] == res;
    }
  }

  /** All outputs a state accounts for: the assigned and the remaining ones. */
  function Held(st: State): multiset<OutputData> {
    multiset(Assigned(st.res)) + multiset(st.outputs)
  }

  lemma Pieces<T>(a: seq<T>, b: seq<T>, c: seq<T>)
    ensures multiset(a + b + c) == multiset(b) + multiset(a + c)
  {}

  lemma HeldAcrossWindow(st: State, i: nat, n: nat, st': State)
    requires i + n <= |st.outputs| && st'.outputs == Without(st.outputs, i, n)
    requires Assigned(st'.res) == Assigned(st.res) + st.outputs[i..i + n]
    ensures Held(st') == Held(st)
  {
    hide Assigned;
    var a, b, c := st.outputs[..i], st.outputs[i..i + n], st.outputs[i + n..];
    assert st.outputs == a + b + c;
    Pieces(a, b, c);
    assert multiset(Assigned(st.res) + b) == multiset(Assigned(st.res)) + multiset(b);
  }

  lemma StepConserves(st: State, tx: TxLogEntry)
    ensures Held(Step(st, tx)) == Held(st)
  {
    var added, i := StepShape(st, tx);
    AssignedAppend(st.res, added);
    if added == [] || added[0].outputs == [] {
      assert Assigned(Step(st, tx).res) == Assigned(st.res);
    } else {
      hide *;
      LeftmostFitBound(st.outputs, i, tx);
      HeldAcrossWindow(st, i, tx.numOutputs, Step(st, tx));
    }
  }

  lemma StepKeepsOrder(st: State, tx: TxLogEntry)
    ensures Subsequence(Step(st, tx).outputs, st.outputs)
  {
    var added, i := StepShape(st, tx);
    SubsequenceRefl(st.outputs);
    hide *;
    if added != [] && added[0].outputs != [] {
      LeftmostFitBound(st.outputs, i, tx);
      WithoutIsSubsequence(st.outputs, i, tx.numOutputs);
    }
  }

  lemma LeftmostFitBound(outs: seq<OutputData>, i: nat, tx: TxLogEntry)
    requires LeftmostFit(outs, i, tx)
    ensures i + tx.numOutputs <= |outs| && Sum(outs[i..i + tx.numOutputs]) % U64 == tx.amountCredited
  {}

  lemma WindowValue(outs: seq<OutputData>, i: nat, n: nat)
    requires i + n <= |outs|
    ensures Sum(outs) == Sum(outs[i..i + n]) + Sum(Without(outs, i, n))
  {
    hide Sum;
    var a, b, c := outs[..i], outs[i..i + n], outs[i + n..];
    assert outs == a + b + c;
    SumSplit(a + b, c);
    SumSplit(a, b);
    SumSplit(a, c);
  }

  lemma WindowAmount(outs: seq<OutputData>, i: nat, tx: TxLogEntry)
    requires LeftmostFit(outs, i, tx) && Sum(outs) < U64
    ensures Sum(outs) == tx.amountCredited + Sum(Without(outs, i, tx.numOutputs))
  {
    LeftmostFitBound(outs, i, tx);
    WindowValue(outs, i, tx.numOutputs);
  }

  lemma StepBalances(st: State, tx: TxLogEntry)
    requires Sum(st.outputs) < U64
    ensures Credited(Step(st, tx).res) + Sum(Step(st, tx).outputs) == Credited(st.res) + Sum(st.outputs)
  {
    var added, i := StepShape(st, tx);
    AssignedAppend(st.res, added);
    hide *;
    if added != [] && added[0].outputs != [] {
      WindowAmount(st.outputs, i, tx);
    }
  }

  // ----- whole runs

  /** Transaction `k` is not dropped when it comes up. */
  predicate Recorded(txs: seq<TxLogEntry>, outs: seq<OutputData>, k: nat)
    requires k < |txs|
  {
    !Dropped(StateAt(txs, outs, k), txs[k])
  }

  lemma StatePrefix(txs: seq<TxLogEntry>, outs: seq<OutputData>, n: nat, k: nat)
    requires k <= n <= |txs|
    ensures StateAt(txs[..n], outs, k) == StateAt(txs, outs, k)
  {
    assert txs[..n][..k] == txs[..k];
  }

  /** Conservation: assigned and outstanding outputs together are the initial ones, and the
      outstanding ones keep their order. */
  lemma {:induction false} OutputsConserved(txs: seq<TxLogEntry>, outs: seq<OutputData>)
    ensures var st := Run(txs, Init(outs)); Held(st) == multiset(outs) && Subsequence(st.outputs, outs)
  {
    if txs == [] {
      SubsequenceRefl(outs);
    } else {
      var txs' := txs[..|txs| - 1];
      OutputsConserved(txs', outs);
      var st := Run(txs', Init(outs));
      StepConserves(st, txs[|txs| - 1]);
      StepKeepsOrder(st, txs[|txs| - 1]);
      SubsequenceTrans(Step(st, txs[|txs| - 1]).outputs, st.outputs, outs);
    }
  }

  /** Value balance: if the wallet's total fits 64 bits, it is what the matched transactions were
      credited plus what is outstanding. */
  lemma {:induction false} ValueBalances(txs: seq<TxLogEntry>, outs: seq<OutputData>)
    requires Sum(outs) < U64
    ensures var st := Run(txs, Init(outs)); Credited(st.res) + Sum(st.outputs) == Sum(outs)
  {
    if txs != [] {
      var txs' := txs[..|txs| - 1];
      ValueBalances(txs', outs);
      StepBalances(Run(txs', Init(outs)), txs[|txs| - 1]);
    }
  }

  lemma EntryStays(st: State, tx: TxLogEntry, r: nat)
    requires r < |st.res|
    ensures r < |Step(st, tx).res| && Step(st, tx).res[r] == st.res[r]
  {
    var _, _ := StepShape(st, tx);
    hide *;
  }

  lemma EntryAdded(st: State, tx: TxLogEntry) returns (i: nat)
    requires |Step(st, tx).res| > |st.res| && Step(st, tx).res[|st.res|].outputs != []
    ensures LeftmostFit(st.outputs, i, tx)
    ensures Step(st, tx).res[|st.res|] == Entry(tx, st.outputs[i..i + tx.numOutputs], true)
  {
    var added: seq<Entry>;
    added, i := StepShape(st, tx);
    hide Step, LeftmostFit, NoFit, Searched, Dropped;
    assert Step(st, tx).res[|st.res|] == added[0];
  }

  /** Every non-empty assignment has the transaction's number of outputs and is the leftmost
      fitting window of the outputs left when its transaction came up. */
  lemma {:induction false} AssignmentIsLeftmostWindow(txs: seq<TxLogEntry>, outs: seq<OutputData>, r: nat)
    returns (k: nat, i: nat)
    requires r < |Run(txs, Init(outs)).res| && Run(txs, Init(outs)).res[r].outputs != []
    ensures k < |txs| && LeftmostFit(StateAt(txs, outs, k).outputs, i, txs[k])
    ensures Run(txs, Init(outs)).res[r] == Entry(txs[k], StateAt(txs, outs, k).outputs[i..i + txs[k].numOutputs], true)
  {
    var n := |txs| - 1;
    var st := Run(txs[..n], Init(outs));
    assert Run(txs, Init(outs)) == Step(st, txs[n]) && StateAt(txs, outs, n) == st;
    var added, _ := StepShape(st, txs[n]);
    hide *;
    if r < |st.res| {
      EntryStays(st, txs[n], r);
      k, i := AssignmentIsLeftmostWindow(txs[..n], outs, r);
      StatePrefix(txs, outs, n, k);
    } else {
      k := n;
      i := EntryAdded(st, txs[n]);
    }
  }

  lemma {:induction false} ResultGrows(txs: seq<TxLogEntry>, outs: seq<OutputData>, k: nat)
    requires k <= |txs|
    ensures StateAt(txs, outs, k).res <= Run(txs, Init(outs)).res
  {
    var n := |txs| - 1;
    if k == |txs| {
      assert txs[..k] == txs;
    } else {
      var st := StateAt(txs, outs, n);
      assert Run(txs, Init(outs)) == Step(st, txs[n]);
      ResultGrows(txs[..n], outs, k);
      StatePrefix(txs, outs, n, k);
      var _, _ := StepShape(st, txs[n]);
      hide *;
    }
  }

  lemma StateNext(txs: seq<TxLogEntry>, outs: seq<OutputData>, k: nat)
    requires k < |txs|
    ensures StateAt(txs, outs, k + 1) == Step(StateAt(txs, outs, k), txs[k])
  {
    assert txs[..k + 1][..k] == txs[..k];
  }

  /** Every recorded transaction has its entry at the place it was given when it came up. In
      particular a window that fits is taken: the entry has outputs exactly when the transaction was
      searched for and some window of the outputs then left fits. */
  lemma FittingWindowIsTaken(txs: seq<TxLogEntry>, outs: seq<OutputData>, k: nat)
    requires k < |txs| && Recorded(txs, outs, k)
    ensures var st, res := StateAt(txs, outs, k), Run(txs, Init(outs)).res;
      |st.res| < |res| && Explained(res[|st.res|], st, txs[k]) &&
      (res[|st.res|].found && res[|st.res|].outputs == [] <==> st.outputs != [] && !Searched(st, txs[k]))
  {
    var st := StateAt(txs, outs, k);
    var added, _ := StepShape(st, txs[k]);
    StateNext(txs, outs, k);
    ResultGrows(txs, outs, k + 1);
    hide StateAt, Run, Step, Dropped, NoFit, Searched;
    assert st.res + added <= Run(txs, Init(outs)).res;
  }

  /** Every entry is a recorded transaction's. It has failed if and only if no output was left when
      that transaction came up, or it was searched for and no window fitted. */
  lemma FailureIffNoWindow(txs: seq<TxLogEntry>, outs: seq<OutputData>, r: nat) returns (k: nat)
    requires r < |Run(txs, Init(outs)).res|
    ensures k < |txs| && Recorded(txs, outs, k) && |StateAt(txs, outs, k).res| == r
    ensures Run(txs, Init(outs)).res[r].tx == txs[k]
    ensures !Run(txs, Init(outs)).res[r].found <==> (StateAt(txs, outs, k).outputs == [] ||
      (Searched(StateAt(txs, outs, k), txs[k]) && NoFit(StateAt(txs, outs, k).outputs, txs[k])))
  {
    hide StateAt, Run, Searched, NoFit, Recorded;
    k := EntrySource(txs, outs, r);
    FittingWindowIsTaken(txs, outs, k);
  }

  lemma {:induction false} EntrySource(txs: seq<TxLogEntry>, outs: seq<OutputData>, r: nat) returns (k: nat)
    requires r < |Run(txs, Init(outs)).res|
    ensures k < |txs| && Recorded(txs, outs, k) && |StateAt(txs, outs, k).res| == r
  {
    var n := |txs| - 1;
    var st := StateAt(txs, outs, n);
    assert Run(txs, Init(outs)) == Step(st, txs[n]);
    var added, _ := StepShape(st, txs[n]);
    if r < |st.res| {
      k := EntrySource(txs[..n], outs, r);
      StatePrefix(txs, outs, n, k);
    } else {
      k := n;
    }
  }

  /** The transactions that reach the size test with too few outputs left are left out. */
  function Kept(txs: seq<TxLogEntry>, outs: seq<OutputData>): seq<TxLogEntry> {
    if txs == [] then [] else
      var n := |txs| - 1;
      Kept(txs[..n], outs) + if Dropped(StateAt(txs, outs, n), txs[n]) then [] else [txs[n]]
  }

  /** The result lists the transactions in their order, omitting exactly the dropped ones. */
  lemma {:induction false} ResultListsKept(txs: seq<TxLogEntry>, outs: seq<OutputData>)
    ensures Transactions(Run(txs, Init(outs)).res) == Kept(txs, outs)
  {
    if txs != [] {
      var n := |txs| - 1;
      ResultListsKept(txs[..n], outs);
      var _, _ := StepShape(Run(txs[..n], Init(outs)), txs[n]);
    }
  }

  lemma RecordedPrefix(txs: seq<TxLogEntry>, outs: seq<OutputData>, n: nat, k: nat)
    requires k < n <= |txs|
    ensures Recorded(txs[..n], outs, k) == Recorded(txs, outs, k)
  {
    StatePrefix(txs, outs, n, k);
  }

  lemma KeptSnoc(txs: seq<TxLogEntry>, outs: seq<OutputData>)
    requires txs != []
    ensures Kept(txs, outs) == Kept(txs[..|txs| - 1], outs) +
      if Recorded(txs, outs, |txs| - 1) then [txs[|txs| - 1]] else []
  {}

  lemma {:induction false} KeptAll(txs: seq<TxLogEntry>, outs: seq<OutputData>)
    requires forall k :: 0 <= k < |txs| ==> Recorded(txs, outs, k)
    ensures Kept(txs, outs) == txs
  {
    if txs != [] {
      var n := |txs| - 1;
      hide *;
      forall k | 0 <= k < n ensures Recorded(txs[..n], outs, k) {
        RecordedPrefix(txs, outs, n, k);
      }
      KeptAll(txs[..n], outs);
      KeptSnoc(txs, outs);
      assert txs == txs[..n] + [txs[n]];
    }
  }

  lemma {:induction false} KeptLength(txs: seq<TxLogEntry>, outs: seq<OutputData>)
    ensures |Kept(txs, outs)| <= |txs|
  {
    if txs != [] { KeptLength(txs[..|txs| - 1], outs); }
  }

  lemma {:induction false} KeptFewer(txs: seq<TxLogEntry>, outs: seq<OutputData>, k: nat)
    requires k < |txs| && !Recorded(txs, outs, k)
    ensures |Kept(txs, outs)| < |txs|
  {
    hide *;
    var n := |txs| - 1;
    KeptSnoc(txs, outs);
    KeptLength(txs[..n], outs);
    if k < n {
      RecordedPrefix(txs, outs, n, k);
      KeptFewer(txs[..n], outs, k);
    }
  }

  /** Nothing is missing from the result if and only if no transaction is dropped. */
  lemma NothingOmittedIff(txs: seq<TxLogEntry>, outs: seq<OutputData>)
    ensures Transactions(Run(txs, Init(outs)).res) == txs <==> forall k :: 0 <= k < |txs| ==> Recorded(txs, outs, k)
  {
    ResultListsKept(txs, outs);
    hide *;
    if forall k :: 0 <= k < |txs| ==> Recorded(txs, outs, k) {
      KeptAll(txs, outs);
    } else {
      var k :| 0 <= k < |txs| && !Recorded(txs, outs, k);
      KeptFewer(txs, outs, k);
    }
  }

  /** It does happen: a wallet with a single output omits a transaction that asks for two. */
  lemma DroppedExample(tx: TxLogEntry, o: OutputData)
    requires tx.numOutputs == 2 && !tx.IsCancelled()
    ensures Run([tx], Init([o])).res == []
  {
    assert [tx][..0] == [];
  }

  // ----- where a build that checks overflow stops instead

  ghost predicate Ascending(outs: seq<OutputData>) {
    forall i, j :: 0 <= i < j < |outs| ==> outs[i].nChild <= outs[j].nChild
  }

  lemma {:induction false} SubsequenceMember(a: seq<OutputData>, b: seq<OutputData>, i: nat) returns (j: nat)
    requires Subsequence(a, b) && i < |a|
    ensures j < |b| && b[j] == a[i]
    decreases |b|
  {
    if a[0] == b[0] && Subsequence(a[1..], b[1..]) {
      j := 0;
      if i > 0 {
        j := SubsequenceMember(a[1..], b[1..], i - 1);
        j := j + 1;
      }
    } else {
      j := SubsequenceMember(a, b[1..], i);
      j := j + 1;
    }
  }

  lemma {:induction false} AscendingKept(a: seq<OutputData>, b: seq<OutputData>)
    requires Subsequence(a, b) && Ascending(b)
    ensures Ascending(a)
    decreases |b|
  {
    if a != [] {
      assert Ascending(b[1..]);
      if a[0] == b[0] && Subsequence(a[1..], b[1..]) {
        AscendingKept(a[1..], b[1..]);
        forall i, j | 0 <= i < j < |a| ensures a[i].nChild <= a[j].nChild {
          var k := SubsequenceMember(a[1..], b[1..], j - 1);
          assert b[k + 1] == a[j] && a[1..][j - 1] == a[j];
          assert i > 0 ==> a[1..][i - 1] == a[i];
        }
      } else {
        AscendingKept(a, b[1..]);
      }
    }
  }

  lemma OrderedStep(st: State, tx: TxLogEntry)
    requires Sum(st.outputs) < U64 && Ascending(st.outputs)
    ensures !Traps(st, tx)
  {
    hide Sum, NoFitBefore;
    if Traps(st, tx) {
      var k :| SumTraps(st.outputs, k, tx) || IndexTraps(st.outputs, k, tx);
      if SumTraps(st.outputs, k, tx) {
        WindowValue(st.outputs, k, tx.numOutputs);
      }
    }
  }

  lemma OrderedNeverTraps(txs: seq<TxLogEntry>, outs: seq<OutputData>)
    requires Sum(outs) < U64 && Ascending(outs)
    ensures !RunTraps(txs, outs)
  {
    forall k | 0 <= k < |txs| ensures !Traps(StateAt(txs, outs, k), txs[k]) {
      var st := StateAt(txs, outs, k);
      OutputsConserved(txs[..k], outs);
      ValueBalances(txs[..k], outs);
      AscendingKept(st.outputs, outs);
      OrderedStep(st, txs[k]);
      hide *;
    }
  }

  lemma {:induction false} FallExists(outs: seq<OutputData>) returns (n: nat)
    requires !Ascending(outs)
    ensures 0 < n < |outs| && outs[n].nChild < outs[n - 1].nChild
  {
    var m := |outs| - 1;
    if Ascending(outs[..m]) {
      var i :| 0 <= i < m && outs[m].nChild < outs[i].nChild;
      assert i < m - 1 ==> outs[..m][i].nChild <= outs[..m][m - 1].nChild;
      n := m;
    } else {
      n := FallExists(outs[..m]);
    }
  }

  /** A sent transaction that asks for `n` outputs worth as much as the first `n`. */
  function Asking(n: nat, outs: seq<OutputData>): TxLogEntry
    requires n <= |outs|
  {
    TxLogEntry(0, TxSent, n, Sum(outs[..n]) % U64, None, None)
  }

  lemma AskingTraps(n: nat, outs: seq<OutputData>)
    requires 0 < n <= |outs|
    requires U64 <= Sum(outs[..n]) || (n < |outs| && outs[n].nChild < outs[n - 1].nChild)
    ensures RunTraps([Asking(n, outs)], outs)
  {
    var tx := Asking(n, outs);
    assert [tx][..0] == [] && StateAt([tx], outs, 0) == Init(outs);
    assert outs[0..0 + n] == outs[..n];
    assert SumTraps(outs, 0, tx) || IndexTraps(outs, 0, tx);
    assert Traps(StateAt([tx], outs, 0), [tx][0]);
  }

  lemma EmptySum()
    ensures Sum([]) == 0
  {}

  /** For any other wallet some transaction traps. */
  lemma SomeRunTraps(outs: seq<OutputData>) returns (txs: seq<TxLogEntry>)
    requires U64 <= Sum(outs) || !Ascending(outs)
    ensures RunTraps(txs, outs)
  {
    var n := |outs|;
    assert outs[..n] == outs;
    EmptySum();
    hide Sum, RunTraps, Ascending;
    if Sum(outs) < U64 { n := FallExists(outs); }
    AskingTraps(n, outs);
    txs := [Asking(n, outs)];
  }

  /** Builds with and without overflow checks agree on every list of transactions if and only if the
      wallet's total fits 64 bits and its outputs come in the order of their derivation index. */
  lemma BuildsAgreeIff(outs: seq<OutputData>)
    ensures Sum(outs) < U64 && Ascending(outs) <==>
      forall txs: seq<TxLogEntry> :: RunIn(true, txs, Init(outs)) == RunIn(false, txs, Init(outs))
  {
    hide *;
    if Sum(outs) < U64 && Ascending(outs) {
      forall txs: seq<TxLogEntry> ensures RunIn(true, txs, Init(outs)) == RunIn(false, txs, Init(outs)) {
        OrderedNeverTraps(txs, outs);
        RunInExact(false, txs, outs);
        RunInExact(true, txs, outs);
      }
    } else {
      var txs := SomeRunTraps(outs);
      RunInExact(false, txs, outs);
      RunInExact(true, txs, outs);
    }
  }

  /** Out of order it does happen, and the wallet's outputs need not be in order: a build with
      overflow checks panics where one without takes the first output. */
  lemma TrapExample(tx: TxLogEntry, o1: OutputData, o2: OutputData)
    requires tx.numOutputs == 1 && !tx.IsCancelled() && tx.amountCredited == o1.value && o2.nChild < o1.nChild
    ensures RunIn(true, [tx], Init([o1, o2])) == Panic
    ensures RunIn(false, [tx], Init([o1, o2])) ==
      Ok(State([o2], (o2.nChild - o1.nChild) % U32 > 1, [Entry(tx, [o1], true)]))
  {
    var outs, st := [o1, o2], Init([o1, o2]);
    assert [tx][..0] == [] && outs[0..1] == [o1] && [o1][..0] == [] && Without(outs, 0, 1) == [o2];
    forall checks: bool ensures WindowSum(checks, outs[0..1]) == Ok(o1.value) {
      assert WindowSum(checks, []) == Ok(0);
      WrapSmall(o1.value);
    }
    forall checks: bool
      ensures RunIn(checks, [tx], st) == StepIn(checks, st, tx) == SearchFrom(checks, st, tx, 0)
    {
      assert RunIn(checks, [], st) == Ok(st) && CancelledFlag(st, tx) == st.nextCancelled;
    }
    assert [] + [Entry(tx, [o1], true)] == [Entry(tx, [o1], true)];
    assert IndexGap(false, [o2], 0, o1) == Ok((o2.nChild - o1.nChild) % U32 > 1);
  }

  // ----- when a cancelled transaction gets outputs

  ghost predicate Cancelled(tx: TxLogEntry) {
    tx.txType == TxReceivedCancelled || tx.txType == TxSentCancelled
  }

  /** The state before transaction `j` and that transaction explain why outputs may next go to a
      cancelled one, leaving `rest`: a window was taken and the derivation index of the output that
      follows it continues without a gap, or nothing was recorded yet and the first output is worth
      what a cancelled transaction was credited. */
  ghost predicate Continues(st: State, tx: TxLogEntry, i: nat, rest: seq<OutputData>) {
    (LeftmostFit(st.outputs, i, tx) && 0 < tx.numOutputs &&
      rest == Without(st.outputs, i, tx.numOutputs) && i < |rest| &&
      (rest[i].nChild - st.outputs[i + tx.numOutputs - 1].nChild) % U32 <= 1) ||
    (st.res == [] && Cancelled(tx) && rest == st.outputs && rest != [] && tx.amountCredited == rest[0].value)
  }

  lemma StepFlag(st: State, tx: TxLogEntry) returns (i: nat)
    requires !Step(st, tx).nextCancelled
    ensures Continues(st, tx, i, Step(st, tx).outputs) || (!st.nextCancelled && Step(st, tx).outputs == st.outputs)
  {
    hide Sum, Fits;
    var r := if tx.numOutputs <= |st.outputs| then
      FirstWindow(st.outputs, 0, tx.numOutputs, tx.amountCredited) else None;
    i := if r.Some? then r.value else 0;
  }

  lemma {:induction false} FlagHasReason(txs: seq<TxLogEntry>, outs: seq<OutputData>) returns (j: nat, i: nat)
    requires !Run(txs, Init(outs)).nextCancelled
    ensures j < |txs| && Continues(StateAt(txs, outs, j), txs[j], i, Run(txs, Init(outs)).outputs)
  {
    var n := |txs| - 1;
    var st := Run(txs[..n], Init(outs));
    j, i := n, 0;
    i := StepFlag(st, txs[n]);
    if !Continues(st, txs[n], i, Step(st, txs[n]).outputs) {
      j, i := FlagHasReason(txs[..n], outs);
      StatePrefix(txs, outs, n, j);
    }
  }

  /** A cancelled transaction takes outputs only on the heels of an earlier one: the outputs left
      when it comes up are those left by transaction `j`, after whose window the derivation index
      goes on without a gap; or it is itself the first recorded and is worth the first output. */
  lemma CancelledTakesInSequence(txs: seq<TxLogEntry>, outs: seq<OutputData>, k: nat) returns (j: nat, i: nat)
    requires k < |txs| && txs[k].IsCancelled()
    requires Step(StateAt(txs, outs, k), txs[k]).outputs != StateAt(txs, outs, k).outputs
    ensures j <= k && Continues(StateAt(txs, outs, j), txs[j], i, StateAt(txs, outs, k).outputs)
    ensures j == k ==> StateAt(txs, outs, k).res == []
  {
    var st := StateAt(txs, outs, k);
    j, i := k, 0;
    if st.res != [] {
      assert !st.nextCancelled;
      j, i := FlagHasReason(txs[..k], outs);
      StatePrefix(txs, outs, k, j);
    }
  }

  /** Transaction `j` settles what the next cancelled one may do: it took a window, or it is cancelled
      itself and came to be considered while nothing was recorded. */
  ghost predicate Settles(txs: seq<TxLogEntry>, outs: seq<OutputData>, j: nat) {
    j < |txs| && var st := StateAt(txs, outs, j);
    StateAt(txs, outs, j + 1).outputs != st.outputs ||
    (Cancelled(txs[j]) && 0 < txs[j].numOutputs && st.outputs != [] && st.res == [])
  }

  ghost predicate LastToSettle(txs: seq<TxLogEntry>, outs: seq<OutputData>, k: nat, j: nat) {
    j < k && Settles(txs, outs, j) && forall m :: j < m < k ==> !Settles(txs, outs, m)
  }

  /** The outputs that transaction `j` left continue what it took, or start with what it was credited. */
  ghost predicate LeavesOpen(txs: seq<TxLogEntry>, outs: seq<OutputData>, j: nat) {
    j < |txs| && Open(StateAt(txs, outs, j), txs[j], StateAt(txs, outs, j + 1).outputs)
  }

  ghost predicate Open(st: State, tx: TxLogEntry, rest: seq<OutputData>) {
    exists i :: Continues(st, tx, i, rest)
  }

  /** The last transaction before `k` to settle it left the outputs open. */
  ghost predicate MayContinue(txs: seq<TxLogEntry>, outs: seq<OutputData>, k: nat) {
    exists j :: LastToSettle(txs, outs, k, j) && LeavesOpen(txs, outs, j)
  }

  /** A cancelled transaction may take outputs: as the first to be recorded if it is worth the first
      output, and later if the last transaction to settle it left the outputs open. */
  ghost predicate MayTake(txs: seq<TxLogEntry>, outs: seq<OutputData>, k: nat)
    requires k < |txs| && StateAt(txs, outs, k).outputs != []
  {
    if StateAt(txs, outs, k).res == [] then txs[k].amountCredited == StateAt(txs, outs, k).outputs[0].value
    else MayContinue(txs, outs, k)
  }

  lemma LeftmostUnique(outs: seq<OutputData>, i: nat, j: nat, tx: TxLogEntry)
    requires LeftmostFit(outs, i, tx) && LeftmostFit(outs, j, tx)
    ensures i == j
  {
    hide Fits;
  }

  /** The flag after a window was taken. */
  lemma TakenFlag(st: State, tx: TxLogEntry, i: nat)
    requires 0 < tx.numOutputs && LeftmostFit(st.outputs, i, tx)
    ensures var next := Found(st, tx, Some(i));
      next.outputs != st.outputs && (!next.nextCancelled <==> Open(st, tx, next.outputs))
  {
    var next := Found(st, tx, Some(i));
    assert |next.outputs| < |st.outputs|;
    hide LeftmostFit;
    if Open(st, tx, next.outputs) {
      var j :| Continues(st, tx, j, next.outputs);
      LeftmostUnique(st.outputs, i, j, tx);
    }
    if !next.nextCancelled {
      assert Continues(st, tx, i, next.outputs);
    }
  }

  lemma SameOpen(st1: State, st: State, tx: TxLogEntry, rest: seq<OutputData>)
    requires st1.outputs == st.outputs && st1.res == st.res
    ensures Open(st1, tx, rest) <==> Open(st, tx, rest)
  {
    forall i: nat ensures Continues(st1, tx, i, rest) <==> Continues(st, tx, i, rest) {}
  }

  /** A transaction that takes nothing leaves the outputs open only as the first cancelled one. */
  lemma NotTaken(st: State, tx: TxLogEntry)
    ensures Open(st, tx, st.outputs) <==>
      st.res == [] && Cancelled(tx) && st.outputs != [] && tx.amountCredited == st.outputs[0].value
  {
    forall i: nat | LeftmostFit(st.outputs, i, tx) && 0 < tx.numOutputs
      ensures Without(st.outputs, i, tx.numOutputs) != st.outputs
    {
      assert |Without(st.outputs, i, tx.numOutputs)| < |st.outputs|;
    }
    hide LeftmostFit, Without;
    if st.res == [] && Cancelled(tx) && st.outputs != [] && tx.amountCredited == st.outputs[0].value {
      assert Continues(st, tx, 0, st.outputs);
    }
  }

  lemma StepFlagExact(st: State, tx: TxLogEntry)
    ensures var st' := Step(st, tx);
      if st'.outputs != st.outputs || (Cancelled(tx) && 0 < tx.numOutputs && st.outputs != [] && st.res == [])
      then !st'.nextCancelled <==> Open(st, tx, st'.outputs)
      else st'.nextCancelled == st.nextCancelled
  {
    var n, st1 := tx.numOutputs, st.(nextCancelled := if st.outputs == [] then true else CancelledFlag(st, tx));
    var r := FirstWindow(st.outputs, 0, n, tx.amountCredited);
    if Searched(st, tx) && n <= |st.outputs| && r.Some? {
      TakenFlag(st1, tx, r.value);
      SameOpen(st1, st, tx, Step(st, tx).outputs);
      hide *;
    } else {
      assert Step(st, tx).outputs == st.outputs;
      NotTaken(st, tx);
      hide Open, FirstWindow;
    }
  }

  lemma {:induction false} FlagExact(txs: seq<TxLogEntry>, outs: seq<OutputData>, k: nat)
    requires k <= |txs|
    ensures !StateAt(txs, outs, k).nextCancelled <==> MayContinue(txs, outs, k)
  {
    hide *;
    if k == 0 {
      FlagStart(txs, outs);
    } else {
      FlagExact(txs, outs, k - 1);
      FlagStep(txs, outs, k - 1);
      if Settles(txs, outs, k - 1) {
        SettlesNow(txs, outs, k);
      } else {
        SettlesNotNow(txs, outs, k);
      }
    }
  }

  lemma FlagStart(txs: seq<TxLogEntry>, outs: seq<OutputData>)
    ensures StateAt(txs, outs, 0).nextCancelled && !MayContinue(txs, outs, 0)
  {
    assert txs[..0] == [];
  }

  lemma FlagStep(txs: seq<TxLogEntry>, outs: seq<OutputData>, j: nat)
    requires j < |txs|
    ensures if Settles(txs, outs, j) then !StateAt(txs, outs, j + 1).nextCancelled <==> LeavesOpen(txs, outs, j)
      else StateAt(txs, outs, j + 1).nextCancelled == StateAt(txs, outs, j).nextCancelled
  {
    StateNext(txs, outs, j);
    StepFlagExact(StateAt(txs, outs, j), txs[j]);
    hide Step, StateAt, Open;
  }

  lemma SettlesNow(txs: seq<TxLogEntry>, outs: seq<OutputData>, k: nat)
    requires 0 < k <= |txs| && Settles(txs, outs, k - 1)
    ensures MayContinue(txs, outs, k) <==> LeavesOpen(txs, outs, k - 1)
  {
    hide Settles, LeavesOpen;
    assert LastToSettle(txs, outs, k, k - 1);
  }

  lemma SettlesNotNow(txs: seq<TxLogEntry>, outs: seq<OutputData>, k: nat)
    requires 0 < k <= |txs| && !Settles(txs, outs, k - 1)
    ensures MayContinue(txs, outs, k) <==> MayContinue(txs, outs, k - 1)
  {
    hide Settles, LeavesOpen;
    assert forall j :: LastToSettle(txs, outs, k, j) <==> LastToSettle(txs, outs, k - 1, j);
  }

  /** Which transactions are searched for: those that need outputs while there are some, unless they
      are cancelled and may not take any. */
  lemma SearchedExactly(txs: seq<TxLogEntry>, outs: seq<OutputData>, k: nat)
    requires k < |txs|
    ensures Searched(StateAt(txs, outs, k), txs[k]) <==>
      StateAt(txs, outs, k).outputs != [] && 0 < txs[k].numOutputs && (Cancelled(txs[k]) ==> MayTake(txs, outs, k))
  {
    FlagExact(txs, outs, k);
    hide StateAt, MayContinue;
  }

  /** A transaction takes outputs if and only if it needs some, a window of those left is worth what it
      was credited, and it is not cancelled or may take them all the same. */
  lemma TakesIff(txs: seq<TxLogEntry>, outs: seq<OutputData>, k: nat)
    requires k < |txs|
    ensures var left, tx := StateAt(txs, outs, k).outputs, txs[k];
      StateAt(txs, outs, k + 1).outputs != left <==>
        0 < tx.numOutputs &&
        (exists i :: 0 <= i && i + tx.numOutputs <= |left| && Fits(left, i, tx.numOutputs, tx.amountCredited)) &&
        (Cancelled(tx) ==> MayTake(txs, outs, k))
  {
    var st, tx := StateAt(txs, outs, k), txs[k];
    SearchedExactly(txs, outs, k);
    StateNext(txs, outs, k);
    TakesSearched(st, tx);
    hide StateAt, Step, MayTake, Searched, Fits;
  }

  lemma TakesSearched(st: State, tx: TxLogEntry)
    ensures Step(st, tx).outputs != st.outputs <==> Searched(st, tx) && !NoFit(st.outputs, tx)
  {
    var added, i := StepShape(st, tx);
    if added != [] && added[0].outputs != [] {
      LeftmostFitBound(st.outputs, i, tx);
      assert |Without(st.outputs, i, tx.numOutputs)| < |st.outputs|;
    }
    hide Step, LeftmostFit, NoFit, CancelledFlag;
  }
}
