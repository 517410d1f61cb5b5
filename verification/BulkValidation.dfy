/** Validating a wallet's transactions against dumps of the node's kernels and outputs
    (`txs_bulk_validate`): the indexes, the three passes, and what they compute. */
module BulkValidation {
  import opened Common
  import opened Merge

  datatype TransactionInfo = TransactionInfo(
    txLog: TxLogEntry,
    txKernels: seq<string>,
    txOutputs: seq<OutputData>,
    validated: bool,
    flags: string)

  /** What a transaction can be looked up by. */
  datatype Key = Kernel(kernel: string) | Commit(commit: string) | Id(id: u32)

  predicate Carries(t: TransactionInfo, key: Key) {
    match key
    case Kernel(k) => k in t.txKernels
    case Commit(c) => exists o <- t.txOutputs :: o.commit == Some(c)
    case Id(id) => t.txLog.id == id
  }

  /** Backward linear search for a transaction carrying `key`. */
  function LastIndex(txs: seq<TransactionInfo>, key: Key): (r: Option<nat>)
    ensures r.Some? ==> r.value < |txs| && Carries(txs[r.value], key)
    ensures forall j :: (if r.Some? then r.value + 1 else 0) <= j < |txs| ==> !Carries(txs[j], key)
  {
    var n := |txs| - 1;
    if txs == [] then None
    else if Carries(txs[n], key) then Some(n)
    else LastIndex(txs[..n], key)
  }

  // ----- preparing the transactions

  function Kernels(stored: map<string, seq<string>>, tx: TxLogEntry): seq<string> {
    if tx.txType.TxReceived? || tx.txType.TxReceivedCancelled? then [] else
      (if tx.slateId.Some? && tx.slateId.value in stored then stored[tx.slateId.value] else []) +
      (if tx.kernelExcess.Some? then [tx.kernelExcess.value] else [])
  }

  /** A transaction before validation; `stored` gives the kernels of stored slates. */
  function Prepared(stored: map<string, seq<string>>, e: Entry): TransactionInfo {
    TransactionInfo(e.tx, Kernels(stored, e.tx), e.outputs, false, "")
  }

  function PreparedAll(stored: map<string, seq<string>>, entries: seq<Entry>): seq<TransactionInfo> {
    seq(|entries|, i requires 0 <= i < |entries| => Prepared(stored, entries[i]))
  }

  /** The hash indexes say what backward search says. */
  ghost predicate Agree(txs: seq<TransactionInfo>, kernels: map<string, nat>, outputs: map<string, nat>,
      ids: map<u32, nat>) {
    KernelsAgree(txs, kernels) && CommitsAgree(txs, outputs) && IdsAgree(txs, ids)
  }

  ghost predicate KernelsAgree(txs: seq<TransactionInfo>, kernels: map<string, nat>) {
    forall k :: LastIndex(txs, Kernel(k)) == if k in kernels then Some(kernels[k]) else None
  }

  ghost predicate CommitsAgree(txs: seq<TransactionInfo>, outputs: map<string, nat>) {
    forall c :: LastIndex(txs, Commit(c)) == if c in outputs then Some(outputs[c]) else None
  }

  ghost predicate IdsAgree(txs: seq<TransactionInfo>, ids: map<u32, nat>) {
    forall id: u32 :: LastIndex(txs, Id(id)) == if id in ids then Some(ids[id]) else None
  }

  lemma LastIndexSnoc(txs: seq<TransactionInfo>, t: TransactionInfo, key: Key)
    ensures LastIndex(txs + [t], key) == if Carries(t, key) then Some(|txs|) else LastIndex(txs, key)
  {
    assert (txs + [t])[..|txs|] == txs;
  }

  method InsertAll(index: map<string, nat>, keys: seq<string>, i: nat) returns (r: map<string, nat>)
    ensures forall k :: k in r <==> k in index || k in keys
    ensures forall k :: k in r ==> r[k] == if k in keys then i else index[k]
  {
    r := index;
    for n := 0 to |keys|
      invariant forall k :: k in r <==> k in index || k in keys[..n]
      invariant forall k :: k in r ==> r[k] == if k in keys[..n] then i else index[k]
    {
      assert keys[..n + 1] == keys[..n] + [keys[n]];
      r := r[keys[n] := i];
    }
    assert keys[..|keys|] == keys;
  }

  /** `api.rs`, lines 557 to 560: outputs without a commitment are passed over. */
  method InsertCommits(index: map<string, nat>, t: TransactionInfo, i: nat) returns (r: map<string, nat>)
    ensures forall c :: c in r <==> c in index || Carries(t, Commit(c))
    ensures forall c :: c in r ==> r[c] == if Carries(t, Commit(c)) then i else index[c]
  {
    r := index;
    var outs := t.txOutputs;
    for n := 0 to |outs|
      invariant forall c :: c in r <==> c in index || exists o <- outs[..n] :: o.commit == Some(c)
      invariant forall c :: c in r ==> r[c] == if exists o <- outs[..n] :: o.commit == Some(c) then i else index[c]
    {
      assert outs[..n + 1] == outs[..n] + [outs[n]];
      if outs[n].commit.Some? {
        r := r[outs[n].commit.value := i];
      }
    }
    assert outs[..|outs|] == outs;
  }

  // The indexes still agree when the next transaction has been entered into each.

  lemma KernelsNext(txs: seq<TransactionInfo>, t: TransactionInfo,
      kernels: map<string, nat>, kernels': map<string, nat>)
    requires KernelsAgree(txs, kernels)
    requires forall k :: k in kernels' <==> k in kernels || k in t.txKernels
    requires forall k :: k in kernels' ==> kernels'[k] == if k in t.txKernels then |txs| else kernels[k]
    ensures KernelsAgree(txs + [t], kernels')
  {
    hide LastIndex;
    forall k ensures LastIndex(txs + [t], Kernel(k)) == if k in kernels' then Some(kernels'[k]) else None {
      LastIndexSnoc(txs, t, Kernel(k));
    }
  }

  lemma CommitsNext(txs: seq<TransactionInfo>, t: TransactionInfo,
      outputs: map<string, nat>, outputs': map<string, nat>)
    requires CommitsAgree(txs, outputs)
    requires forall c :: c in outputs' <==> c in outputs || Carries(t, Commit(c))
    requires forall c :: c in outputs' ==> outputs'[c] == if Carries(t, Commit(c)) then |txs| else outputs[c]
    ensures CommitsAgree(txs + [t], outputs')
  {
    hide LastIndex, Carries;
    forall c ensures LastIndex(txs + [t], Commit(c)) == if c in outputs' then Some(outputs'[c]) else None {
      LastIndexSnoc(txs, t, Commit(c));
    }
  }

  lemma IdsNext(txs: seq<TransactionInfo>, t: TransactionInfo, ids: map<u32, nat>)
    requires IdsAgree(txs, ids)
    ensures IdsAgree(txs + [t], ids[t.txLog.id := |txs|])
  {
    hide LastIndex;
    forall id: u32 ensures LastIndex(txs + [t], Id(id)) ==
      if id == t.txLog.id then Some(|txs|) else LastIndex(txs, Id(id)) {
      LastIndexSnoc(txs, t, Id(id));
    }
  }

  lemma PreparedNext(stored: map<string, seq<string>>, entries: seq<Entry>, n: nat)
    requires n < |entries|
    ensures PreparedAll(stored, entries[..n + 1]) == PreparedAll(stored, entries[..n]) + [Prepared(stored, entries[n])]
  {
    hide Prepared;
  }

  method Prepare(stored: map<string, seq<string>>, entries: seq<Entry>)
    returns (txs: seq<TransactionInfo>, kernelToTx: map<string, nat>, outputToTx: map<string, nat>,
      txIdToTx: map<u32, nat>)
    ensures txs == PreparedAll(stored, entries)
    ensures Agree(txs, kernelToTx, outputToTx, txIdToTx)
  {
    txs, kernelToTx, outputToTx, txIdToTx := [], map[], map[], map[];
    hide LastIndex, Carries, Prepared;
    for n := 0 to |entries|
      invariant txs == PreparedAll(stored, entries[..n])
      invariant Agree(txs, kernelToTx, outputToTx, txIdToTx)
    {
      var t := Prepared(stored, entries[n]);
      ghost var kernels, outputs, ids := kernelToTx, outputToTx, txIdToTx;
      kernelToTx := InsertAll(kernelToTx, t.txKernels, |txs|);
      outputToTx := InsertCommits(outputToTx, t, |txs|);
      txIdToTx := txIdToTx[t.txLog.id := |txs|];
      KernelsNext(txs, t, kernels, kernelToTx);
      CommitsNext(txs, t, outputs, outputToTx);
      IdsNext(txs, t, ids);
      PreparedNext(stored, entries, n);
      txs := txs + [t];
    }
    assert entries[..|entries|] == entries;
  }

  // ----- what validation means

  /** How a dump's lines are looked up. */
  datatype Dump = KernelDump | OutputDump

  function LineKey(dump: Dump, line: string): Key {
    if dump.KernelDump? then Kernel(line) else Commit(line)
  }

  /** How many of `lines` name transaction `i`. */
  function Hits(txs: seq<TransactionInfo>, dump: Dump, lines: seq<string>, i: nat): nat {
    if lines == [] then 0 else
      Hits(txs, dump, lines[..|lines| - 1], i) +
      if LastIndex(txs, LineKey(dump, lines[|lines| - 1])) == Some(i) then 1 else 0
  }

  function Repeat(c: char, n: nat): string {
    seq(n, _ => c)
  }

  /** A dump line names transaction `i`. */
  predicate Hit(txs: seq<TransactionInfo>, kernels: seq<string>, outputs: seq<string>, i: nat) {
    Hits(txs, KernelDump, kernels, i) + Hits(txs, OutputDump, outputs, i) > 0
  }

  /** Transaction `i` has an output whose log entry names the send transaction `j`. */
  predicate SpentBy(txs: seq<TransactionInfo>, i: nat, k: nat, j: nat)
    requires i < |txs| && k < |txs[i].txOutputs|
  {
    var entry := txs[i].txOutputs[k].txLogEntry;
    entry.Some? && LastIndex(txs, Id(entry.value)) == Some(j) &&
    (txs[j].txLog.txType.TxSent? || txs[j].txLog.txType.TxSentCancelled?)
  }

  ghost predicate Edge(txs: seq<TransactionInfo>, i: nat, j: nat) {
    i < |txs| && exists k :: 0 <= k < |txs[i].txOutputs| && SpentBy(txs, i, k, j)
  }

  /** Which transactions end up validated: those a line names, and those with an output spent by a
      send transaction that is already validated when their turn comes in the forward pass. */
  ghost predicate Validated(txs: seq<TransactionInfo>, kernels: seq<string>, outputs: seq<string>, i: nat)
    decreases i, 1
  {
    Hit(txs, kernels, outputs, i) ||
    exists j :: 0 <= j < |txs| && Edge(txs, i, j) && KnownAt(txs, kernels, outputs, i, j)
  }

  /** Whether transaction `j` is validated when the turn of transaction `i` comes. */
  ghost predicate KnownAt(txs: seq<TransactionInfo>, kernels: seq<string>, outputs: seq<string>, i: nat, j: nat)
    decreases i, 0
  {
    if j < i then Validated(txs, kernels, outputs, j) else Hit(txs, kernels, outputs, j)
  }

  ghost function Flags(txs: seq<TransactionInfo>, kernels: seq<string>, outputs: seq<string>, i: nat): string {
    if Hit(txs, kernels, outputs, i)
    then Repeat('K', Hits(txs, KernelDump, kernels, i)) + Repeat('O', Hits(txs, OutputDump, outputs, i))
    else if Validated(txs, kernels, outputs, i) then "S" else ""
  }

  ghost function Report(txs: seq<TransactionInfo>, kernels: seq<string>, outputs: seq<string>):
    (r: seq<TransactionInfo>)
    ensures |r| == |txs|
  {
    seq(|txs|, i requires 0 <= i < |txs| =>
      txs[i].(validated := Validated(txs, kernels, outputs, i), flags := Flags(txs, kernels, outputs, i)))
  }

  /** Transaction `i` when both dumps have been read. */
  function AfterDumps(txs: seq<TransactionInfo>, kernels: seq<string>, outputs: seq<string>, i: nat): TransactionInfo
    requires i < |txs|
  {
    txs[i].(validated := Hit(txs, kernels, outputs, i),
      flags := Repeat('K', Hits(txs, KernelDump, kernels, i)) + Repeat('O', Hits(txs, OutputDump, outputs, i)))
  }

  lemma ReportEntry(txs: seq<TransactionInfo>, kernels: seq<string>, outputs: seq<string>, i: nat, spent: bool)
    requires i < |txs|
    requires Hit(txs, kernels, outputs, i) ||
      (spent <==> exists j :: 0 <= j < |txs| && Edge(txs, i, j) && KnownAt(txs, kernels, outputs, i, j))
    ensures var t := AfterDumps(txs, kernels, outputs, i);
      Report(txs, kernels, outputs)[i] ==
        if !t.validated && spent then t.(validated := true, flags := t.flags + "S") else t
  {}

  /** The fields the cut-through pass reads, before and after it. */
  lemma PassFacts(txs: seq<TransactionInfo>, kernels: seq<string>, outputs: seq<string>)
    ensures forall i, j :: 0 <= i < |txs| && 0 <= j < |txs| ==> (KnownAt(txs, kernels, outputs, i, j) ==
      if j < i then Report(txs, kernels, outputs)[j].validated else AfterDumps(txs, kernels, outputs, j).validated)
    ensures forall j :: 0 <= j < |txs| ==>
      Report(txs, kernels, outputs)[j].txLog == AfterDumps(txs, kernels, outputs, j).txLog == txs[j].txLog
    ensures forall j :: 0 <= j < |txs| ==> AfterDumps(txs, kernels, outputs, j).txOutputs == txs[j].txOutputs
    ensures forall j :: 0 <= j < |txs| ==>
      AfterDumps(txs, kernels, outputs, j).validated == Hit(txs, kernels, outputs, j)
  {}

  // ----- the three passes

  function Letter(dump: Dump): string {
    if dump.KernelDump? then "K" else "O"
  }

  /** A transaction after `h` lines of a dump have named it. */
  function Marked(t: TransactionInfo, dump: Dump, h: nat): TransactionInfo {
    t.(validated := t.validated || h > 0, flags := t.flags + Repeat(Letter(dump)[0], h))
  }

  lemma MarkedAgain(t: TransactionInfo, dump: Dump, h: nat)
    ensures Marked(t, dump, 0) == t
    ensures var m := Marked(t, dump, h);
      m.(validated := true, flags := m.flags + Letter(dump)) == Marked(t, dump, h + 1)
  {
    var r := Repeat(Letter(dump)[0], h);
    assert t.flags + Repeat(Letter(dump)[0], 0) == t.flags;
    assert t.flags + r + Letter(dump) == t.flags + Repeat(Letter(dump)[0], h + 1);
  }

  lemma HitsSnoc(txs: seq<TransactionInfo>, dump: Dump, lines: seq<string>, n: nat, i: nat)
    requires n < |lines|
    ensures Hits(txs, dump, lines[..n + 1], i) ==
      Hits(txs, dump, lines[..n], i) + if LastIndex(txs, LineKey(dump, lines[n])) == Some(i) then 1 else 0
  {
    assert lines[..n + 1][..n] == lines[..n];
  }

  /** `txs` is `txs0` after the first `n` lines of the dump. */
  ghost predicate Scanned(base: seq<TransactionInfo>, dump: Dump, lines: seq<string>, n: nat,
      txs0: seq<TransactionInfo>, txs: seq<TransactionInfo>)
  {
    n <= |lines| && |txs| == |txs0| &&
    forall i :: 0 <= i < |txs| ==> txs[i] == Marked(txs0[i], dump, Hits(base, dump, lines[..n], i))
  }

  lemma ScanStart(base: seq<TransactionInfo>, dump: Dump, lines: seq<string>, txs0: seq<TransactionInfo>)
    ensures Scanned(base, dump, lines, 0, txs0, txs0)
  {
    forall i | 0 <= i < |txs0| ensures Marked(txs0[i], dump, 0) == txs0[i] {
      MarkedAgain(txs0[i], dump, 0);
    }
  }

  lemma ScanLine(base: seq<TransactionInfo>, dump: Dump, lines: seq<string>, n: nat,
      txs0: seq<TransactionInfo>, txs: seq<TransactionInfo>)
    requires n < |lines| && |base| == |txs0| && Scanned(base, dump, lines, n, txs0, txs)
    ensures |txs| == |txs0|
    ensures var r := LastIndex(base, LineKey(dump, lines[n]));
      Scanned(base, dump, lines, n + 1, txs0, if r.None? then txs else
        txs[r.value := txs[r.value].(validated := true, flags := txs[r.value].flags + Letter(dump))])
  {
    hide Hits, Marked, Letter, LastIndex, LineKey;
    var r := LastIndex(base, LineKey(dump, lines[n]));
    forall i | 0 <= i < |txs|
      ensures Hits(base, dump, lines[..n + 1], i) == Hits(base, dump, lines[..n], i) + if r == Some(i) then 1 else 0
    {
      HitsSnoc(base, dump, lines, n, i);
    }
    if r.Some? {
      MarkedAgain(txs0[r.value], dump, Hits(base, dump, lines[..n], r.value));
    }
  }

  /** One dump: every line found in the index validates its transaction and adds a flag. */
  method ScanDump(txs0: seq<TransactionInfo>, dump: Dump, index: map<string, nat>,
      lines: seq<string>, ghost base: seq<TransactionInfo>)
    returns (txs: seq<TransactionInfo>)
    requires |base| == |txs0|
    requires forall line :: LastIndex(base, LineKey(dump, line)) == if line in index then Some(index[line]) else None
    ensures |txs| == |txs0|
    ensures forall i :: 0 <= i < |txs| ==> txs[i] == Marked(txs0[i], dump, Hits(base, dump, lines, i))
  {
    txs := txs0;
    ScanStart(base, dump, lines, txs0);
    hide *;
    for n := 0 to |lines|
      invariant Scanned(base, dump, lines, n, txs0, txs)
    {
      var line := lines[n];
      ScanLine(base, dump, lines, n, txs0, txs);
      assert LastIndex(base, LineKey(dump, line)) == if line in index then Some(index[line]) else None;
      if line in index {
        var i := index[line];
        txs := txs[i := txs[i].(validated := true, flags := txs[i].flags + Letter(dump))];
      }
    }
    ScanEnd(base, dump, lines, txs0, txs);
  }

  lemma ScanEnd(base: seq<TransactionInfo>, dump: Dump, lines: seq<string>,
      txs0: seq<TransactionInfo>, txs: seq<TransactionInfo>)
    requires Scanned(base, dump, lines, |lines|, txs0, txs)
    ensures |txs| == |txs0|
    ensures forall i :: 0 <= i < |txs| ==> txs[i] == Marked(txs0[i], dump, Hits(base, dump, lines, i))
  {
    assert lines[..|lines|] == lines;
  }

  /** `api.rs`, lines 623 to 636: does some output of `t` name a validated send transaction? */
  method SpendsValidated(txs: seq<TransactionInfo>, outs: seq<OutputData>, txIdToTx: map<u32, nat>,
      ghost base: seq<TransactionInfo>, ghost i: nat)
    returns (validated: bool)
    requires i < |base| == |txs| && outs == base[i].txOutputs
    requires forall m :: 0 <= m < |base| ==> txs[m].txLog == base[m].txLog
    requires forall id: u32 :: LastIndex(base, Id(id)) == if id in txIdToTx then Some(txIdToTx[id]) else None
    ensures validated <==> exists j :: 0 <= j < |base| && Edge(base, i, j) && txs[j].validated
  {
    validated := false;
    for k := 0 to |outs|
      invariant validated <==> exists n, j ::
        0 <= n < k && 0 <= j < |base| && SpentBy(base, i, n, j) && txs[j].validated
    {
      if outs[k].txLogEntry.Some? && outs[k].txLogEntry.value in txIdToTx {
        var j := txIdToTx[outs[k].txLogEntry.value];
        assert LastIndex(base, Id(outs[k].txLogEntry.value)) == Some(j);
        if (txs[j].txLog.txType.TxSent? || txs[j].txLog.txType.TxSentCancelled?) && txs[j].validated {
          assert SpentBy(base, i, k, j);
          validated := true;
        }
      }
    }
  }

  /** The cut-through pass: in order, validate what a validated send transaction spends. */
  method SpendPass(txs0: seq<TransactionInfo>, txIdToTx: map<u32, nat>, ghost base: seq<TransactionInfo>,
      ghost kernels: seq<string>, ghost outputs: seq<string>)
    returns (txs: seq<TransactionInfo>)
    requires |base| == |txs0|
    requires forall id: u32 :: LastIndex(base, Id(id)) == if id in txIdToTx then Some(txIdToTx[id]) else None
    requires forall i :: 0 <= i < |base| ==> txs0[i] == AfterDumps(base, kernels, outputs, i)
    ensures txs == Report(base, kernels, outputs)
  {
    txs := txs0;
    ghost var report := Report(base, kernels, outputs);
    PassFacts(base, kernels, outputs);
    hide *;
    for i := 0 to |txs|
      invariant |txs| == |base|
      invariant forall m :: 0 <= m < i ==> txs[m] == report[m]
      invariant forall m :: i <= m < |txs| ==> txs[m] == AfterDumps(base, kernels, outputs, m)
    {
      var spent := false;
      if !txs[i].validated {
        spent := SpendsValidated(txs, txs[i].txOutputs, txIdToTx, base, i);
        if spent {
          txs := txs[i := txs[i].(validated := true, flags := txs[i].flags + "S")];
        }
      }
      ReportEntry(base, kernels, outputs, i, spent);
    }
  }

  lemma MarkedTwice(t: TransactionInfo, k: nat, o: nat)
    requires !t.validated && t.flags == ""
    ensures Marked(Marked(t, KernelDump, k), OutputDump, o) ==
      t.(validated := k + o > 0, flags := Repeat('K', k) + Repeat('O', o))
  {
    assert "" + Repeat('K', k) == Repeat('K', k);
  }

  /** The in-memory part of the whole report, from the wallet's filtered outputs and transactions
      and the lines of the two dumps. With `checks` the merge may panic instead. */
  method TxsBulkValidate(checks: bool, walletOutputs: VecDeque<OutputData>, walletTransactions: VecDeque<TxLogEntry>,
      stored: map<string, seq<string>>, kernelLines: seq<string>, outputLines: seq<string>)
    returns (r: Outcome<(seq<TransactionInfo>, seq<OutputData>)>)
    modifies walletOutputs, walletTransactions
    ensures r == Panic <==> checks && RunTraps(old(walletTransactions.items), old(walletOutputs.items))
    ensures r != Panic ==>
      var st := Run(old(walletTransactions.items), Init(old(walletOutputs.items)));
      r == Ok((Report(PreparedAll(stored, st.res), kernelLines, outputLines), st.outputs))
  {
    var merged :- CalcBestMerge(checks, walletOutputs, walletTransactions);
    hide RunTraps, Run;
    var txs, kernelToTx, outputToTx, txIdToTx := Prepare(stored, merged.0);
    ghost var base := txs;
    txs := ScanDump(txs, KernelDump, kernelToTx, kernelLines, base);
    txs := ScanDump(txs, OutputDump, outputToTx, outputLines, base);
    forall i | 0 <= i < |base| ensures txs[i] == AfterDumps(base, kernelLines, outputLines, i) {
      MarkedTwice(base[i], Hits(base, KernelDump, kernelLines, i), Hits(base, OutputDump, outputLines, i));
    }
    txs := SpendPass(txs, txIdToTx, base, kernelLines, outputLines);
    r := Ok((txs, merged.1));
  }
}
