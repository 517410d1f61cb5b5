/** What the bulk report means, whatever the wallet and the dumps: who is validated and why, what
    the order and the amount of dump lines change, and what the flags tell. */
module BulkLaws {
  import opened Common
  import opened Merge
  import opened BulkValidation

  // ----- the indexes

  /** An index entry is the last transaction carrying the key, and there is one whenever some
      transaction carries it. */
  lemma IndexIsLast(txs: seq<TransactionInfo>, key: Key, i: nat)
    ensures LastIndex(txs, key) == Some(i) <==>
      i < |txs| && Carries(txs[i], key) && forall j :: i < j < |txs| ==> !Carries(txs[j], key)
  {}

  // ----- hits

  lemma {:induction false} HitIff(txs: seq<TransactionInfo>, dump: Dump, lines: seq<string>, i: nat)
    ensures Hits(txs, dump, lines, i) > 0 <==>
      exists line :: line in lines && LastIndex(txs, LineKey(dump, line)) == Some(i)
  {
    if lines != [] {
      var n := |lines| - 1;
      HitIff(txs, dump, lines[..n], i);
      assert lines == lines[..n] + [lines[n]];
    }
  }

  lemma {:induction false} HitsConcat(txs: seq<TransactionInfo>, dump: Dump, a: seq<string>, b: seq<string>, i: nat)
    ensures Hits(txs, dump, a + b, i) == Hits(txs, dump, a, i) + Hits(txs, dump, b, i)
  {
    if b == [] {
      assert a + b == a;
    } else {
      var b' := b[..|b| - 1];
      assert (a + b)[..|a + b| - 1] == a + b';
      HitsConcat(txs, dump, a, b', i);
    }
  }

  lemma CancelOne<T>(a: multiset<T>, b: multiset<T>, x: T)
    requires a + multiset{x} == b + multiset{x}
    ensures a == b
  {
    assert a == a + multiset{x} - multiset{x};
    assert b == b + multiset{x} - multiset{x};
  }

  /** Counting hits does not depend on the order of the lines. */
  lemma {:induction false} HitsPermute(txs: seq<TransactionInfo>, dump: Dump, a: seq<string>, b: seq<string>, i: nat)
    requires multiset(a) == multiset(b)
    ensures Hits(txs, dump, a, i) == Hits(txs, dump, b, i)
    decreases |a|
  {
    if a == [] {
      assert |multiset(b)| == 0;
    } else {
      var n, x := |a| - 1, a[|a| - 1];
      assert a == a[..n] + [x];
      assert x in multiset(b);
      var k :| 0 <= k < |b| && b[k] == x;
      var rest := b[..k] + b[k + 1..];
      assert b == b[..k] + ([x] + b[k + 1..]);
      assert multiset(a) == multiset(a[..n]) + multiset{x};
      assert multiset(b) == multiset(rest) + multiset{x};
      CancelOne(multiset(a[..n]), multiset(rest), x);
      HitsPermute(txs, dump, a[..n], rest, i);
      HitsConcat(txs, dump, b[..k], b[k + 1..], i);
      HitsConcat(txs, dump, b[..k], [x] + b[k + 1..], i);
      HitsConcat(txs, dump, [x], b[k + 1..], i);
      HitsConcat(txs, dump, a[..n], [x], i);
    }
  }

  // ----- order and monotonicity

  /** Every line of the first dump is a line of the second. */
  ghost predicate Within(a: seq<string>, b: seq<string>) {
    forall line :: line in a ==> line in b
  }

  /** Adding lines, in any order and any number of times, never loses a validation. */
  lemma {:induction false} MoreLinesValidateMore(txs: seq<TransactionInfo>, k1: seq<string>, o1: seq<string>,
      k2: seq<string>, o2: seq<string>, i: nat)
    requires Within(k1, k2) && Within(o1, o2) && Validated(txs, k1, o1, i)
    ensures Validated(txs, k2, o2, i)
    decreases i
  {
    forall j: nat | Hit(txs, k1, o1, j) ensures Hit(txs, k2, o2, j) {
      HitIff(txs, KernelDump, k1, j);
      HitIff(txs, KernelDump, k2, j);
      HitIff(txs, OutputDump, o1, j);
      HitIff(txs, OutputDump, o2, j);
    }
    if !Hit(txs, k1, o1, i) {
      var j :| 0 <= j < |txs| && Edge(txs, i, j) && KnownAt(txs, k1, o1, i, j);
      if j < i {
        MoreLinesValidateMore(txs, k1, o1, k2, o2, j);
      }
      assert KnownAt(txs, k2, o2, i, j);
    }
  }

  /** Who is validated depends only on which lines occur in the dumps. */
  lemma ValidationIgnoresOrder(txs: seq<TransactionInfo>, k1: seq<string>, o1: seq<string>,
      k2: seq<string>, o2: seq<string>, i: nat)
    requires Within(k1, k2) && Within(k2, k1) && Within(o1, o2) && Within(o2, o1)
    ensures Validated(txs, k1, o1, i) <==> Validated(txs, k2, o2, i)
  {
    if Validated(txs, k1, o1, i) { MoreLinesValidateMore(txs, k1, o1, k2, o2, i); }
    if Validated(txs, k2, o2, i) { MoreLinesValidateMore(txs, k2, o2, k1, o1, i); }
  }

  /** The whole report, flags included, is the same for any order of the same lines. */
  lemma ReportIgnoresOrder(txs: seq<TransactionInfo>, k1: seq<string>, o1: seq<string>,
      k2: seq<string>, o2: seq<string>)
    requires multiset(k1) == multiset(k2) && multiset(o1) == multiset(o2)
    ensures Report(txs, k1, o1) == Report(txs, k2, o2)
  {
    assert forall line :: line in k1 <==> line in multiset(k1);
    assert forall line :: line in k2 <==> line in multiset(k2);
    assert forall line :: line in o1 <==> line in multiset(o1);
    assert forall line :: line in o2 <==> line in multiset(o2);
    forall i | 0 <= i < |txs| ensures Report(txs, k1, o1)[i] == Report(txs, k2, o2)[i] {
      HitsPermute(txs, KernelDump, k1, k2, i);
      HitsPermute(txs, OutputDump, o1, o2, i);
      ValidationIgnoresOrder(txs, k1, o1, k2, o2, i);
    }
  }

  // ----- why a transaction is validated

  /** Step `m` of a chain is a spend, to a smaller index unless it is the last step. */
  ghost predicate Link(txs: seq<TransactionInfo>, chain: seq<nat>, m: nat) {
    m + 1 < |chain| && chain[m + 1] < |txs| && Edge(txs, chain[m], chain[m + 1]) &&
    (chain[m + 1] < chain[m] || m + 2 == |chain|)
  }

  /** `chain` starts at `i`, follows spends, and ends at a transaction named by a dump line. */
  ghost predicate Justifies(txs: seq<TransactionInfo>, kernels: seq<string>, outputs: seq<string>,
      i: nat, chain: seq<nat>) {
    chain != [] && chain[0] == i && Hit(txs, kernels, outputs, chain[|chain| - 1]) &&
    forall m :: 0 <= m < |chain| - 1 ==> Link(txs, chain, m)
  }

  lemma LinkShift(txs: seq<TransactionInfo>, i: nat, rest: seq<nat>, m: nat)
    ensures Link(txs, [i] + rest, m + 1) <==> Link(txs, rest, m)
  {}

  lemma {:induction false} ValidatedHasChain(txs: seq<TransactionInfo>,
      kernels: seq<string>, outputs: seq<string>, i: nat)
    returns (chain: seq<nat>)
    requires Validated(txs, kernels, outputs, i)
    ensures Justifies(txs, kernels, outputs, i, chain)
    decreases i
  {
    chain := [i];
    if !Hit(txs, kernels, outputs, i) {
      var j :| 0 <= j < |txs| && Edge(txs, i, j) && KnownAt(txs, kernels, outputs, i, j);
      var rest := [j];
      if j < i {
        rest := ValidatedHasChain(txs, kernels, outputs, j);
      }
      chain := [i] + rest;
      hide Hit, Validated, Edge, KnownAt;
      ExtendChain(txs, kernels, outputs, i, rest);
    }
  }

  lemma ExtendChain(txs: seq<TransactionInfo>, kernels: seq<string>, outputs: seq<string>, i: nat, rest: seq<nat>)
    requires rest != [] && rest[0] < |txs| && Justifies(txs, kernels, outputs, rest[0], rest)
    requires Edge(txs, i, rest[0]) && (rest[0] < i || |rest| == 1)
    ensures Justifies(txs, kernels, outputs, i, [i] + rest)
  {
    hide Hit, Edge;
    forall m | 0 <= m < |rest| ensures Link(txs, [i] + rest, m) {
      if m > 0 { LinkShift(txs, i, rest, m - 1); }
    }
  }

  lemma {:induction false} ChainValidates(txs: seq<TransactionInfo>,
      kernels: seq<string>, outputs: seq<string>, i: nat, chain: seq<nat>)
    requires Justifies(txs, kernels, outputs, i, chain)
    ensures Validated(txs, kernels, outputs, i)
    decreases |chain|
  {
    if |chain| > 1 {
      var j, rest := chain[1], chain[1..];
      assert chain == [i] + rest && Link(txs, chain, 0);
      if j < i {
        forall m | 0 <= m < |rest| - 1 ensures Link(txs, rest, m) {
          LinkShift(txs, i, rest, m);
        }
        ChainValidates(txs, kernels, outputs, j, rest);
      }
      assert KnownAt(txs, kernels, outputs, i, j);
    }
  }

  /** A transaction is validated exactly when a chain of spends leads from it to a dump hit. */
  lemma ValidatedIffChain(txs: seq<TransactionInfo>, kernels: seq<string>, outputs: seq<string>, i: nat)
    ensures Validated(txs, kernels, outputs, i) <==> exists chain :: Justifies(txs, kernels, outputs, i, chain)
  {
    if Validated(txs, kernels, outputs, i) {
      var chain := ValidatedHasChain(txs, kernels, outputs, i);
    } else {
      forall chain | Justifies(txs, kernels, outputs, i, chain) ensures false {
        ChainValidates(txs, kernels, outputs, i, chain);
      }
    }
  }

  ghost predicate Follows(txs: seq<TransactionInfo>, chain: seq<nat>, m: nat) {
    m + 1 < |chain| && chain[m + 1] < |txs| && Edge(txs, chain[m], chain[m + 1])
  }

  /** `chain` follows spends, in whatever direction, to a transaction named by a dump line. */
  ghost predicate Reaches(txs: seq<TransactionInfo>, kernels: seq<string>, outputs: seq<string>, chain: seq<nat>) {
    chain != [] && Hit(txs, kernels, outputs, chain[|chain| - 1]) &&
    forall m :: 0 <= m < |chain| - 1 ==> Follows(txs, chain, m)
  }

  /** When every spend points to an earlier transaction or to one a dump line names, the forward
      pass validates everything from which a chain of spends leads to a hit. */
  lemma {:induction false} BackwardSpendsComplete(txs: seq<TransactionInfo>,
      kernels: seq<string>, outputs: seq<string>, chain: seq<nat>)
    requires forall a, b :: Edge(txs, a, b) && !Hit(txs, kernels, outputs, b) ==> b < a
    requires Reaches(txs, kernels, outputs, chain)
    ensures Validated(txs, kernels, outputs, chain[0])
    decreases |chain|
  {
    if |chain| > 1 {
      var rest := chain[1..];
      forall m | 0 <= m < |rest| - 1 ensures Follows(txs, rest, m) {
        assert Follows(txs, chain, m + 1);
      }
      BackwardSpendsComplete(txs, kernels, outputs, rest);
      assert Follows(txs, chain, 0) && KnownAt(txs, kernels, outputs, chain[0], chain[1]);
    }
  }

  /** The forward pass misses spends that point forward: here the first transaction is spent by the
      second, the second by the third, and the kernel of the third is in the dump; the second is
      validated and the first is not. */
  lemma ForwardChainMissed(txs: seq<TransactionInfo>)
    requires |txs| == 3 && (forall i :: 0 <= i < 3 ==> txs[i].txLog.id == i && txs[i].txLog.txType == TxSent)
    requires forall i :: 0 <= i < 2 ==> |txs[i].txOutputs| == 1 && txs[i].txOutputs[0].txLogEntry == Some(i + 1)
    requires txs[0].txKernels == [] && txs[1].txKernels == [] && txs[2].txKernels == ["k"] && txs[2].txOutputs == []
    ensures Validated(txs, ["k"], [], 1) && !Validated(txs, ["k"], [], 0)
    ensures Edge(txs, 0, 1)
  {
    IndexIsLast(txs, Kernel("k"), 2);
    forall id: u32, j: nat | id < 3 ensures LastIndex(txs, Id(id)) == Some(j) <==> j == id {
      IndexIsLast(txs, Id(id), j);
    }
    forall i: nat ensures Hit(txs, ["k"], [], i) <==> i == 2 {
      HitIff(txs, KernelDump, ["k"], i);
    }
    assert SpentBy(txs, 0, 0, 1) && SpentBy(txs, 1, 0, 2);
    assert KnownAt(txs, ["k"], [], 1, 2);
  }

  // ----- flags

  /** The flags of a report line are kernel letters then output letters, or a single S; they are
      empty exactly when the transaction is not validated, and S exactly when no line names it. */
  lemma FlagsTell(txs: seq<TransactionInfo>, kernels: seq<string>, outputs: seq<string>, i: nat)
    requires i < |txs|
    ensures var t := Report(txs, kernels, outputs)[i];
      (t.flags != "" <==> t.validated) &&
      (t.flags == "S" <==> t.validated && !Hit(txs, kernels, outputs, i)) &&
      (t.flags == "S" || exists k: nat, o: nat :: t.flags == Repeat('K', k) + Repeat('O', o))
  {
    var k, o := Hits(txs, KernelDump, kernels, i), Hits(txs, OutputDump, outputs, i);
    var t := Report(txs, kernels, outputs)[i];
    if Hit(txs, kernels, outputs, i) {
      assert t.flags == Repeat('K', k) + Repeat('O', o);
      assert t.flags[0] == 'K' || t.flags[0] == 'O';
    } else if !t.validated {
      assert t.flags == Repeat('K', 0) + Repeat('O', 0);
    }
  }

  /** A transaction received, or received and cancelled, is never validated by a kernel: whatever
      slates are stored, its flags hold no K. */
  lemma ReceivedHasNoKernelFlag(stored: map<string, seq<string>>, entries: seq<Entry>,
      kernels: seq<string>, outputs: seq<string>, i: nat)
    requires i < |entries| && (entries[i].tx.txType.TxReceived? || entries[i].tx.txType.TxReceivedCancelled?)
    ensures 'K' !in Report(PreparedAll(stored, entries), kernels, outputs)[i].flags
  {
    var txs := PreparedAll(stored, entries);
    HitIff(txs, KernelDump, kernels, i);
    forall line ensures LastIndex(txs, Kernel(line)) != Some(i) {
      IndexIsLast(txs, Kernel(line), i);
    }
    assert Repeat('K', 0) == "";
  }

  // ----- the report in terms of the merged transactions

  /** The kernel is the transaction's own, or one of its stored slate; received ones have none. */
  ghost predicate HasKernel(stored: map<string, seq<string>>, tx: TxLogEntry, line: string) {
    tx.txType != TxReceived && tx.txType != TxReceivedCancelled &&
    (tx.kernelExcess == Some(line) ||
     (tx.slateId.Some? && tx.slateId.value in stored && line in stored[tx.slateId.value]))
  }

  ghost predicate HasCommit(e: Entry, line: string) {
    exists o :: o in e.outputs && o.commit == Some(line)
  }

  /** A line of the kernel dump names the last transaction with that kernel. */
  ghost predicate KernelNames(stored: map<string, seq<string>>, entries: seq<Entry>, line: string, i: nat) {
    i < |entries| && HasKernel(stored, entries[i].tx, line) &&
    forall j :: i < j < |entries| ==> !HasKernel(stored, entries[j].tx, line)
  }

  /** A line of the output dump names the last transaction with an output of that commitment. */
  ghost predicate CommitNames(entries: seq<Entry>, line: string, i: nat) {
    i < |entries| && HasCommit(entries[i], line) && forall j :: i < j < |entries| ==> !HasCommit(entries[j], line)
  }

  ghost predicate IdNames(entries: seq<Entry>, id: u32, i: nat) {
    i < |entries| && entries[i].tx.id == id && forall j :: i < j < |entries| ==> entries[j].tx.id != id
  }

  /** An output of transaction `i` names by its log entry the send transaction `j`. */
  ghost predicate SpentFrom(entries: seq<Entry>, i: nat, j: nat) {
    i < |entries| && j < |entries| && (entries[j].tx.txType == TxSent || entries[j].tx.txType == TxSentCancelled) &&
    exists o :: o in entries[i].outputs && o.txLogEntry.Some? && IdNames(entries, o.txLogEntry.value, j)
  }

  lemma CarriesKernel(stored: map<string, seq<string>>, e: Entry, line: string)
    ensures Carries(Prepared(stored, e), Kernel(line)) <==> HasKernel(stored, e.tx, line)
  {}

  lemma CarriesCommit(stored: map<string, seq<string>>, e: Entry, line: string)
    ensures Carries(Prepared(stored, e), Commit(line)) <==> HasCommit(e, line)
  {}

  lemma LineNames(stored: map<string, seq<string>>, entries: seq<Entry>, line: string, i: nat)
    ensures var txs := PreparedAll(stored, entries);
      (LastIndex(txs, Kernel(line)) == Some(i) <==> KernelNames(stored, entries, line, i)) &&
      (LastIndex(txs, Commit(line)) == Some(i) <==> CommitNames(entries, line, i))
  {
    var txs := PreparedAll(stored, entries);
    forall j | 0 <= j < |entries|
      ensures Carries(txs[j], Kernel(line)) <==> HasKernel(stored, entries[j].tx, line)
      ensures Carries(txs[j], Commit(line)) <==> HasCommit(entries[j], line)
    {
      CarriesKernel(stored, entries[j], line);
      CarriesCommit(stored, entries[j], line);
    }
    IndexIsLast(txs, Kernel(line), i);
    IndexIsLast(txs, Commit(line), i);
    hide LastIndex, Carries, Prepared, HasKernel, HasCommit;
  }

  lemma IdIs(stored: map<string, seq<string>>, entries: seq<Entry>, id: u32, i: nat)
    ensures LastIndex(PreparedAll(stored, entries), Id(id)) == Some(i) <==> IdNames(entries, id, i)
  {
    var txs := PreparedAll(stored, entries);
    forall j | 0 <= j < |entries| ensures Carries(txs[j], Id(id)) <==> entries[j].tx.id == id {}
    IndexIsLast(txs, Id(id), i);
    hide LastIndex, Carries, Prepared;
  }

  lemma EdgeIs(stored: map<string, seq<string>>, entries: seq<Entry>, i: nat, j: nat)
    ensures Edge(PreparedAll(stored, entries), i, j) <==> SpentFrom(entries, i, j)
  {
    var txs := PreparedAll(stored, entries);
    forall id: u32 ensures LastIndex(txs, Id(id)) == Some(j) <==> IdNames(entries, id, j) {
      IdIs(stored, entries, id, j);
    }
    hide LastIndex, IdNames;
    if i < |entries| {
      assert txs[i].txOutputs == entries[i].outputs;
      if Edge(txs, i, j) {
        var k :| 0 <= k < |txs[i].txOutputs| && SpentBy(txs, i, k, j);
        assert txs[i].txOutputs[k] in entries[i].outputs;
      }
      if SpentFrom(entries, i, j) {
        var o :| o in entries[i].outputs && o.txLogEntry.Some? && IdNames(entries, o.txLogEntry.value, j);
        var k :| 0 <= k < |entries[i].outputs| && entries[i].outputs[k] == o;
        assert SpentBy(txs, i, k, j);
      }
    }
  }

  /** How many of the lines satisfy `p`. */
  ghost function Count(lines: seq<string>, p: string -> bool): nat {
    |set m: nat | m < |lines| && p(lines[m])|
  }

  lemma CountSnoc(lines: seq<string>, x: string, p: string -> bool)
    ensures Count(lines + [x], p) == Count(lines, p) + if p(x) then 1 else 0
  {
    var n := |lines|;
    var before, all := set m: nat | m < n && p(lines[m]), set m: nat | m < n + 1 && p((lines + [x])[m]);
    assert all == before + if p(x) then {n} else {};
    assert n !in before;
  }

  lemma {:induction false} CountPositive(lines: seq<string>, p: string -> bool)
    ensures 0 < Count(lines, p) <==> exists line :: line in lines && p(line)
  {
    if lines != [] {
      var n := |lines| - 1;
      assert lines == lines[..n] + [lines[n]];
      CountPositive(lines[..n], p);
      CountSnoc(lines[..n], lines[n], p);
    }
  }

  lemma {:induction false} HitsCount(txs: seq<TransactionInfo>, dump: Dump, lines: seq<string>,
      i: nat, p: string -> bool)
    requires forall line :: p(line) <==> LastIndex(txs, LineKey(dump, line)) == Some(i)
    ensures Hits(txs, dump, lines, i) == Count(lines, p)
  {
    hide Count, LastIndex, LineKey;
    if lines != [] {
      var n := |lines| - 1;
      assert lines == lines[..n] + [lines[n]];
      HitsCount(txs, dump, lines[..n], i, p);
      CountSnoc(lines[..n], lines[n], p);
    } else {
      CountPositive(lines, p);
    }
  }

  ghost function Ks(stored: map<string, seq<string>>, entries: seq<Entry>, kernels: seq<string>, i: nat): nat {
    Count(kernels, line => KernelNames(stored, entries, line, i))
  }

  ghost function Os(entries: seq<Entry>, outputs: seq<string>, i: nat): nat {
    Count(outputs, line => CommitNames(entries, line, i))
  }

  lemma HitsAre(stored: map<string, seq<string>>, entries: seq<Entry>,
      kernels: seq<string>, outputs: seq<string>, i: nat)
    ensures var txs := PreparedAll(stored, entries);
      Hits(txs, KernelDump, kernels, i) == Ks(stored, entries, kernels, i) &&
      Hits(txs, OutputDump, outputs, i) == Os(entries, outputs, i) &&
      (Hit(txs, kernels, outputs, i) <==> 0 < Ks(stored, entries, kernels, i) + Os(entries, outputs, i))
  {
    var txs := PreparedAll(stored, entries);
    forall line
      ensures LastIndex(txs, LineKey(KernelDump, line)) == Some(i) <==> KernelNames(stored, entries, line, i)
      ensures LastIndex(txs, LineKey(OutputDump, line)) == Some(i) <==> CommitNames(entries, line, i)
    {
      LineNames(stored, entries, line, i);
    }
    hide KernelNames, CommitNames, LastIndex, LineKey, Hits, Count, PreparedAll;
    HitsCount(txs, KernelDump, kernels, i, line => KernelNames(stored, entries, line, i));
    HitsCount(txs, OutputDump, outputs, i, line => CommitNames(entries, line, i));
  }

  lemma LettersOf(k: nat, o: nat)
    ensures var flags := Repeat('K', k) + Repeat('O', o);
      ('K' in flags <==> 0 < k) && ('O' in flags <==> 0 < o) && 'S' !in flags
  {
    var flags := Repeat('K', k) + Repeat('O', o);
    if 0 < k { assert flags[0] == 'K'; }
    if 0 < o { assert flags[k] == 'O'; }
  }

  /** Transaction `j` is validated when the cut-through pass comes to transaction `i`: the pass has been
      there already, or a dump line named it. */
  ghost predicate InTime(report: seq<TransactionInfo>, i: nat, j: nat)
    requires j < |report|
  {
    if j < i then report[j].validated else 'K' in report[j].flags || 'O' in report[j].flags
  }

  lemma FlagsAre(stored: map<string, seq<string>>, entries: seq<Entry>,
      kernels: seq<string>, outputs: seq<string>, i: nat)
    requires i < |entries|
    ensures var t := Report(PreparedAll(stored, entries), kernels, outputs)[i];
      var k, o := Ks(stored, entries, kernels, i), Os(entries, outputs, i);
      ('K' in t.flags <==> 0 < k) && ('O' in t.flags <==> 0 < o) && ('S' in t.flags <==> t.validated && k + o == 0) &&
      (0 < k + o ==> t.validated && t.flags == seq(k, _ => 'K') + seq(o, _ => 'O')) &&
      (k + o == 0 ==> t.flags == if t.validated then "S" else "")
  {
    HitsAre(stored, entries, kernels, outputs, i);
    var k, o := Ks(stored, entries, kernels, i), Os(entries, outputs, i);
    LettersOf(k, o);
    assert Repeat('K', k) == seq(k, _ => 'K') && Repeat('O', o) == seq(o, _ => 'O');
    assert Repeat('K', k) + Repeat('O', o) == [] <==> k + o == 0;
    hide Hits, Hit, Ks, Os, Validated, Repeat;
  }

  lemma InTimeIs(stored: map<string, seq<string>>, entries: seq<Entry>, kernels: seq<string>, outputs: seq<string>,
      i: nat, j: nat)
    requires j < |entries|
    ensures var txs := PreparedAll(stored, entries);
      InTime(Report(txs, kernels, outputs), i, j) <==> KnownAt(txs, kernels, outputs, i, j)
  {
    HitsAre(stored, entries, kernels, outputs, j);
    FlagsAre(stored, entries, kernels, outputs, j);
    hide Hits, Hit, Ks, Os, PreparedAll, Edge, Flags;
  }

  /** The report of a wallet's merged transactions. Each keeps its log entry and its outputs. It has one
      K for every kernel line that names it and one O for every output line that does. If there is
      neither, it is validated, with an S, exactly when an output of it names a send transaction that is
      validated in time. */
  lemma ReportExact(stored: map<string, seq<string>>, entries: seq<Entry>,
      kernels: seq<string>, outputs: seq<string>, i: nat)
    requires i < |entries|
    ensures var r := Report(PreparedAll(stored, entries), kernels, outputs);
      |r| == |entries| && r[i].txLog == entries[i].tx && r[i].txOutputs == entries[i].outputs
    ensures var t := Report(PreparedAll(stored, entries), kernels, outputs)[i];
      ('K' in t.flags <==> exists line :: line in kernels && KernelNames(stored, entries, line, i)) &&
      ('O' in t.flags <==> exists line :: line in outputs && CommitNames(entries, line, i))
    ensures var r := Report(PreparedAll(stored, entries), kernels, outputs);
      ('S' in r[i].flags <==>
        'K' !in r[i].flags && 'O' !in r[i].flags && exists j: nat :: SpentFrom(entries, i, j) && InTime(r, i, j))
    ensures var t := Report(PreparedAll(stored, entries), kernels, outputs)[i];
      var k, o := Ks(stored, entries, kernels, i), Os(entries, outputs, i);
      (t.validated <==> t.flags != "") &&
      t.flags == if 0 < k + o then seq(k, _ => 'K') + seq(o, _ => 'O') else if 'S' in t.flags then "S" else ""
  {
    var txs := PreparedAll(stored, entries);
    var r := Report(txs, kernels, outputs);
    FlagsAre(stored, entries, kernels, outputs, i);
    CountPositive(kernels, line => KernelNames(stored, entries, line, i));
    CountPositive(outputs, line => CommitNames(entries, line, i));
    HitsAre(stored, entries, kernels, outputs, i);
    SpentInTime(stored, entries, kernels, outputs, i);
    FlagsTell(txs, kernels, outputs, i);
    hide Count, KernelNames, CommitNames, SpentFrom, InTime, Flags, Hit;
  }

  /** Without a hit, validation is a spend by a send transaction validated in time. */
  lemma SpentInTime(stored: map<string, seq<string>>, entries: seq<Entry>,
      kernels: seq<string>, outputs: seq<string>, i: nat)
    requires i < |entries|
    ensures var txs := PreparedAll(stored, entries);
      var r := Report(txs, kernels, outputs);
      !Hit(txs, kernels, outputs, i) ==>
        (r[i].validated <==> exists j: nat :: SpentFrom(entries, i, j) && InTime(r, i, j))
  {
    var txs := PreparedAll(stored, entries);
    forall j: nat ensures Edge(txs, i, j) <==> SpentFrom(entries, i, j) {
      EdgeIs(stored, entries, i, j);
    }
    forall j: nat | j < |entries|
      ensures InTime(Report(txs, kernels, outputs), i, j) <==> KnownAt(txs, kernels, outputs, i, j)
    {
      InTimeIs(stored, entries, kernels, outputs, i, j);
    }
    assert forall j: nat :: SpentFrom(entries, i, j) ==> j < |entries|;
    hide Edge, SpentFrom, InTime, KnownAt, Hit, Flags;
  }
}
