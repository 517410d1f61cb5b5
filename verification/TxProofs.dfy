/** Checking a transaction proof (`verify_tx_proof`) over idealised commitments: a commitment
    r*G + v*H with independent generators is the pair of its scalars modulo the group order. */
module TxProofs {
  import opened Common
  import opened Positional
  import opened Sequences

  /** The order of the secp256k1 group. */
  function Order(): (q: nat)
    ensures 0x1_0000_0000_0000_0000_0000_0000_0000_0000_0000_0000 < q
  {
    0xFFFFFFFF_FFFFFFFF_FFFFFFFF_FFFFFFFE_BAAEDCE6_AF48A03B_BFD25E8C_D0364141
  }

  /** It is the order of section 2.4.1 of SEC 2, as a difference from 2^256. */
  lemma OrderIs()
    ensures Order() == Pow(256, 32) - 0x1_45512319_50B75FC4_402DA173_2FC9BEBF
  {
    PowAdd(256, 2, 2);
    assert Pow(256, 4) == 0x1_0000_0000;
    PowAdd(256, 4, 4);
    PowAdd(256, 8, 8);
    PowAdd(256, 16, 16);
  }

  /** The scalar an integer stands for. */
  function Residue(x: int): nat {
    x % Order()
  }

  datatype Point = Point(r: nat, v: nat)

  const IDENTITY := Point(0, 0)

  datatype TxProof = TxProof(address: string, amount: u64, inputs: seq<Point>, outputs: seq<Point>)

  datatype Slate = Slate(inputs: seq<Point>, outputs: seq<Point>, participants: seq<Point>, offset: nat, fee: u64)

  datatype Verified = Verified(
    destination: Option<string>, address: string, amount: u64, outputs: seq<Point>, excess: Point)

  function SumR(ps: seq<Point>): nat {
    if ps == [] then 0 else SumR(ps[..|ps| - 1]) + ps[|ps| - 1].r
  }

  function SumV(ps: seq<Point>): nat {
    if ps == [] then 0 else SumV(ps[..|ps| - 1]) + ps[|ps| - 1].v
  }

  function Reduce(r: int, v: int): Point {
    Point(Residue(r), Residue(v))
  }

  /** `commit_sum`: what is positive less what is negative; the identity is no commitment. */
  function CommitSum(positive: seq<Point>, negative: seq<Point>): Outcome<Point> {
    var p := Reduce(SumR(positive) - SumR(negative), SumV(positive) - SumV(negative));
    if p == IDENTITY then Err(Secp) else Ok(p)
  }

  /** `from_combination`: the sum of public keys; the identity is no key. */
  function Combine(keys: seq<Point>): Outcome<Point> {
    var p := Reduce(SumR(keys), SumV(keys));
    if p == IDENTITY then Err(VerifyProof) else Ok(p)
  }

  function CommitValue(v: u64): Point {
    Point(0, v)
  }

  /** The commitments of `ps` that are, or are not, listed in `listed`. */
  function Select(ps: seq<Point>, listed: seq<Point>, keep: bool): seq<Point> {
    if ps == [] then [] else
      var p := ps[|ps| - 1];
      Select(ps[..|ps| - 1], listed, keep) + if (p in listed) == keep then [p] else []
  }

  /** `extracted` is what the signed, encrypted message of the proof yields, if it is authentic. */
  function VerifyTxProof(proof: TxProof, extracted: Option<(Option<string>, Slate)>): Outcome<Verified> {
    match extracted
    case None => Err(VerifyProof)
    case Some((destination, slate)) =>
      var inputs := Select(slate.inputs, proof.inputs, false);
      var outputs := Select(slate.outputs, proof.outputs, false);
      if |slate.participants| < 2 then Panic else
        var excessSum :- Combine(slate.participants);
        var commitExcess :- CommitSum(outputs, inputs + [CommitValue(proof.amount)]);
        if slate.participants[1] != commitExcess then Err(VerifyProof) else
          var excessSumCom :-
            CommitSum(slate.outputs + [CommitValue(slate.fee)], slate.inputs + [Point(slate.offset, 0)]);
          if excessSumCom != excessSum then Err(VerifyProof)
          else Ok(Verified(destination, proof.address, proof.amount, outputs, excessSumCom))
  }

  // ----- sums

  lemma SumSnoc(ps: seq<Point>, p: Point)
    ensures SumR(ps + [p]) == SumR(ps) + p.r && SumV(ps + [p]) == SumV(ps) + p.v
  {
    assert (ps + [p])[..|ps|] == ps;
  }

  /** A list splits into the listed and the other commitments without losing value or blinding. */
  lemma {:induction false} SelectSplits(ps: seq<Point>, listed: seq<Point>)
    ensures SumV(Select(ps, listed, true)) + SumV(Select(ps, listed, false)) == SumV(ps)
    ensures SumR(Select(ps, listed, true)) + SumR(Select(ps, listed, false)) == SumR(ps)
    ensures |Select(ps, listed, true)| + |Select(ps, listed, false)| == |ps|
  {
    if ps != [] {
      var ps', p := ps[..|ps| - 1], ps[|ps| - 1];
      SelectSplits(ps', listed);
      SumSnoc(Select(ps', listed, p in listed), p);
      assert Select(ps', listed, p !in listed) + [] == Select(ps', listed, p !in listed);
    }
  }

  lemma CountSnoc(ps: seq<Point>, x: Point, p: Point)
    ensures multiset(ps + [x])[p] == multiset(ps)[p] + if x == p then 1 else 0
  {}

  lemma {:induction false} SelectCount(ps: seq<Point>, listed: seq<Point>, keep: bool, p: Point)
    ensures multiset(Select(ps, listed, keep))[p] == if (p in listed) == keep then multiset(ps)[p] else 0
  {
    if ps != [] {
      var ps', x := ps[..|ps| - 1], ps[|ps| - 1];
      var kept := Select(ps', listed, keep);
      SelectCount(ps', listed, keep, p);
      CountSnoc(ps', x, p);
      CountSnoc(kept, x, p);
      assert ps == ps' + [x] && kept + [] == kept;
    }
  }

  lemma {:induction false} SelectOrder(ps: seq<Point>, listed: seq<Point>, keep: bool)
    ensures Subsequence(Select(ps, listed, keep), ps)
  {
    if ps != [] {
      var ps', x := ps[..|ps| - 1], ps[|ps| - 1];
      SelectOrder(ps', listed, keep);
      SubsequenceSnoc(Select(ps', listed, keep), ps', x);
      hide Subsequence;
      assert ps == ps' + [x] && Select(ps', listed, keep) + [] == Select(ps', listed, keep);
    }
  }

  /** The filter keeps exactly the listed commitments, or exactly the others, each as often as it
      occurs and in their order. */
  lemma SelectExact(ps: seq<Point>, listed: seq<Point>, keep: bool)
    ensures forall p :: multiset(Select(ps, listed, keep))[p] == if (p in listed) == keep then multiset(ps)[p] else 0
    ensures Subsequence(Select(ps, listed, keep), ps)
  {
    hide *;
    forall p ensures multiset(Select(ps, listed, keep))[p] == if (p in listed) == keep then multiset(ps)[p] else 0 {
      SelectCount(ps, listed, keep, p);
    }
    SelectOrder(ps, listed, keep);
  }

  function Times(k: int): int {
    k * Order()
  }

  ghost predicate Congruent(a: int, b: int) {
    exists k :: a - b == Times(k)
  }

  lemma TimesAdds(k: int, m: int)
    ensures Times(k + m) == Times(k) + Times(m) && Times(-k) == -Times(k) && Times(0) == 0
  {
    hide Order;
  }

  lemma TimesSmall(k: int)
    requires 0 - Order() < Times(k) < Order()
    ensures k == 0
  {
    hide Order;
    var q := Order();
    if k >= 1 { MulLe(1, k, q); }
    if k <= -1 { MulLe(k, -1, q); }
  }

  lemma CongruentAdd(a: int, b: int, c: int, d: int)
    requires Congruent(a, b) && Congruent(c, d)
    ensures Congruent(a + c, b + d) && Congruent(a - c, b - d) && Congruent(b, a)
  {
    hide Times;
    var k :| a - b == Times(k);
    var m :| c - d == Times(m);
    TimesAdds(k, m);
    TimesAdds(k, -m);
    TimesAdds(m, m);
    assert b - a == Times(-k);
    assert a - c - (b - d) == Times(k + -m);
  }

  lemma CongruentSmall(a: int, b: int)
    requires Congruent(a, b) && b - Order() < a < b + Order()
    ensures a == b
  {
    hide Times, Order;
    var k :| a - b == Times(k);
    TimesSmall(k);
    TimesAdds(0, 0);
  }

  lemma ResidueFacts(a: int)
    ensures a - Residue(a) == Times(a / Order()) && 0 <= Residue(a) < Order()
  {
    hide Order;
  }

  /** Scalars are equal exactly when the integers they stand for are congruent. */
  lemma SameResidue(a: int, b: int)
    ensures Residue(a) == Residue(b) <==> Congruent(a, b)
  {
    hide Residue, Times, Order;
    var q := Order();
    ResidueFacts(a);
    ResidueFacts(b);
    var k, m := a / q, b / q;
    TimesAdds(k, -m);
    TimesAdds(m, m);
    if Residue(a) == Residue(b) {
      assert a - b == Times(k + -m);
    }
    if Congruent(a, b) {
      var n :| a - b == Times(n);
      TimesAdds(n, -(k + -m));
      TimesAdds(k + -m, 0);
      TimesSmall(n + -(k + -m));
      TimesAdds(0, 0);
    }
  }

  lemma ResidueZero()
    ensures Residue(0) == 0
  {
    hide Order;
  }

  // ----- what a verified proof says about values

  /** The participant's key is a multiple of G alone, as an honest public key is. */
  ghost predicate Blinding(ps: seq<Point>) {
    forall i :: 0 <= i < |ps| ==> ps[i].v == 0
  }

  lemma {:induction false} BlindingHasNoValue(ps: seq<Point>)
    requires Blinding(ps)
    ensures SumV(ps) == 0
  {
    if ps != [] { BlindingHasNoValue(ps[..|ps| - 1]); }
  }

  lemma TwoParticipants(proof: TxProof, destination: Option<string>, slate: Slate)
    requires VerifyTxProof(proof, Some((destination, slate))).Ok?
    ensures |slate.participants| >= 2 && (Blinding(slate.participants) ==> slate.participants[1].v == 0)
  {
    hide Reduce;
  }

  /** The recipient's outputs are worth the recipient's inputs plus the amount. */
  lemma RecipientReceives(proof: TxProof, destination: Option<string>, slate: Slate)
    requires VerifyTxProof(proof, Some((destination, slate))).Ok? && slate.participants[1].v == 0
    ensures Congruent(SumV(Select(slate.outputs, proof.outputs, false)),
      SumV(Select(slate.inputs, proof.inputs, false)) + proof.amount)
  {
    hide Residue, Congruent, SumV, SumR, Select;
    var inputs, outputs := Select(slate.inputs, proof.inputs, false), Select(slate.outputs, proof.outputs, false);
    SumSnoc(inputs, CommitValue(proof.amount));
    Cancelled(SumV(outputs), SumV(inputs) + proof.amount);
  }

  /** A difference whose scalar is zero relates congruent numbers. */
  lemma Cancelled(a: int, b: int)
    requires Residue(a - b) == 0
    ensures Congruent(a, b)
  {
    hide Residue, Times;
    ResidueZero();
    SameResidue(a - b, 0);
    var k :| a - b - 0 == Times(k);
  }

  /** The transaction as a whole balances up to the fee. */
  lemma KernelBalances(proof: TxProof, destination: Option<string>, slate: Slate)
    requires VerifyTxProof(proof, Some((destination, slate))).Ok? && Blinding(slate.participants)
    ensures Congruent(SumV(slate.inputs), SumV(slate.outputs) + slate.fee)
  {
    hide Residue, Congruent, SumV, SumR, Select;
    BlindingHasNoValue(slate.participants);
    ResidueZero();
    SumSnoc(slate.outputs, CommitValue(slate.fee));
    SumSnoc(slate.inputs, Point(slate.offset, 0));
    var a, b := SumV(slate.outputs) + slate.fee, SumV(slate.inputs);
    Cancelled(a, b);
    CongruentAdd(a, b, a, b);
  }

  /** The sender's inputs pay the sender's own outputs, the amount and the fee. */
  lemma SenderPays(proof: TxProof, destination: Option<string>, slate: Slate)
    requires VerifyTxProof(proof, Some((destination, slate))).Ok? && Blinding(slate.participants)
    ensures Congruent(SumV(Select(slate.inputs, proof.inputs, true)),
      SumV(Select(slate.outputs, proof.outputs, true)) + proof.amount + slate.fee)
  {
    hide *;
    TwoParticipants(proof, destination, slate);
    RecipientReceives(proof, destination, slate);
    KernelBalances(proof, destination, slate);
    SelectSplits(slate.inputs, proof.inputs);
    SelectSplits(slate.outputs, proof.outputs);
    SenderArithmetic(SumV(Select(slate.inputs, proof.inputs, true)), SumV(Select(slate.inputs, proof.inputs, false)),
      SumV(Select(slate.outputs, proof.outputs, true)), SumV(Select(slate.outputs, proof.outputs, false)),
      proof.amount, slate.fee);
  }

  lemma SenderArithmetic(inSender: int, inOther: int, outSender: int, outOther: int, amount: int, fee: int)
    requires Congruent(inSender + inOther, outSender + outOther + fee)
    requires Congruent(outOther, inOther + amount)
    ensures Congruent(inSender, outSender + amount + fee)
  {
    CongruentAdd(inSender + inOther, outSender + outOther + fee, outOther, inOther + amount);
  }

  /** A commitment whose range proof holds: its value is a 64-bit number. */
  ghost predicate InRange(ps: seq<Point>) {
    |ps| <= U64 && forall i :: 0 <= i < |ps| ==> ps[i].v < U64
  }

  lemma {:induction false} SmallSum(ps: seq<Point>)
    requires forall i :: 0 <= i < |ps| ==> ps[i].v < U64
    ensures SumV(ps) <= |ps| * U64
  {
    if ps != [] { SmallSum(ps[..|ps| - 1]); }
  }

  lemma RangeBound(ps: seq<Point>)
    requires InRange(ps)
    ensures SumV(ps) <= 0x1_0000_0000_0000_0000_0000_0000_0000_0000
  {
    SmallSum(ps);
  }

  /** With range proofs the congruences are equalities: verified values are conserved exactly, for
      the recipient, for the sender, and for the whole transaction. */
  lemma ValuesConserved(proof: TxProof, destination: Option<string>, slate: Slate)
    requires VerifyTxProof(proof, Some((destination, slate))).Ok? && Blinding(slate.participants)
    requires InRange(slate.inputs) && InRange(slate.outputs)
    ensures SumV(Select(slate.outputs, proof.outputs, false)) ==
      SumV(Select(slate.inputs, proof.inputs, false)) + proof.amount
    ensures SumV(Select(slate.inputs, proof.inputs, true)) ==
      SumV(Select(slate.outputs, proof.outputs, true)) + proof.amount + slate.fee
    ensures SumV(slate.inputs) == SumV(slate.outputs) + slate.fee
  {
    hide *;
    TwoParticipants(proof, destination, slate);
    RecipientReceives(proof, destination, slate);
    KernelBalances(proof, destination, slate);
    SelectSplits(slate.inputs, proof.inputs);
    SelectSplits(slate.outputs, proof.outputs);
    RangeBound(slate.inputs);
    RangeBound(slate.outputs);
    ConservedArithmetic(SumV(Select(slate.inputs, proof.inputs, true)), SumV(Select(slate.inputs, proof.inputs, false)),
      SumV(Select(slate.outputs, proof.outputs, true)), SumV(Select(slate.outputs, proof.outputs, false)),
      proof.amount, slate.fee);
  }

  lemma ConservedArithmetic(inSender: nat, inOther: nat, outSender: nat, outOther: nat, amount: u64, fee: u64)
    requires Congruent(inSender + inOther, outSender + outOther + fee) && Congruent(outOther, inOther + amount)
    requires inSender + inOther <= 0x1_0000_0000_0000_0000_0000_0000_0000_0000
    requires outSender + outOther <= 0x1_0000_0000_0000_0000_0000_0000_0000_0000
    ensures outOther == inOther + amount && inSender == outSender + amount + fee
  {
    hide Order, Times, Congruent;
    CongruentSmall(inSender + inOther, outSender + outOther + fee);
    CongruentSmall(outOther, inOther + amount);
  }

  /** A proof binds its amount: with the same message and the same lists, no other amount
      verifies. Nothing is assumed about the participants' keys. */
  lemma AmountIsBound(proof: TxProof, amount: u64, extracted: Option<(Option<string>, Slate)>)
    requires VerifyTxProof(proof, extracted).Ok? && VerifyTxProof(proof.(amount := amount), extracted).Ok?
    ensures amount == proof.amount
  {
    hide Residue, Congruent, SumV, SumR, Select, Order;
    var slate := extracted.value.1;
    var inputs, outputs := Select(slate.inputs, proof.inputs, false), Select(slate.outputs, proof.outputs, false);
    SumSnoc(inputs, CommitValue(proof.amount));
    SumSnoc(inputs, CommitValue(amount));
    var a, b := SumV(outputs) - (SumV(inputs) + proof.amount), SumV(outputs) - (SumV(inputs) + amount);
    SameResidue(a, b);
    CongruentSmall(a, b);
  }

  /** The lists of a proof matter only as sets. */
  lemma ListsAreSets(p1: TxProof, p2: TxProof, extracted: Option<(Option<string>, Slate)>)
    requires p1.address == p2.address && p1.amount == p2.amount
    requires forall c :: c in p1.inputs <==> c in p2.inputs
    requires forall c :: c in p1.outputs <==> c in p2.outputs
    ensures VerifyTxProof(p1, extracted) == VerifyTxProof(p2, extracted)
  {
    if extracted.Some? {
      SelectBySet(extracted.value.1.inputs, p1.inputs, p2.inputs);
      SelectBySet(extracted.value.1.outputs, p1.outputs, p2.outputs);
    }
  }

  lemma {:induction false} SelectBySet(ps: seq<Point>, l1: seq<Point>, l2: seq<Point>)
    requires forall c :: c in l1 <==> c in l2
    ensures Select(ps, l1, false) == Select(ps, l2, false)
  {
    if ps != [] { SelectBySet(ps[..|ps| - 1], l1, l2); }
  }

  // ----- exactly when an honest proof verifies

  /** What is not listed: the recipient's side of the transaction, in blinding or in value. */
  function RecipientBlinding(proof: TxProof, slate: Slate): int {
    SumR(Select(slate.outputs, proof.outputs, false)) - SumR(Select(slate.inputs, proof.inputs, false))
  }

  function RecipientValue(proof: TxProof, slate: Slate): int {
    SumV(Select(slate.outputs, proof.outputs, false)) - SumV(Select(slate.inputs, proof.inputs, false))
  }

  /** The listed side less the offset: the sender's. */
  function SenderBlinding(proof: TxProof, slate: Slate): int {
    SumR(Select(slate.outputs, proof.outputs, true)) - SumR(Select(slate.inputs, proof.inputs, true)) - slate.offset
  }

  /** The transaction's excess, in blinding or in value. */
  function KernelBlinding(slate: Slate): int {
    SumR(slate.outputs) - SumR(slate.inputs) - slate.offset
  }

  function KernelValue(slate: Slate): int {
    SumV(slate.outputs) - SumV(slate.inputs) + slate.fee
  }

  /** The guards of the verifier in terms of those. */
  lemma GuardsOnSums(proof: TxProof, destination: Option<string>, slate: Slate)
    ensures VerifyTxProof(proof, Some((destination, slate))).Ok? <==>
      |slate.participants| >= 2 && slate.participants[1] != IDENTITY &&
      slate.participants[1] == Reduce(RecipientBlinding(proof, slate), RecipientValue(proof, slate) - proof.amount) &&
      Reduce(SumR(slate.participants), SumV(slate.participants)) != IDENTITY &&
      Reduce(SumR(slate.participants), SumV(slate.participants)) == Reduce(KernelBlinding(slate), KernelValue(slate))
  {
    hide SumV, SumR, Select, Reduce;
    CommitSumIs(Select(slate.outputs, proof.outputs, false), Select(slate.inputs, proof.inputs, false),
      CommitValue(proof.amount));
    CommitSumIs(slate.outputs + [CommitValue(slate.fee)], slate.inputs, Point(slate.offset, 0));
    SumSnoc(slate.outputs, CommitValue(slate.fee));
    CombineIs(slate.participants);
    hide CommitSum, Combine;
  }

  /** What a verified proof tells: the destination from the message, the proof's own address and
      amount, the transaction's excess, and its outputs without the listed ones, each as often as it
      occurs and in their order. */
  lemma VerifiedRecord(proof: TxProof, destination: Option<string>, slate: Slate)
    requires VerifyTxProof(proof, Some((destination, slate))).Ok?
    ensures var v := VerifyTxProof(proof, Some((destination, slate))).value;
      v.destination == destination && v.address == proof.address && v.amount == proof.amount &&
      v.excess == Reduce(KernelBlinding(slate), KernelValue(slate)) && Subsequence(v.outputs, slate.outputs) &&
      forall p :: multiset(v.outputs)[p] == if p in proof.outputs then 0 else multiset(slate.outputs)[p]
  {
    SelectExact(slate.outputs, proof.outputs, false);
    hide SumV, SumR, Select, Reduce, Subsequence;
    CommitSumIs(slate.outputs + [CommitValue(slate.fee)], slate.inputs, Point(slate.offset, 0));
    SumSnoc(slate.outputs, CommitValue(slate.fee));
  }

  /** How verification ends otherwise: it panics without a second participant, fails as a library error
      when the excess to compare with is no commitment, and in every other case as a failed proof. */
  lemma VerifyFails(proof: TxProof, extracted: Option<(Option<string>, Slate)>)
    ensures extracted.None? ==> VerifyTxProof(proof, extracted) == Err(VerifyProof)
    ensures VerifyTxProof(proof, extracted) == Panic <==> extracted.Some? && |extracted.value.1.participants| < 2
    ensures extracted.Some? ==>
      var slate := extracted.value.1;
      var excess := Reduce(RecipientBlinding(proof, slate), RecipientValue(proof, slate) - proof.amount);
      (VerifyTxProof(proof, extracted) == Err(Secp) <==>
        2 <= |slate.participants| && Reduce(SumR(slate.participants), SumV(slate.participants)) != IDENTITY &&
        (excess == IDENTITY ||
         (excess == slate.participants[1] && Reduce(KernelBlinding(slate), KernelValue(slate)) == IDENTITY)))
    ensures VerifyTxProof(proof, extracted).Err? ==> VerifyTxProof(proof, extracted).error in {VerifyProof, Secp}
  {
    if extracted.Some? {
      var slate := extracted.value.1;
      hide SumV, SumR, Select, Reduce;
      CommitSumIs(Select(slate.outputs, proof.outputs, false), Select(slate.inputs, proof.inputs, false),
        CommitValue(proof.amount));
      CommitSumIs(slate.outputs + [CommitValue(slate.fee)], slate.inputs, Point(slate.offset, 0));
      SumSnoc(slate.outputs, CommitValue(slate.fee));
      CombineIs(slate.participants);
      hide CommitSum, Combine;
    }
  }

  lemma CombineIs(keys: seq<Point>)
    ensures var q := Reduce(SumR(keys), SumV(keys));
      Combine(keys) == if q == IDENTITY then Err(VerifyProof) else Ok(q)
  {}

  lemma CommitSumIs(positive: seq<Point>, negative: seq<Point>, p: Point)
    ensures CommitSum(positive, negative + [p]) ==
      var q := Reduce(SumR(positive) - SumR(negative) - p.r, SumV(positive) - SumV(negative) - p.v);
      if q == IDENTITY then Err(Secp) else Ok(q)
  {
    SumSnoc(negative, p);
    hide SumV, SumR, Reduce;
  }

  lemma CongruentDiff(a: int, b: int, c: int, d: int)
    requires a - b == c - d || a - b == d - c
    ensures Congruent(a, b) <==> Congruent(c, d)
  {
    hide Times;
    if Congruent(a, b) {
      var k :| a - b == Times(k);
      TimesAdds(k, 0);
      assert c - d == Times(k) || c - d == Times(-k);
    }
    if Congruent(c, d) {
      var k :| c - d == Times(k);
      TimesAdds(k, 0);
      assert a - b == Times(k) || a - b == Times(-k);
    }
  }

  lemma ZeroResidue(a: int)
    ensures Residue(a) == 0 <==> Congruent(a, 0)
  {
    hide *;
    ResidueZero();
    SameResidue(a, 0);
  }

  lemma SmallResidue(a: nat)
    requires a < Order()
    ensures Residue(a) == a
  {
    hide Order;
  }

  lemma PointIsReduced(r: nat, x: int, v: int)
    requires r < Order()
    ensures Point(r, 0) == Reduce(x, v) <==> Congruent(r, x) && Congruent(v, 0)
  {
    SmallResidue(r);
    SameResidue(r, x);
    ZeroResidue(v);
    hide Residue, Congruent, Order;
  }

  lemma ReducedAgree(r: int, x: int, v: int)
    ensures Reduce(r, 0) == Reduce(x, v) <==> Congruent(r, x) && Congruent(v, 0)
  {
    SameResidue(r, x);
    ResidueZero();
    ZeroResidue(v);
    hide Residue, Congruent;
  }

  lemma ReducedIdentity(r: int)
    ensures Reduce(r, 0) == IDENTITY <==> Congruent(r, 0)
  {
    ResidueZero();
    ZeroResidue(r);
    hide Residue, Congruent;
  }

  lemma RecipientGuard(proof: TxProof, slate: Slate, key: Point)
    requires key.v == 0 && key.r < Order()
    ensures key == Reduce(RecipientBlinding(proof, slate), RecipientValue(proof, slate) - proof.amount) <==>
      Congruent(RecipientValue(proof, slate), proof.amount) && Congruent(key.r, RecipientBlinding(proof, slate))
    ensures key == IDENTITY <==> key.r == 0
  {
    var v := RecipientValue(proof, slate) - proof.amount;
    assert key == Point(key.r, 0) && IDENTITY == Point(0, 0);
    hide *;
    PointIsReduced(key.r, RecipientBlinding(proof, slate), v);
    CongruentDiff(v, 0, RecipientValue(proof, slate), proof.amount);
  }

  lemma KernelGuard(slate: Slate, r: int)
    ensures Reduce(r, 0) == Reduce(KernelBlinding(slate), KernelValue(slate)) <==>
      Congruent(SumV(slate.inputs), SumV(slate.outputs) + slate.fee) && Congruent(r, KernelBlinding(slate))
  {
    var v := KernelValue(slate);
    assert v == SumV(slate.outputs) - SumV(slate.inputs) + slate.fee;
    hide *;
    ReducedAgree(r, KernelBlinding(slate), v);
    CongruentDiff(v, 0, SumV(slate.inputs), SumV(slate.outputs) + slate.fee);
  }

  /** When the participants' keys are multiples of G, a proof verifies if and only if the values
      balance, for the recipient and for the whole transaction; the recipient's key is the
      recipient's excess and the keys add up to the kernel's; and neither is zero. */
  lemma VerifiesIffBalanced(proof: TxProof, destination: Option<string>, slate: Slate)
    requires Blinding(slate.participants) &&
      forall i :: 0 <= i < |slate.participants| ==> slate.participants[i].r < Order()
    ensures VerifyTxProof(proof, Some((destination, slate))).Ok? <==>
      |slate.participants| >= 2 && Congruent(RecipientValue(proof, slate), proof.amount) &&
      Congruent(SumV(slate.inputs), SumV(slate.outputs) + slate.fee) &&
      Congruent(slate.participants[1].r, RecipientBlinding(proof, slate)) && slate.participants[1].r != 0 &&
      Congruent(SumR(slate.participants), KernelBlinding(slate)) && !Congruent(SumR(slate.participants), 0)
  {
    hide SumR, SumV, Reduce, Congruent, RecipientBlinding, RecipientValue,
      KernelBlinding, KernelValue, VerifyTxProof, Order;
    GuardsOnSums(proof, destination, slate);
    BlindingHasNoValue(slate.participants);
    ReducedIdentity(SumR(slate.participants));
    KernelGuard(slate, SumR(slate.participants));
    if |slate.participants| >= 2 {
      RecipientGuard(proof, slate, slate.participants[1]);
    }
  }

  /** The keys two honest participants publish for the slate: each the blinding excess of the own
      outputs over the own inputs, the sender's less the offset. */
  ghost predicate HonestKeys(proof: TxProof, slate: Slate) {
    slate.participants == [Reduce(SenderBlinding(proof, slate), 0), Reduce(RecipientBlinding(proof, slate), 0)]
  }

  lemma BlindingSplits(proof: TxProof, slate: Slate)
    ensures SenderBlinding(proof, slate) + RecipientBlinding(proof, slate) == KernelBlinding(slate)
  {
    SelectSplits(slate.inputs, proof.inputs);
    SelectSplits(slate.outputs, proof.outputs);
    hide SumR, Select;
  }

  lemma ResidueCongruent(a: int)
    ensures Congruent(Residue(a), a) && Residue(a) < Order()
  {
    hide *;
    ResidueFacts(a);
    SmallResidue(Residue(a));
    SameResidue(Residue(a), a);
  }

  lemma HonestSums(a: int, b: int)
    ensures var ps := [Reduce(a, 0), Reduce(b, 0)];
      Blinding(ps) && Congruent(SumR(ps), a + b) && Congruent(ps[1].r, b) &&
      forall i :: 0 <= i < |ps| ==> ps[i].r < Order()
  {
    var p, q := Reduce(a, 0), Reduce(b, 0);
    ResidueZero();
    ResidueCongruent(a);
    ResidueCongruent(b);
    CongruentAdd(p.r, a, q.r, b);
    hide Residue, Congruent, Order;
    assert [p] == [] + [p] && [p, q] == [p] + [q];
    SumSnoc([], p);
    SumSnoc([p], q);
    assert SumR([p, q]) == p.r + q.r;
  }

  lemma CongruentSwap(a: int, b: int, c: int)
    requires Congruent(a, b)
    ensures Congruent(a, c) <==> Congruent(b, c)
  {
    hide *;
    CongruentDiff(0, 0, a, a);
    if Congruent(a, c) { CongruentAdd(a, c, a, b); CongruentDiff(a - a, c - b, b, c); }
    if Congruent(b, c) { CongruentAdd(a, b, b, c); CongruentDiff(a + b, b + c, a, c); }
  }

  /** A proof of two honest participants verifies if and only if the recipient receives the amount,
      the transaction balances up to the fee, and neither the recipient's blinding nor the kernel's
      cancels out. */
  lemma HonestVerifiesIff(proof: TxProof, destination: Option<string>, slate: Slate)
    requires HonestKeys(proof, slate)
    ensures VerifyTxProof(proof, Some((destination, slate))).Ok? <==>
      Congruent(RecipientValue(proof, slate), proof.amount) &&
      Congruent(SumV(slate.inputs), SumV(slate.outputs) + slate.fee) &&
      !Congruent(RecipientBlinding(proof, slate), 0) && !Congruent(KernelBlinding(slate), 0)
  {
    var a, b := SenderBlinding(proof, slate), RecipientBlinding(proof, slate);
    assert slate.participants == [Reduce(a, 0), Reduce(b, 0)];
    hide *;
    BlindingSplits(proof, slate);
    HonestSums(a, b);
    VerifiesIffBalanced(proof, destination, slate);
    CongruentSwap(SumR(slate.participants), KernelBlinding(slate), 0);
    CongruentSwap(slate.participants[1].r, b, 0);
    SmallResidue(slate.participants[1].r);
    ZeroResidue(slate.participants[1].r);
  }
}
