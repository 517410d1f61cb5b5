/** Big-endian positional numbers in any base: the common value through which the
    base-58 digit buffer and the 32-bit word array are compared. */
module Positional {

  function Pow(b: nat, e: nat): nat {
    if e == 0 then 1 else b * Pow(b, e - 1)
  }

  /** The number denoted by `ds`, most significant digit first. */
  function Val(ds: seq<nat>, b: nat): nat {
    if ds == [] then 0 else Val(ds[..|ds| - 1], b) * b + ds[|ds| - 1]
  }

  /** The shortest big-endian digits of `v`; zero has none. */
  function Digits(v: nat, b: nat): seq<nat>
    requires 2 <= b
  {
    if v == 0 then [] else
      DivShrinks(v, b);
      Digits(v / b, b) + [v % b]
  }

  ghost predicate Below(ds: seq<nat>, b: nat) {
    forall i :: 0 <= i < |ds| ==> ds[i] < b
  }

  ghost predicate Canonical(ds: seq<nat>, b: nat) {
    Below(ds, b) && (ds != [] ==> ds[0] != 0)
  }

  function Zeros(n: nat): (zs: seq<nat>)
    ensures |zs| == n && forall i :: 0 <= i < n ==> zs[i] == 0
  {
    seq(n, _ => 0)
  }

  /** How many zeros `ds` starts with. */
  function LeadingZeros(ds: seq<nat>): (n: nat)
    ensures n <= |ds|
    ensures forall i :: 0 <= i < n ==> ds[i] == 0
    ensures n < |ds| ==> ds[n] != 0
  {
    if ds == [] || ds[0] != 0 then 0 else LeadingZeros(ds[1..]) + 1
  }

  // ----- multiplication and powers

  lemma DivMod(v: nat, b: nat)
    requires 0 < b
    ensures v == v / b * b + v % b && 0 <= v % b < b && 0 <= v / b
  {}

  lemma MulAssoc(a: int, b: int, c: int)
    ensures a * (b * c) == a * b * c
  {}

  lemma MulSum(a: int, b: int, c: int)
    ensures (a + b) * c == a * c + b * c
  {}

  lemma DivShrinks(v: nat, b: nat)
    requires 2 <= b && 0 < v
    ensures 0 <= v / b < v
  {
    DivMod(v, b);
    MulLe(2, b, v / b);
  }

  lemma MulLe(a: int, b: int, c: nat)
    requires a <= b
    ensures a * c <= b * c
  {}

  lemma DigitStep(v: nat, p: nat, b: nat, d: nat)
    requires v < p && d < b
    ensures v * b + d < b * p
  {
    MulLe(v + 1, p, b);
  }

  lemma DivModUnique(q: nat, b: nat, r: nat)
    requires 0 <= r < b
    ensures (q * b + r) / b == q && (q * b + r) % b == r
  {
    var v := q * b + r;
    assert v == v / b * b + v % b;
    var d := v / b - q;
    assert d * b == r - v % b;
    if d > 0 { MulLe(1, d, b); assert false; }
    if d < 0 { MulLe(d, -1, b); assert false; }
  }

  lemma PowPositive(b: nat, e: nat)
    requires 0 < b
    ensures 0 < Pow(b, e)
  {
    if e > 0 { PowPositive(b, e - 1); }
  }

  lemma {:induction false} PowAdd(b: nat, m: nat, n: nat)
    ensures Pow(b, m + n) == Pow(b, m) * Pow(b, n)
  {
    if m > 0 {
      PowAdd(b, m - 1, n);
      MulAssoc(b, Pow(b, m - 1), Pow(b, n));
    }
  }

  lemma {:induction false} PowMul(b: nat, m: nat, n: nat)
    ensures Pow(Pow(b, m), n) == Pow(b, m * n)
  {
    if n == 0 {
      assert m * n == 0;
    } else {
      PowMul(b, m, n - 1);
      PowAdd(b, m, m * (n - 1));
      assert m + m * (n - 1) == m * n;
    }
  }

  lemma PowMonotone(b: nat, m: nat, n: nat)
    requires 0 < b && m <= n
    ensures Pow(b, m) <= Pow(b, n)
  {
    if m < n {
      PowMonotone(b, m, n - 1);
      MulLe(1, b, Pow(b, n - 1));
    }
  }

  lemma PowBaseMonotone(a: nat, c: nat, e: nat)
    requires a <= c
    ensures Pow(a, e) <= Pow(c, e)
  {
    if e > 0 {
      PowBaseMonotone(a, c, e - 1);
      MulLe(a, c, Pow(a, e - 1));
      MulLe(Pow(a, e - 1), Pow(c, e - 1), c);
    }
  }

  lemma MulLess(c: nat, x: nat, a: nat, y: nat)
    requires c < a && x <= y && 0 < y
    ensures c * x < a * y
  {
    MulLe(x, y, c);
    MulLe(c + 1, a, y);
    MulSum(c, 1, y);
  }

  lemma PowStrict(c: nat, a: nat, e: nat)
    requires c < a && 0 < e
    ensures Pow(c, e) < Pow(a, e)
  {
    var x, y := Pow(c, e - 1), Pow(a, e - 1);
    PowBaseMonotone(c, a, e - 1);
    PowPositive(a, e - 1);
    MulLess(c, x, a, y);
  }

  /** Taking e-th roots keeps the order. */
  lemma RootMonotone(a: nat, c: nat, e: nat)
    requires 0 < e && Pow(a, e) <= Pow(c, e)
    ensures a <= c
  {
    if c < a {
      PowStrict(c, a, e);
    }
  }

  // ----- values and digits

  lemma {:induction false} ValSplit(a: seq<nat>, c: seq<nat>, b: nat)
    ensures Val(a + c, b) == Val(a, b) * Pow(b, |c|) + Val(c, b)
  {
    if c == [] {
      assert a + c == a;
    } else {
      var c' := c[..|c| - 1];
      assert (a + c)[..|a + c| - 1] == a + c';
      ValSplit(a, c', b);
      HornerStep(Val(a, b), Pow(b, |c'|), Val(c', b), b);
    }
  }

  lemma HornerStep(x: nat, p: nat, y: nat, b: nat)
    ensures (x * p + y) * b == x * (b * p) + y * b
  {
    MulSum(x * p, y, b);
    MulAssoc(x, p, b);
  }

  lemma ValSingle(d: nat, b: nat)
    ensures Val([d], b) == d
  {
    assert [d][..0] == [];
  }

  lemma ValCons(d: nat, ds: seq<nat>, b: nat)
    ensures Val([d] + ds, b) == d * Pow(b, |ds|) + Val(ds, b)
  {
    ValSplit([d], ds, b);
    ValSingle(d, b);
  }

  lemma ValSnoc(ds: seq<nat>, d: nat, b: nat)
    ensures Val(ds + [d], b) == Val(ds, b) * b + d
  {
    assert (ds + [d])[..|ds|] == ds;
  }

  lemma {:induction false} ValBound(ds: seq<nat>, b: nat)
    requires Below(ds, b)
    ensures Val(ds, b) < Pow(b, |ds|)
  {
    if ds != [] {
      var ds' := ds[..|ds| - 1];
      ValBound(ds', b);
      DigitStep(Val(ds', b), Pow(b, |ds'|), b, ds[|ds| - 1]);
    }
  }

  lemma {:induction false} ValZeros(n: nat, b: nat)
    ensures Val(Zeros(n), b) == 0
  {
    if n > 0 {
      assert Zeros(n)[..n - 1] == Zeros(n - 1);
      ValZeros(n - 1, b);
    }
  }

  lemma ValSkipsZeros(n: nat, ds: seq<nat>, b: nat)
    ensures Val(Zeros(n) + ds, b) == Val(ds, b)
  {
    ValSplit(Zeros(n), ds, b);
    ValZeros(n, b);
  }

  /** A longer prefix denotes at least as much. */
  lemma ValPrefix(ds: seq<nat>, k: nat, b: nat)
    requires k <= |ds| && 0 < b
    ensures Val(ds[..k], b) <= Val(ds, b)
  {
    assert ds == ds[..k] + ds[k..];
    ValSplit(ds[..k], ds[k..], b);
    PowPositive(b, |ds[k..]|);
    MulLe(1, Pow(b, |ds[k..]|), Val(ds[..k], b));
  }

  /** `Digits` is a right inverse of `Val`, and gives canonical digits. */
  lemma {:induction false} ValOfDigits(v: nat, b: nat)
    requires 2 <= b
    ensures Val(Digits(v, b), b) == v
    ensures Canonical(Digits(v, b), b)
    ensures Digits(v, b) == [] <==> v == 0
  {
    if v != 0 {
      var q, r := v / b, v % b;
      DivMod(v, b);
      DivShrinks(v, b);
      ValOfDigits(q, b);
      var ds := Digits(q, b);
      assert Digits(v, b) == ds + [r];
      ValSnoc(ds, r, b);
      if ds == [] { assert q == 0 && r == v by { assert 0 * b == 0; } }
    }
  }

  /** ... and a left inverse on canonical digits. */
  lemma {:induction false} DigitsOfVal(ds: seq<nat>, b: nat)
    requires 2 <= b && Canonical(ds, b)
    ensures Digits(Val(ds, b), b) == ds
  {
    if ds != [] {
      var ds', d := ds[..|ds| - 1], ds[|ds| - 1];
      DigitsOfVal(ds', b);
      DivModUnique(Val(ds', b), b, d);
      if ds' == [] {
        assert d == ds[0] && Val(ds', b) == 0;
      } else {
        ValCons(ds'[0], ds'[1..], b);
        assert ds' == [ds'[0]] + ds'[1..];
        PowPositive(b, |ds'[1..]|);
        MulLe(1, ds'[0], Pow(b, |ds'[1..]|));
        MulLe(1, b, Val(ds', b));
      }
      assert ds == ds' + [d];
    }
  }

  /** Digits with leading zeros are those zeros and the canonical digits of the value. */
  lemma ZerosThenDigits(ds: seq<nat>, b: nat)
    requires 2 <= b && Below(ds, b)
    ensures ds == Zeros(LeadingZeros(ds)) + Digits(Val(ds, b), b)
    ensures ds[LeadingZeros(ds)..] == Digits(Val(ds, b), b)
  {
    var n := LeadingZeros(ds);
    assert ds == Zeros(n) + ds[n..];
    ValSkipsZeros(n, ds[n..], b);
    DigitsOfVal(ds[n..], b);
  }

  /** The number of canonical digits is exactly the exponent the value stays under. */
  lemma DigitsLength(v: nat, b: nat, k: nat)
    requires 2 <= b
    ensures |Digits(v, b)| <= k <==> v < Pow(b, k)
  {
    var ds := Digits(v, b);
    ValOfDigits(v, b);
    ValBound(ds, b);
    if |ds| <= k {
      PowMonotone(b, |ds|, k);
    } else {
      assert ds == [ds[0]] + ds[1..];
      ValCons(ds[0], ds[1..], b);
      MulLe(1, ds[0], Pow(b, |ds[1..]|));
      PowMonotone(b, k, |ds[1..]|);
    }
  }

  // ----- room for base 256 in base 58

  /** 256^8 <= 58^11, so any 58-digit room of at least 11/8 the byte count is enough. */
  lemma Room(n: nat, e: nat)
    requires 11 * n <= 8 * e
    ensures Pow(256, n) <= Pow(58, e)
  {
    assert Pow(256, 8) <= Pow(58, 11) by {
      assert Pow(256, 2) == 65536;
      assert Pow(256, 4) == 65536 * 65536 by { PowAdd(256, 2, 2); }
      PowAdd(256, 4, 4);
      assert Pow(58, 2) == 3364;
      assert Pow(58, 3) == 195112;
      assert Pow(58, 5) == 3364 * 195112 by { PowAdd(58, 2, 3); }
      assert Pow(58, 6) == 195112 * 195112 by { PowAdd(58, 3, 3); }
      PowAdd(58, 5, 6);
    }
    PowBaseMonotone(Pow(256, 8), Pow(58, 11), n);
    PowMul(256, 8, n); PowMul(256, n, 8);
    PowMul(58, 11, n); PowMul(58, e, 8);
    PowMonotone(58, 11 * n, e * 8);
    RootMonotone(Pow(256, n), Pow(58, e), 8);
  }
}
