/** Base58 text (draft-msporny-base58, sections 2 to 4): what an encoding means, the
    proof that encoding and decoding are inverse bijections. */
module Base58 {
  import opened Common
  import opened Positional

  /** The decoder works in 132 bytes, held as 33 words of 32 bits. */
  const CAPACITY: nat := 132
  const WORDS: nat := 33
  const WORD: nat := 0x1_0000_0000

  function Limit(): nat { Pow(256, CAPACITY) }

  // ----- the alphabet

  /** The digit of a character code, by the runs of the alphabet; -1 outside it. */
  function CodeDigit(c: int): int {
    if 49 <= c < 58 then c - 49
    else if 65 <= c < 73 then c - 56
    else if 74 <= c < 79 then c - 57
    else if 80 <= c < 91 then c - 58
    else if 97 <= c < 108 then c - 64
    else if 109 <= c < 123 then c - 65
    else -1
  }

  function Letter(d: nat): char
    requires d < 58
  {
    if d < 9 then (d + 49) as char
    else if d < 17 then (d + 56) as char
    else if d < 22 then (d + 57) as char
    else if d < 33 then (d + 58) as char
    else if d < 44 then (d + 64) as char
    else (d + 65) as char
  }

  function DigitOf(c: char): (d: Option<nat>)
    ensures d.Some? ==> d.value < 58
  {
    if CodeDigit(c as int) == -1 then None else Some(CodeDigit(c as int))
  }

  lemma DigitOfLetter(d: nat)
    requires d < 58
    ensures DigitOf(Letter(d)) == Some(d)
  {}

  lemma LetterOfDigit(c: char)
    requires DigitOf(c).Some?
    ensures Letter(DigitOf(c).value) == c
  {}

  ghost predicate InAlphabet(s: string) {
    forall i :: 0 <= i < |s| ==> DigitOf(s[i]).Some?
  }

  function Text(ds: seq<nat>): (s: string)
    requires Below(ds, 58)
    ensures |s| == |ds|
  {
    seq(|ds|, i requires 0 <= i < |ds| => Letter(ds[i]))
  }

  ghost function TextDigits(s: string): (ds: seq<nat>)
    requires InAlphabet(s)
    ensures |ds| == |s| && Below(ds, 58)
    ensures forall i :: 0 <= i < |s| ==> DigitOf(s[i]) == Some(ds[i])
  {
    seq(|s|, i requires 0 <= i < |s| => DigitOf(s[i]).value)
  }

  lemma DigitsOfText(ds: seq<nat>)
    requires Below(ds, 58)
    ensures InAlphabet(Text(ds)) && TextDigits(Text(ds)) == ds
  {
    forall i | 0 <= i < |ds| ensures DigitOf(Text(ds)[i]) == Some(ds[i]) {
      DigitOfLetter(ds[i]);
    }
  }

  lemma TextOfDigits(s: string)
    requires InAlphabet(s)
    ensures Text(TextDigits(s)) == s
  {
    forall i | 0 <= i < |s| ensures Text(TextDigits(s))[i] == s[i] {
      LetterOfDigit(s[i]);
    }
  }

  // ----- what encoding and decoding mean

  /** One '1' for every leading zero byte, then the value of the bytes in base 58. */
  function Encode(bytes: seq<byte>): string {
    var v := Val(bytes, 256);
    ValOfDigits(v, 58);
    Text(Zeros(LeadingZeros(bytes)) + Digits(v, 58))
  }

  /** How many '1' characters `s` starts with. */
  function LeadingOnes(s: string): (n: nat)
    ensures n <= |s|
    ensures forall i :: 0 <= i < n ==> s[i] == '1'
    ensures n < |s| ==> s[n] != '1'
  {
    if s == "" || s[0] != '1' then 0 else LeadingOnes(s[1..]) + 1
  }

  ghost function Value(s: string): nat
    requires InAlphabet(s)
  {
    Val(TextDigits(s), 58)
  }

  /** The bytes an alphabet string stands for, with no bound on its length. */
  ghost function BytesOf(s: string): (bytes: seq<byte>)
    requires InAlphabet(s)
  {
    ValOfDigits(Value(s), 256);
    var ds := Zeros(LeadingOnes(s)) + Digits(Value(s), 256);
    assert forall i :: 0 <= i < |ds| ==> ds[i] < 256;
    ds
  }

  /** The character reported for an input byte that is no digit: the first UTF-8 byte of `c`. */
  function LeadByte(c: char): char {
    var n := c as int;
    if n < 0x80 then c
    else if n < 0x800 then (0xC0 + n / 0x40) as char
    else if n < 0x1_0000 then (0xE0 + n / 0x1000) as char
    else (0xF0 + n / 0x4_0000) as char
  }

  /** Lay `v` out after `ones` zero bytes, if the decoder's buffer has that much room. */
  function Finish(ones: nat, v: nat): Outcome<seq<byte>> {
    ValOfDigits(v, 256);
    var ds := Digits(v, 256);
    if CAPACITY < ones + |ds| then Panic else
      assert forall i :: 0 <= i < ones + |ds| ==> (Zeros(ones) + ds)[i] < 256;
      Ok(Zeros(ones) + ds)
  }

  /** Decode the characters from `i` on, when the ones before denote `v`. */
  function DecodeFrom(s: string, i: nat, v: nat): Outcome<seq<byte>>
    requires i <= |s|
    decreases |s| - i
  {
    if i == |s| then Finish(LeadingOnes(s), v) else
      match DigitOf(s[i])
      case None => Err(InvalidBase58Character(LeadByte(s[i]), i))
      case Some(d) =>
        if Limit() <= v * 58 + d then Err(InvalidBase58Length) else DecodeFrom(s, i + 1, v * 58 + d)
  }

  function Decode(s: string): Outcome<seq<byte>> {
    DecodeFrom(s, LeadingOnes(s), 0)
  }

  /** The first `k` characters of `s` are letters of the alphabet and fit the buffer as a number. */
  ghost predicate GoodPrefix(s: string, k: nat) {
    k <= |s| && InAlphabet(s[..k]) && Value(s[..k]) < Limit()
  }

  // ----- the two directions of the bijection

  lemma OnesAreZeroDigits(s: string)
    requires InAlphabet(s)
    ensures LeadingOnes(s) == LeadingZeros(TextDigits(s))
  {
    DigitOfLetter(0);
    var ds, m, n := TextDigits(s), LeadingOnes(s), LeadingZeros(TextDigits(s));
    assert forall i :: 0 <= i < |s| ==> (s[i] == '1' <==> ds[i] == 0);
    assert m < |s| ==> ds[m] != 0;
    assert n < |s| ==> s[n] != '1';
  }

  lemma LeadingZerosOf(n: nat, ds: seq<nat>)
    requires ds != [] ==> ds[0] != 0
    ensures LeadingZeros(Zeros(n) + ds) == n
  {
    var zs := Zeros(n) + ds;
    assert ds != [] ==> zs[n] != 0;
    assert n < |zs| ==> zs[n] == ds[0];
  }

  /** Reading back an encoding gives the encoded bytes, whatever their length. */
  lemma BytesOfEncode(bytes: seq<byte>)
    ensures InAlphabet(Encode(bytes)) && BytesOf(Encode(bytes)) == bytes
  {
    var v, n, s := Val(bytes, 256), LeadingZeros(bytes), Encode(bytes);
    ValOfDigits(v, 58);
    var ds := Zeros(n) + Digits(v, 58);
    DigitsOfText(ds);
    OnesAreZeroDigits(s);
    LeadingZerosOf(n, Digits(v, 58));
    ValSkipsZeros(n, Digits(v, 58), 58);
    ZerosThenDigits(bytes, 256);
  }

  /** Every alphabet string is the encoding of the bytes it stands for. */
  lemma EncodeBytesOf(s: string)
    requires InAlphabet(s)
    ensures Encode(BytesOf(s)) == s
  {
    var v, ds := Value(s), TextDigits(s);
    var n := LeadingOnes(s);
    OnesAreZeroDigits(s);
    ValOfDigits(v, 256);
    LeadingZerosOf(n, Digits(v, 256));
    ValSkipsZeros(n, Digits(v, 256), 256);
    ZerosThenDigits(ds, 58);
    TextOfDigits(s);
  }

  // ----- what the decoder accepts, and why it stops

  lemma PrefixValue(s: string, i: nat)
    requires i < |s| && InAlphabet(s[..i]) && DigitOf(s[i]).Some?
    ensures InAlphabet(s[..i + 1])
    ensures Value(s[..i + 1]) == Value(s[..i]) * 58 + DigitOf(s[i]).value
  {
    var d := DigitOf(s[i]).value;
    assert TextDigits(s[..i + 1]) == TextDigits(s[..i]) + [d];
    ValSnoc(TextDigits(s[..i]), d, 58);
  }

  lemma GoodPrefixShorter(s: string, k: nat, m: nat)
    requires GoodPrefix(s, m) && k <= m
    ensures GoodPrefix(s, k)
  {
    assert forall i :: 0 <= i < k ==> s[..k][i] == s[..m][i];
    assert TextDigits(s[..k]) == TextDigits(s[..m])[..k];
    ValPrefix(TextDigits(s[..m]), k, 58);
  }

  lemma OnesPrefix(s: string)
    ensures GoodPrefix(s, LeadingOnes(s)) && Value(s[..LeadingOnes(s)]) == 0
  {
    var n := LeadingOnes(s);
    DigitOfLetter(0);
    assert TextDigits(s[..n]) == Zeros(n);
    ValZeros(n, 58);
    PowPositive(256, CAPACITY);
  }

  /** Why the decoder stops at character `k`. */
  function StopError(s: string, k: nat): ErrorKind
    requires k < |s|
  {
    if DigitOf(s[k]).None? then InvalidBase58Character(LeadByte(s[k]), k) else InvalidBase58Length
  }

  lemma DecodeStep(s: string, i: nat)
    requires i < |s| && GoodPrefix(s, i)
    ensures DecodeFrom(s, i, Value(s[..i])) ==
      if GoodPrefix(s, i + 1) then DecodeFrom(s, i + 1, Value(s[..i + 1])) else Err(StopError(s, i))
  {
    if DigitOf(s[i]).Some? {
      PrefixValue(s, i);
    } else {
      assert s[..i + 1][i] == s[i];
    }
  }

  /** Where the decoder stops when started after a good prefix. */
  lemma {:induction false} DecodeFromStops(s: string, i: nat) returns (k: nat)
    requires GoodPrefix(s, i)
    ensures i <= k <= |s| && GoodPrefix(s, k)
    ensures k < |s| ==> !GoodPrefix(s, k + 1)
    ensures DecodeFrom(s, i, Value(s[..i])) ==
      if k == |s| then Finish(LeadingOnes(s), Value(s[..k])) else Err(StopError(s, k))
    decreases |s| - i
  {
    hide Value, InAlphabet, DigitOf, Limit, Finish, StopError, LeadingOnes;
    k := i;
    if i < |s| {
      DecodeStep(s, i);
      if GoodPrefix(s, i + 1) {
        k := DecodeFromStops(s, i + 1);
      }
    }
  }

  /** `s` can be read as far as `k` and no further. */
  ghost predicate StopsAt(s: string, k: nat) {
    k <= |s| && GoodPrefix(s, k) && (k < |s| ==> !GoodPrefix(s, k + 1))
  }

  lemma StopUnique(s: string, k: nat, m: nat)
    requires StopsAt(s, k) && StopsAt(s, m)
    ensures k == m
  {
    if k < m { GoodPrefixShorter(s, k + 1, m); }
    if m < k { GoodPrefixShorter(s, m + 1, k); }
  }

  lemma InAlphabetOne(s: string, k: nat)
    requires k < |s|
    ensures InAlphabet(s[k..k + 1]) <==> DigitOf(s[k]).Some?
    ensures InAlphabet(s[..k + 1]) <==> InAlphabet(s[..k]) && DigitOf(s[k]).Some?
  {
    assert s[k..k + 1] == [s[k]] && s[..k + 1] == s[..k] + [s[k]];
  }

  /** The decoder fails exactly at the first character that is outside the alphabet or pushes
      the value to 2^1056; on a wholly good string the outcome depends on room alone. */
  lemma DecodeExact(s: string) returns (k: nat)
    ensures StopsAt(s, k)
    ensures Decode(s) == if k == |s| then Finish(LeadingOnes(s), Value(s)) else Err(StopError(s, k))
    ensures k == |s| <==> InAlphabet(s) && Value(s) < Limit()
  {
    OnesPrefix(s);
    k := DecodeFromStops(s, LeadingOnes(s));
    assert s[..|s|] == s;
    if InAlphabet(s) && Value(s) < Limit() {
      StopUnique(s, k, |s|);
    }
  }

  /** The first `n` characters fit as a number and one more makes it reach 2^1056. */
  ghost predicate Overshoots(s: string, n: nat) {
    n < |s| && InAlphabet(s[..n]) && InAlphabet(s[..n + 1]) && Value(s[..n]) < Limit() <= Value(s[..n + 1])
  }

  /** The decoder reports a character, by its first byte and its position, exactly if it is the first
      outside the alphabet and the characters before it fit as a number. */
  lemma CharacterErrors(s: string, x: char, k: nat)
    ensures Decode(s) == Err(InvalidBase58Character(x, k)) <==>
      k < |s| && InAlphabet(s[..k]) && Value(s[..k]) < Limit() && !InAlphabet(s[k..k + 1]) && x == LeadByte(s[k])
  {
    var m := DecodeExact(s);
    if m < |s| { InAlphabetOne(s, m); }
    if k < |s| && InAlphabet(s[..k]) && Value(s[..k]) < Limit() && !InAlphabet(s[k..k + 1]) {
      InAlphabetOne(s, k);
      StopUnique(s, k, m);
    }
    hide InAlphabet, Decode, Value, DigitOf, Limit, LeadByte;
  }

  /** It reports the length exactly if some prefix reaches 2^1056, and has no other errors. */
  lemma LengthErrors(s: string)
    ensures Decode(s) == Err(InvalidBase58Length) <==> exists n :: Overshoots(s, n)
    ensures Decode(s).Err? ==> Decode(s).error.InvalidBase58Character? || Decode(s).error.InvalidBase58Length?
  {
    var m := DecodeExact(s);
    forall n | Overshoots(s, n) ensures n == m && DigitOf(s[m]).Some? {
      InAlphabetOne(s, n);
      StopUnique(s, n, m);
    }
    if m < |s| && DigitOf(s[m]).Some? {
      InAlphabetOne(s, m);
      assert Overshoots(s, m);
    }
    hide InAlphabet, Decode, Value, DigitOf, Limit, LeadByte, Overshoots;
  }

  /** The byte reported for a character is the first of its UTF-8 form (section 3 of RFC 3629). */
  lemma LeadByteIs(c: char)
    ensures var n, b := c as int, LeadByte(c) as int;
      (n < 0x80 ==> b == n) &&
      (0x80 <= n < 0x800 ==> 0xC2 <= b < 0xE0 && (b - 0xC0) * 0x40 <= n < (b - 0xC0 + 1) * 0x40) &&
      (0x800 <= n < 0x1_0000 ==> 0xE0 <= b < 0xF0 && (b - 0xE0) * 0x1000 <= n < (b - 0xE0 + 1) * 0x1000) &&
      (0x1_0000 <= n ==> 0xF0 <= b < 0xF5 && (b - 0xF0) * 0x4_0000 <= n < (b - 0xF0 + 1) * 0x4_0000)
  {}

  /** Encoding and decoding are inverse on byte strings of at most 132 bytes, and on no others:
      in particular decoding an encoding gives the bytes back if and only if they fit. */
  lemma Inverse(s: string, bytes: seq<byte>)
    ensures Decode(s) == Ok(bytes) <==> s == Encode(bytes) && |bytes| <= CAPACITY
  {
    var _ := DecodeExact(s);
    assert s[..|s|] == s;
    if InAlphabet(s) {
      var v := Value(s);
      EncodeBytesOf(s);
      DigitsLength(v, 256, CAPACITY);
      BytesOfEncode(bytes);
    } else {
      BytesOfEncode(bytes);
    }
  }

  /** No two byte strings share an encoding. */
  lemma EncodeInjective(a: seq<byte>, b: seq<byte>)
    requires Encode(a) == Encode(b)
    ensures a == b
  {
    BytesOfEncode(a);
    BytesOfEncode(b);
  }

  /** Decoding panics exactly on alphabet strings whose number fits 132 bytes but which,
      counting one byte for each leading '1', need more than 132. */
  lemma DecodePanics(s: string)
    ensures Decode(s).Panic? <==> InAlphabet(s) && Value(s) < Limit() && CAPACITY < |BytesOf(s)|
  {
    var _ := DecodeExact(s);
    assert s[..|s|] == s;
  }

  function Ones(n: nat): string {
    seq(n, _ => '1')
  }

  /** It does happen: a run of ones is read as that many zero bytes up to 132, and panics from 133 on. */
  lemma OnesPanic(n: nat)
    ensures Decode(Ones(n)) == if n <= CAPACITY then Ok(Zeros(n)) else Panic
  {
    assert LeadingOnes(Ones(n)) == n;
    assert Zeros(n) + [] == Zeros(n);
  }

  /** An encoding has at least as many letters as there are bytes, and at most twice as many. */
  lemma LengthBounds(bytes: seq<byte>)
    ensures |bytes| <= |Encode(bytes)| <= 2 * |bytes|
  {
    var v, z := Val(bytes, 256), LeadingZeros(bytes);
    ZerosThenDigits(bytes, 256);
    var n, m := |bytes| - z, |Digits(v, 58)|;
    DigitsLength(v, 256, n);
    DigitsLength(v, 58, m);
    DigitsLength(v, 256, m);
    DigitsLength(v, 58, 2 * n);
    PowBaseMonotone(58, 256, m);
    Room(n, 2 * n);
  }
}
