/** The two in-place loops that compute Base58 text and read it back. */
module Base58Codec {
  import opened Common
  import opened Positional
  import opened Base58

  const RUN_1: string := "123456789"
  const RUN_UPPER_A: string := "ABCDEFGH"
  const RUN_UPPER_J: string := "JKLMN"
  const RUN_UPPER_P: string := "PQRSTUVWXYZ"
  const RUN_LOWER_A: string := "abcdefghijk"
  const RUN_LOWER_M: string := "mnopqrstuvwxyz"
  const ALPHABET: string := RUN_1 + RUN_UPPER_A + RUN_UPPER_J + RUN_UPPER_P + RUN_LOWER_A + RUN_LOWER_M

  const B58_ROW_0: seq<int> :=
    [-1, -1, -1, -1, -1, -1, -1, -1, -1, -1, -1, -1, -1, -1, -1, -1, -1, -1, -1, -1, -1, -1, -1, -1]
  const B58_ROW_2: seq<int> :=
    [-1, 0, 1, 2, 3, 4, 5, 6, 7, 8, -1, -1, -1, -1, -1, -1, -1, 9, 10, 11, 12, 13, 14, 15, 16, -1]
  const B58_ROW_3: seq<int> :=
    [17, 18, 19, 20, 21, -1, 22, 23, 24, 25, 26, 27, 28, 29, 30, 31, 32, -1, -1, -1, -1, -1, -1, 33]
  const B58_ROW_4: seq<int> :=
    [34, 35, 36, 37, 38, 39, 40, 41, 42, 43, -1, 44, 45, 46, 47, 48, 49, 50, 51, 52, 53, 54, 55, 56]
  const B58_ROW_5: seq<int> := [57, -1, -1, -1, -1, -1]
  const B58_DIGITS_MAP: seq<int> := B58_ROW_0 + B58_ROW_0 + B58_ROW_2 + B58_ROW_3 + B58_ROW_4 + B58_ROW_5

  // ----- the tables agree with the alphabet

  /** `run` holds consecutive ASCII characters whose digits count up from `d`. */
  ghost predicate IsRun(run: string, d: nat) {
    forall k :: 0 <= k < |run| ==> run[k] as int < 128 && CodeDigit(run[k] as int) == d + k
  }

  lemma Run1()
    ensures |RUN_1| == 9 && IsRun(RUN_1, 0)
  {}

  lemma RunUpperA()
    ensures |RUN_UPPER_A| == 8 && IsRun(RUN_UPPER_A, 9)
  {}

  lemma RunUpperJ()
    ensures |RUN_UPPER_J| == 5 && IsRun(RUN_UPPER_J, 17)
  {}

  lemma RunUpperP()
    ensures |RUN_UPPER_P| == 11 && IsRun(RUN_UPPER_P, 22)
  {}

  lemma RunLowerA()
    ensures |RUN_LOWER_A| == 11 && IsRun(RUN_LOWER_A, 33)
  {}

  lemma RunLowerM()
    ensures |RUN_LOWER_M| == 14 && IsRun(RUN_LOWER_M, 44)
  {}

  lemma CharRuns(d: nat)
    requires d < 58
    ensures |ALPHABET| == 58 && ALPHABET[d] as int < 128 && CodeDigit(ALPHABET[d] as int) == d
  {
    hide RUN_1, RUN_UPPER_A, RUN_UPPER_J, RUN_UPPER_P, RUN_LOWER_A, RUN_LOWER_M, CodeDigit;
    Run1();
    RunUpperA();
    RunUpperJ();
    RunUpperP();
    RunLowerA();
    RunLowerM();
  }

  /** The alphabet string holds exactly the characters that are digits. */
  lemma AlphabetIs(c: char)
    ensures c in ALPHABET <==> DigitOf(c).Some?
  {
    CharRuns(0);
    forall d: nat | d < 58 ensures DigitOf(ALPHABET[d]) == Some(d) {
      CharRuns(d);
    }
    if DigitOf(c).Some? {
      var d := DigitOf(c).value;
      CharRuns(d);
      LetterOfDigit(c);
      LetterOfDigit(ALPHABET[d]);
    }
    hide ALPHABET, CodeDigit, Letter, DigitOf;
  }

  lemma Row0(k: nat)
    requires k < 24
    ensures |B58_ROW_0| == 24 && B58_ROW_0[k] == -1
  {}

  lemma Row2(k: nat)
    requires k < 26
    ensures |B58_ROW_2| == 26 && B58_ROW_2[k] == CodeDigit(48 + k)
  {}

  lemma Row3(k: nat)
    requires k < 24
    ensures |B58_ROW_3| == 24 && B58_ROW_3[k] == CodeDigit(74 + k)
  {}

  lemma Row4(k: nat)
    requires k < 24
    ensures |B58_ROW_4| == 24 && B58_ROW_4[k] == CodeDigit(98 + k)
  {}

  lemma CellRuns(c: nat)
    requires c < 128
    ensures |B58_DIGITS_MAP| == 128 && B58_DIGITS_MAP[c] == CodeDigit(c)
  {
    if c < 24 { Row0(c); }
    else if c < 48 { Row0(c - 24); }
    else if c < 74 { Row2(c - 48); }
    else if c < 98 { Row3(c - 74); }
    else if c < 122 { Row4(c - 98); }
  }

  method LetterAt(d: nat) returns (c: char)
    requires d < 58
    ensures c == Letter(d)
  {
    CharRuns(d);
    LetterOfDigit(ALPHABET[d]);
    c := ALPHABET[d];
  }

  method DigitAt(c: char) returns (d: int)
    requires c as int < 0x80
    ensures d == CodeDigit(c as int)
  {
    CellRuns(c as int);
    d := B58_DIGITS_MAP[c as int];
  }

  // ----- the encoder's buffer

  lemma CarryArithmetic(v: nat, u: nat, carry: nat, d: nat, b: nat, q: nat, r: nat, p: nat)
    requires v + carry * p == 256 * u + b
    requires carry + 256 * d == q * 58 + r
    ensures r * p + v + q * (58 * p) == 256 * (d * p + u) + b
  {
    assert (carry + 256 * d) * p == carry * p + 256 * (d * p);
    assert (q * 58 + r) * p == q * (58 * p) + r * p;
  }

  /** The cells denote, in base 58, the bytes read so far. */
  ghost predicate Holds(cells: seq<nat>, read: seq<nat>) {
    Below(cells, 58) && Val(cells, 58) == Val(read, 256)
  }

  /** The buffer holds the bytes read so far, and `b` is the next of `n` significant bytes. */
  ghost predicate Pending(cells: seq<nat>, read: seq<nat>, b: nat, n: nat) {
    |cells| == Size(n) && |read| < n && Below(read + [b], 256) && Holds(cells, read)
  }

  /** The encoder's buffer length for `n` significant bytes. */
  function Size(n: nat): nat {
    n * 138 / 100 + 1
  }

  /** The carry loop has replaced the cells from `p` on by `low`: together with the carry they
      denote 256 times what they did, plus the new byte `b`. */
  ghost predicate Carried(low: seq<nat>, was: seq<nat>, p: nat, carry: nat, b: nat) {
    p + |low| == |was| && Below(low, 58) && carry < 256 &&
    Val(low, 58) + carry * Pow(58, |low|) == 256 * Val(was[p..], 58) + b
  }

  lemma CarryStart(was: seq<nat>, b: byte)
    ensures Carried([], was, |was|, b, b)
  {
    assert was[|was|..] == [];
  }

  lemma CarryStep(low: seq<nat>, was: seq<nat>, p: nat, carry: nat, b: nat)
    requires 0 < p && Carried(low, was, p, carry, b) && Below(was, 58)
    ensures var t := carry + 256 * was[p - 1];
      Carried([t % 58] + low, was, p - 1, t / 58, b)
  {
    var d := was[p - 1];
    var t := carry + 256 * d;
    var q, r := t / 58, t % 58;
    assert was[p - 1..] == [d] + was[p..];
    ValCons(r, low, 58);
    ValCons(d, was[p..], 58);
    CarryArithmetic(Val(low, 58), Val(was[p..], 58), carry, d, b, q, r, Pow(58, |low|));
  }

  /** Cells that are all zero add nothing to the value of the cells after them. */
  lemma ZeroCells(cells: seq<nat>, p: nat)
    requires p <= |cells| && forall c :: 0 <= c < p ==> cells[c] == 0
    ensures cells == Zeros(p) + cells[p..] && Val(cells, 58) == Val(cells[p..], 58)
  {
    assert cells == Zeros(p) + cells[p..];
    ValSkipsZeros(p, cells[p..], 58);
  }

  lemma CarryDone(low: seq<nat>, was: seq<nat>, p: nat, read: seq<nat>, b: nat, n: nat)
    requires Carried(low, was, p, 0, b) && Pending(was, read, b, n)
    requires forall c :: 0 <= c < p ==> was[c] == 0
    ensures Holds(was[..p] + low, read + [b])
  {
    ZeroCells(was, p);
    ValSkipsZeros(p, low, 58);
    ValSnoc(read, b, 256);
  }

  /** Before the last significant byte is added, the value is too small to reach cell 0. */
  lemma CellZeroIsFree(cells: seq<nat>, read: seq<nat>, b: nat, n: nat)
    requires Pending(cells, read, b, n)
    ensures cells != [] && cells[0] == 0
  {
    assert Below(read, 256) by { assert forall i :: 0 <= i < |read| ==> (read + [b])[i] == read[i]; }
    ValBound(read, 256);
    PowMonotone(256, |read|, n - 1);
    Room(n - 1, Size(n) - 1);
    assert cells == [cells[0]] + cells[1..];
    ValCons(cells[0], cells[1..], 58);
    if cells[0] > 0 { MulLe(1, cells[0], Pow(58, |cells| - 1)); }
  }

  /** Why the saturating index is harmless: cell 0 is zero when a byte is added, and with `n`
      significant bytes in all, a carry into it can only come with the last of them and is then a
      single digit. */
  lemma CarryIntoCellZero(low: seq<nat>, was: seq<nat>, carry: nat, read: seq<nat>, b: nat, n: nat)
    requires Carried(low, was, 1, carry, b) && Pending(was, read, b, n) && 0 < carry
    ensures was[0] == 0 && |read| + 1 == n && carry < 58
  {
    CellZeroIsFree(was, read, b, n);
    ZeroCells(was, 1);
    ValSnoc(read, b, 256);
    ValBound(read + [b], 256);
    LeadingDigit(|read| + 1, n, 256 * Val(read, 256) + b, carry, Val(low, 58));
  }

  lemma LeadingDigit(k: nat, n: nat, v: nat, carry: nat, rest: nat)
    requires 0 < k <= n && v < Pow(256, k) && 0 < carry
    requires v == rest + carry * Pow(58, Size(n) - 1)
    ensures k == n && carry < 58
  {
    var p := Pow(58, Size(n) - 1);
    if k < n {
      PowMonotone(256, k, n - 1);
      Room(n - 1, Size(n) - 1);
      MulLe(1, carry, p);
    } else {
      Room(n, Size(n));
      if 58 <= carry { MulLe(58, carry, p); }
    }
  }

  /** One turn of the carry loop, including the turn that reaches cell 0. */
  lemma CarryTurn(low: seq<nat>, was: seq<nat>, p: nat, carry: nat, read: seq<nat>, b: nat, n: nat)
    requires 0 < p && Carried(low, was, p, carry, b) && Pending(was, read, b, n)
    requires p == 1 ==> 0 < carry
    ensures var t := carry + 256 * was[p - 1];
      was[p - 1] < 58 && t / 58 < 256 && Carried([t % 58] + low, was, p - 1, t / 58, b) &&
      (p == 1 ==> t / 58 == 0 && |read| + 1 == n)
  {
    CarryStep(low, was, p, carry, b);
    if p == 1 {
      CarryIntoCellZero(low, was, carry, read, b, n);
    }
  }

  // ----- the encoder

  /** The inner loop: multiply the number in `buffer` by 256 and add `b`. Cells up to `high`
      are known to be zero; the new such bound is returned. */
  method AddByte(buffer: array<nat>, high: nat, b: byte, ghost read: seq<nat>, ghost n: nat) returns (j: nat)
    requires high < buffer.Length && Pending(buffer[..], read, b, n)
    requires forall c :: 0 <= c <= high ==> buffer[c] == 0
    modifies buffer
    ensures j < buffer.Length && Holds(buffer[..], read + [b])
    ensures |read| + 1 < n ==> forall c :: 0 <= c <= j ==> buffer[c] == 0
  {
    ghost var was := buffer[..];
    ghost var low: seq<nat> := [];
    var carry: u32 := b;
    j := buffer.Length - 1;
    ghost var p := buffer.Length; // the cells from p on are done
    CarryStart(was, b);
    hide *;
    while j > high || carry != 0
      invariant j < buffer.Length && carry < 256
      invariant p == j + 1 || (p == 0 == j == carry && |read| + 1 == n)
      invariant Carried(low, was, p, carry, b)
      invariant p + |low| == buffer.Length
      invariant forall k :: 0 <= k < p ==> buffer[k] == was[k]
      invariant forall k :: p <= k < buffer.Length ==> buffer[k] == low[k - p]
      decreases p
    {
      CarryTurn(low, was, p, carry, read, b, n);
      carry := carry + 256 * buffer[j];
      ghost var digit := carry % 58;
      buffer[j] := carry % 58;
      low := [digit] + low;
      carry := carry / 58;
      p := j;
      if j > 0 {
        j := j - 1;
      }
    }
    CarryDone(low, was, p, read, b, n);
    assert buffer[..] == was[..p] + low;
  }

  lemma NothingHeld(size: nat, significant: seq<byte>)
    ensures Holds(Zeros(size), significant[..0])
  {
    ValZeros(size, 58);
  }

  lemma NextPending(cells: seq<nat>, significant: seq<byte>, k: nat)
    requires k < |significant| && |cells| == Size(|significant|) && Holds(cells, significant[..k])
    ensures significant[..k] + [significant[k]] == significant[..k + 1]
    ensures Pending(cells, significant[..k], significant[k], |significant|)
  {
    assert significant[..k] + [significant[k]] == significant[..k + 1];
    hide Holds;
  }

  method ToBase58(bytes: seq<byte>) returns (result: string)
    ensures result == Encode(bytes)
  {
    var zcount := LeadingZeros(bytes);
    var size := Size(|bytes| - zcount);
    var buffer := new nat[size](_ => 0);
    assert buffer[..] == Zeros(size);

    ghost var significant := bytes[zcount..];
    NothingHeld(size, significant);
    var i := zcount;
    var high := size - 1;
    hide *;
    while i < |bytes|
      invariant zcount <= i <= |bytes| && 0 <= high < size
      invariant Holds(buffer[..], significant[..i - zcount])
      invariant i < |bytes| ==> forall c :: 0 <= c <= high ==> buffer[c] == 0
    {
      NextPending(buffer[..], significant, i - zcount);
      high := AddByte(buffer, high, bytes[i], significant[..i - zcount], |significant|);
      i := i + 1;
    }

    assert significant[..i - zcount] == significant;
    EncodeFromBuffer(bytes, buffer[..]);
    HeldBelow(buffer[..], significant);
    result := Render(buffer, zcount);
  }

  lemma HeldBelow(cells: seq<nat>, read: seq<nat>)
    requires Holds(cells, read)
    ensures Below(cells, 58)
  {}

  /** The buffer's digits from the first non-zero one on are the digits of the encoding. */
  lemma EncodeFromBuffer(bytes: seq<byte>, cells: seq<nat>)
    requires Holds(cells, bytes[LeadingZeros(bytes)..])
    ensures Encode(bytes) == Text(Zeros(LeadingZeros(bytes)) + cells[LeadingZeros(cells)..])
  {
    var n := LeadingZeros(bytes);
    assert bytes == Zeros(n) + bytes[n..];
    ValSkipsZeros(n, bytes[n..], 256);
    ZerosThenDigits(cells, 58);
  }

  lemma TextSnoc(ds: seq<nat>, d: nat)
    requires Below(ds, 58) && d < 58
    ensures Below(ds + [d], 58) && Text(ds + [d]) == Text(ds) + [Letter(d)]
  {}

  /** Print `zcount` ones and then the digits in `buffer` from the first non-zero one. */
  method Render(buffer: array<nat>, zcount: nat) returns (result: string)
    requires Below(buffer[..], 58)
    ensures result == Text(Zeros(zcount) + buffer[LeadingZeros(buffer[..])..])
  {
    ghost var cells := buffer[..];
    var j := LeadingZeros(buffer[..]);
    ghost var first := j;
    result := "";
    for k := 0 to zcount
      invariant result == Text(Zeros(k))
    {
      result := result + "1";
    }
    while j < buffer.Length
      invariant first <= j <= buffer.Length
      invariant result == Text(Zeros(zcount) + cells[first..j])
    {
      TextSnoc(Zeros(zcount) + cells[first..j], cells[j]);
      assert Zeros(zcount) + cells[first..j + 1] == Zeros(zcount) + cells[first..j] + [cells[j]];
      var c := LetterAt(buffer[j]);
      result := result + [c];
      j := j + 1;
    }
    assert cells[first..j] == cells[first..];
  }

  // ----- the decoder's words

  /** The multiply-and-add loop has replaced the words from `p` on by `low`: together with the
      carry they denote 58 times what they did, plus the new digit `d`. */
  ghost predicate Multiplied(low: seq<nat>, was: seq<nat>, p: nat, carry: nat, d: nat) {
    p + |low| == |was| && Below(low, WORD) && carry < 58 &&
    Val(low, WORD) + carry * Pow(WORD, |low|) == 58 * Val(was[p..], WORD) + d
  }

  lemma MultiplyArithmetic(v: nat, u: nat, carry: nat, w: nat, d: nat, q: nat, r: nat, p: nat)
    requires v + carry * p == 58 * u + d
    requires w * 58 + carry == q * WORD + r
    ensures r * p + v + q * (WORD * p) == 58 * (w * p + u) + d
  {
    assert (w * 58 + carry) * p == 58 * (w * p) + carry * p;
    assert (q * WORD + r) * p == q * (WORD * p) + r * p;
  }

  /** One word of the loop; the carry stays under 58, so the six-bit mask loses none of it. */
  lemma MultiplyTurn(low: seq<nat>, was: seq<nat>, p: nat, carry: nat, d: nat)
    requires 0 < p && Multiplied(low, was, p, carry, d) && Below(was, WORD)
    ensures var t := was[p - 1] * 58 + carry;
      was[p - 1] < WORD && t < WORD * WORD && t / WORD % 0x40 == t / WORD < 58 &&
      Multiplied([t % WORD] + low, was, p - 1, t / WORD, d)
  {
    var w := was[p - 1];
    var t := w * 58 + carry;
    var q, r := t / WORD, t % WORD;
    assert was[p - 1..] == [w] + was[p..];
    ValCons(r, low, WORD);
    ValCons(w, was[p..], WORD);
    MultiplyArithmetic(Val(low, WORD), Val(was[p..], WORD), carry, w, d, q, r, Pow(WORD, |low|));
  }

  lemma WordLimit()
    ensures Pow(WORD, WORDS) == Limit()
  {
    PowMul(256, 4, WORDS);
    PowAdd(256, 2, 2);
  }

  /** After the last word the carry is zero exactly when the product still fits the words. */
  lemma MultiplyDone(low: seq<nat>, was: seq<nat>, carry: nat, d: nat)
    requires |was| == WORDS && Multiplied(low, was, 0, carry, d)
    ensures Below(low, WORD)
    ensures carry == 0 <==> Val(was, WORD) * 58 + d < Limit()
    ensures carry == 0 ==> Val(low, WORD) == Val(was, WORD) * 58 + d
  {
    hide Val, Pow, Limit;
    assert was[0..] == was;
    WordLimit();
    ValBound(low, WORD);
    if carry > 0 { MulLe(1, carry, Pow(WORD, WORDS)); }
  }

  /** The bytes of a word, most significant first. */
  function WordBytes(w: u32): seq<byte> {
    [w / 0x100_0000 % 0x100, w / 0x1_0000 % 0x100, w / 0x100 % 0x100, w % 0x100]
  }

  lemma WordFits(words: seq<nat>, j: nat)
    requires j < |words| && Below(words, WORD)
    ensures words[j] < U32
  {}

  lemma Quarters(w: u32)
    ensures w == ((w / 0x100_0000 % 0x100 * 256 + w / 0x1_0000 % 0x100) * 256 + w / 0x100 % 0x100) * 256 + w % 0x100
  {}

  lemma UnpackWord(bytes: seq<nat>, words: seq<nat>, w: u32)
    requires Val(bytes, 256) == Val(words, WORD)
    ensures Val(bytes + WordBytes(w), 256) == Val(words + [w], WORD)
  {
    var a, b, c, d := w / 0x100_0000 % 0x100, w / 0x1_0000 % 0x100, w / 0x100 % 0x100, w % 0x100;
    Quarters(w);
    hide Val;
    assert bytes + [a, b, c, d] == bytes + [a] + [b] + [c] + [d];
    ValSnoc(bytes, a, 256);
    ValSnoc(bytes + [a], b, 256);
    ValSnoc(bytes + [a] + [b], c, 256);
    ValSnoc(bytes + [a] + [b] + [c], d, 256);
    ValSnoc(words, w, WORD);
  }

  /** The final slice keeps one zero byte for every leading '1'; it exists exactly when there is room. */
  lemma FinalSlice(bin: seq<byte>, zcount: nat)
    requires |bin| == CAPACITY
    ensures Finish(zcount, Val(bin, 256)) ==
      if LeadingZeros(bin) < zcount then Panic else Ok(bin[LeadingZeros(bin) - zcount..])
  {
    hide Val, Digits, LeadingZeros;
    var n := LeadingZeros(bin);
    ZerosThenDigits(bin, 256);
    if zcount <= n {
      assert bin[n - zcount..] == Zeros(zcount) + bin[n..];
    }
  }

  // ----- the decoder

  /** The word loop: multiply the number in `out` by 58 and add `c`; the final carry is returned. */
  method MultiplyAdd(out: array<nat>, digit: u64) returns (c: u64)
    requires out.Length == WORDS && Below(out[..], WORD) && digit < 58
    modifies out
    ensures Below(out[..], WORD)
    ensures c == 0 <==> Val(old(out[..]), WORD) * 58 + digit < Limit()
    ensures c == 0 ==> Val(out[..], WORD) == Val(old(out[..]), WORD) * 58 + digit
  {
    ghost var was := out[..];
    ghost var low: seq<nat> := [];
    c := digit;
    var j := out.Length;
    assert was[j..] == [];
    assert Multiplied(low, was, j, c, digit);
    hide *;
    while j != 0
      invariant j <= out.Length && c < 58
      invariant Multiplied(low, was, j, c, digit)
      invariant j + |low| == out.Length
      invariant forall k :: 0 <= k < j ==> out[k] == was[k]
      invariant forall k :: j <= k < out.Length ==> out[k] == low[k - j]
    {
      MultiplyTurn(low, was, j, c, digit);
      j := j - 1;
      var t: u64 := out[j] * 58 + c;
      c := t / WORD % 0x40; // the source's (t & 0x3f00000000) >> 32
      ghost var word := t % WORD;
      out[j] := t % WORD;
      low := [word] + low;
    }
    assert out[..] == low;
    MultiplyDone(low, was, c, digit);
  }

  /** What one character of input calls for, in terms of its entry in the table. */
  lemma DecodeAt(s: string, i: nat, v: nat)
    requires i < |s|
    ensures 0x80 <= s[i] as int ==> DecodeFrom(s, i, v) == Err(InvalidBase58Character(LeadByte(s[i]), i))
    ensures s[i] as int < 0x80 && CodeDigit(s[i] as int) == -1 ==>
      DecodeFrom(s, i, v) == Err(InvalidBase58Character(s[i], i))
    ensures s[i] as int < 0x80 && CodeDigit(s[i] as int) != -1 ==>
      0 <= CodeDigit(s[i] as int) < 58 && DecodeFrom(s, i, v) ==
        if Limit() <= v * 58 + CodeDigit(s[i] as int) then Err(InvalidBase58Length)
        else DecodeFrom(s, i + 1, v * 58 + CodeDigit(s[i] as int))
  {
    hide Limit;
  }

  lemma DecodeStart(s: string)
    ensures Decode(s) == DecodeFrom(s, LeadingOnes(s), 0)
  {}

  lemma DecodeEnd(s: string, v: nat)
    ensures DecodeFrom(s, |s|, v) == Finish(LeadingOnes(s), v)
  {}

  /** The character loop: read the number after the leading ones into `out`, or say why it stops. */
  method ReadNumber(s: string, out: array<nat>) returns (error: Option<ErrorKind>)
    requires out.Length == WORDS && Below(out[..], WORD) && Val(out[..], WORD) == 0
    modifies out
    ensures Below(out[..], WORD)
    ensures Decode(s) == if error.Some? then Err(error.value) else Finish(LeadingOnes(s), Val(out[..], WORD))
  {
    hide Decode, DecodeFrom, Finish, Limit, LeadByte, CodeDigit, Below, Val, Pow;
    var i := LeadingOnes(s);
    ghost var v := 0; // the value of the characters read
    DecodeStart(s);
    while i < |s|
      invariant i <= |s|
      invariant Below(out[..], WORD) && Val(out[..], WORD) == v && Decode(s) == DecodeFrom(s, i, v)
    {
      DecodeAt(s, i, v);
      if s[i] as int >= 0x80 {
        return Some(InvalidBase58Character(LeadByte(s[i]), i));
      }
      var digit := DigitAt(s[i]);
      if digit == -1 {
        return Some(InvalidBase58Character(s[i], i));
      }
      var c := MultiplyAdd(out, digit);
      if c != 0 {
        return Some(InvalidBase58Length);
      }
      // 132 is a multiple of 4, so the source's zeromask is 0 and its second length test never fires.
      i := i + 1;
      v := v * 58 + digit;
    }
    DecodeEnd(s, v);
    error := None;
  }

  method FromBase58(s: string) returns (r: Outcome<seq<byte>>)
    ensures r == Decode(s)
  {
    var out := new nat[(CAPACITY + 3) / 4](_ => 0);
    assert out[..] == Zeros(WORDS);
    ValZeros(WORDS, WORD);
    hide *;
    var zcount := LeadingOnes(s);
    var error := ReadNumber(s, out);
    if error.Some? {
      return Err(error.value);
    }
    var bin := Unpack(out);
    FinalSlice(bin[..], zcount);
    var leadingZeros := LeadingZeros(bin[..]);
    if leadingZeros < zcount {
      return Panic; // the source subtracts unsigned numbers here
    }
    return Ok(bin[leadingZeros - zcount..]);
  }

  /** The body of the loop of `Unpack`: the four bytes of one word. */
  method StoreWord(bin: array<byte>, i: nat, w: u32)
    requires i + 4 <= bin.Length
    modifies bin
    ensures bin[..i] == old(bin[..i]) && bin[i..i + 4] == WordBytes(w)
  {
    bin[i] := w / 0x100_0000 % 0x100;
    bin[i + 1] := w / 0x1_0000 % 0x100;
    bin[i + 2] := w / 0x100 % 0x100;
    bin[i + 3] := w % 0x100;
  }

  /** Write every word as four bytes, most significant first. */
  method Unpack(out: array<nat>) returns (bin: array<byte>)
    requires out.Length == WORDS && Below(out[..], WORD)
    ensures bin.Length == CAPACITY && Val(bin[..], 256) == Val(out[..], WORD)
  {
    bin := new byte[CAPACITY](_ => 0);
    var i, j := 0, 0;
    ghost var words := out[..];
    assert Val(bin[..i], 256) == Val(words[..j], WORD) && out.Length == 33 && bin.Length == 132;
    hide *;
    while j < out.Length
      invariant j <= out.Length && i == 4 * j && words == out[..]
      invariant Val(bin[..i], 256) == Val(words[..j], WORD)
    {
      WordFits(words, j);
      UnpackWord(bin[..i], words[..j], words[j]);
      StoreWord(bin, i, out[j]);
      assert bin[..i + 4] == bin[..i] + bin[i..i + 4];
      assert words[..j + 1] == words[..j] + [words[j]];
      i := i + 4;
      j := j + 1;
    }
    assert bin[..i] == bin[..] && words[..j] == words;
  }
}
