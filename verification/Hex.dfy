/** Hexadecimal text (section 8 of RFC 4648, lower case): printing bytes and reading them back. */
module Hex {
  import opened Common

  type ascii = c: char | c as int < 0x80 witness '0'
  type Text = seq<ascii>

  function Nibble(d: nat): ascii
    requires d < 16
  {
    if d < 10 then (d + 48) as char else (d + 87) as char
  }

  /** Two digits for every byte, the more significant first. */
  function ToHex(bytes: seq<byte>): (s: Text)
    ensures |s| == 2 * |bytes|
  {
    seq(2 * |bytes|, k requires 0 <= k < 2 * |bytes| =>
      if k % 2 == 0 then Nibble(bytes[k / 2] / 16) else Nibble(bytes[k / 2] % 16))
  }

  method PrintHex(bytes: seq<byte>) returns (s: Text)
    ensures s == ToHex(bytes)
  {
    s := [];
    for i := 0 to |bytes|
      invariant s == ToHex(bytes[..i])
    {
      s := s + [Nibble(bytes[i] / 16), Nibble(bytes[i] % 16)];
    }
    assert bytes[..|bytes|] == bytes;
  }

  // ----- reading

  function HexDigit(c: ascii): (d: Option<nat>)
    ensures d.Some? ==> d.value < 16
  {
    var n := c as int;
    if 48 <= n < 58 then Some(n - 48)
    else if 97 <= n < 103 then Some(n - 87)
    else if 65 <= n < 71 then Some(n - 55)
    else None
  }

  /** `u8::from_str_radix(part, 16)` on two characters: a plus sign may stand for the first digit. */
  function ParsePart(part: Text): Option<byte>
    requires |part| == 2
  {
    var lo := HexDigit(part[1]);
    if part[0] == '+' then lo else
      var hi := HexDigit(part[0]);
      if hi.None? || lo.None? then None else Some(hi.value * 16 + lo.value)
  }

  predicate IsSpace(c: ascii) {
    9 <= c as int <= 13 || c == ' '
  }

  function TrimStart(s: Text): Text {
    if s != [] && IsSpace(s[0]) then TrimStart(s[1..]) else s
  }

  function TrimEnd(s: Text): Text {
    if s != [] && IsSpace(s[|s| - 1]) then TrimEnd(s[..|s| - 1]) else s
  }

  /** The slices `split_n(s, 2)` takes, when they all exist. */
  function SplitPairs(s: Text): (parts: seq<Text>)
    requires |s| % 2 == 0
    ensures |parts| == |s| / 2 && forall i :: 0 <= i < |parts| ==> |parts[i]| == 2
  {
    seq(|s| / 2, i requires 0 <= i < |s| / 2 => s[2 * i..2 * i + 2])
  }

  function ParseParts(parts: seq<Text>): Outcome<seq<byte>>
    requires forall i :: 0 <= i < |parts| ==> |parts[i]| == 2
  {
    if parts == [] then Ok([]) else
      match ParsePart(parts[0])
      case None => Err(NumberParsingError)
      case Some(b) =>
        var rest :- ParseParts(parts[1..]);
        Ok([b] + rest)
  }

  /** What is left of a text of at least two characters without a leading 0x and without white space. */
  function Payload(s: Text): Text
    requires 2 <= |s|
  {
    TrimEnd(TrimStart(if s[..2] == "0x" then s[2..] else s))
  }

  function FromHex(s: Text): Outcome<seq<byte>> {
    if |s| % 2 == 1 then Err(NumberParsingError)
    else if |s| < 2 then Panic
    else
      var hexTrim := Payload(s);
      // with fewer than two characters the count of slices underflows; with an odd number the last slice is short
      if |hexTrim| < 2 || |hexTrim| % 2 == 1 then Panic else ParseParts(SplitPairs(hexTrim))
  }

  // ----- what the reader accepts

  /** The digit a character may be written for: capitals for small letters, and in the first place
      of a pair a plus sign for zero. */
  function PlainDigit(c: ascii, first: bool): ascii {
    if first && c == '+' then '0' else if 65 <= c as int < 71 then (c as int + 32) as char else c
  }

  /** The text with its digits written as the printer writes them. */
  function Plain(s: Text): (t: Text)
    ensures |t| == |s|
  {
    seq(|s|, k requires 0 <= k < |s| => PlainDigit(s[k], k % 2 == 0))
  }

  lemma PlainNibble(c: ascii, d: nat)
    requires d < 16
    ensures PlainDigit(c, false) == Nibble(d) <==> HexDigit(c) == Some(d)
    ensures PlainDigit(c, true) == Nibble(d) <==> if c == '+' then d == 0 else HexDigit(c) == Some(d)
  {}

  lemma PartReads(part: Text, b: byte)
    requires |part| == 2
    ensures ParsePart(part) == Some(b) <==> Plain(part) == [Nibble(b / 16), Nibble(b % 16)]
  {
    PlainNibble(part[0], b / 16);
    PlainNibble(part[1], b % 16);
    assert Plain(part) == [PlainDigit(part[0], true), PlainDigit(part[1], false)];
    hide PlainDigit, Nibble;
  }

  lemma SplitHead(s: Text)
    requires 2 <= |s| && |s| % 2 == 0
    ensures SplitPairs(s) == [s[..2]] + SplitPairs(s[2..])
  {
    var tail := s[2..];
    forall i | 0 <= i < |tail| / 2 ensures SplitPairs(s)[i + 1] == SplitPairs(tail)[i] {
      var j := 2 * i;
      assert tail[j] == s[j + 2] && tail[j + 1] == s[j + 3];
      assert tail[j..j + 2] == [tail[j], tail[j + 1]] && s[j + 2..j + 4] == [s[j + 2], s[j + 3]];
    }
  }

  lemma PlainHead(s: Text)
    requires 2 <= |s|
    ensures Plain(s) == Plain(s[..2]) + Plain(s[2..])
  {}

  lemma HexHead(bytes: seq<byte>)
    requires bytes != []
    ensures ToHex(bytes) == [Nibble(bytes[0] / 16), Nibble(bytes[0] % 16)] + ToHex(bytes[1..])
  {}

  lemma SamePieces<T>(a: seq<T>, b: seq<T>, c: seq<T>, d: seq<T>)
    requires |a| == |c|
    ensures a + b == c + d <==> a == c && b == d
  {
    if a + b == c + d {
      assert (a + b)[..|a|] == a && (a + b)[|a|..] == b;
      assert (c + d)[..|a|] == c && (c + d)[|a|..] == d;
    }
  }

  lemma {:induction false} PartsRead(s: Text, bytes: seq<byte>)
    requires |s| % 2 == 0
    ensures ParseParts(SplitPairs(s)) == Ok(bytes) <==> Plain(s) == ToHex(bytes)
    decreases |s|
  {
    if s == [] {
      assert SplitPairs(s) == [];
    } else {
      var head, tail := s[..2], s[2..];
      SplitHead(s);
      assert SplitPairs(s)[1..] == SplitPairs(tail);
      if bytes == [] {
        assert ToHex(bytes) == [];
      } else {
        hide ToHex, SplitPairs, ParsePart, Plain, Nibble;
        PartReads(head, bytes[0]);
        PartsRead(tail, bytes[1..]);
        PlainHead(s);
        HexHead(bytes);
        SamePieces(Plain(head), Plain(tail), [Nibble(bytes[0] / 16), Nibble(bytes[0] % 16)], ToHex(bytes[1..]));
        assert bytes == [bytes[0]] + bytes[1..];
      }
    }
  }

  lemma ReadsPayload(s: Text, bytes: seq<byte>)
    ensures FromHex(s) == Ok(bytes) <==>
      |s| % 2 == 0 && 2 <= |s| && bytes != [] && Plain(Payload(s)) == ToHex(bytes)
  {
    if |s| % 2 == 0 && 2 <= |s| {
      var t := Payload(s);
      hide Payload, Plain, ToHex, SplitPairs, ParseParts;
      if |t| % 2 == 0 { PartsRead(t, bytes); }
    }
  }

  // ----- the accepted texts, written out

  /** Text of white space only: tab, line feed, vertical tab, form feed, carriage return, space. */
  ghost predicate AllSpace(s: Text) {
    forall i :: 0 <= i < |s| ==> s[i] as int in {9, 10, 11, 12, 13, 32}
  }

  /** `t` is `body` without the white space around it. */
  ghost predicate Strips(body: Text, t: Text) {
    (exists left: Text, right: Text :: body == left + t + right && AllSpace(left) && AllSpace(right)) &&
    (t != [] ==> !AllSpace(t[..1]) && !AllSpace(t[|t| - 1..]))
  }

  lemma SpaceIs(c: ascii)
    ensures IsSpace(c) <==> AllSpace([c])
  {
    assert [c][0] == c;
  }

  lemma {:induction false} TrimStartIs(s: Text) returns (left: Text)
    ensures s == left + TrimStart(s) && AllSpace(left)
    ensures TrimStart(s) != [] ==> !IsSpace(TrimStart(s)[0])
    decreases |s|
  {
    left := [];
    if s != [] && IsSpace(s[0]) {
      left := TrimStartIs(s[1..]);
      SpaceIs(s[0]);
      assert s == [s[0]] + (left + TrimStart(s[1..]));
      left := [s[0]] + left;
    }
  }

  lemma SnocPieces(s: Text, a: Text, b: Text)
    requires s != [] && s[..|s| - 1] == a + b
    ensures s == a + (b + [s[|s| - 1]])
  {
    assert s == (a + b) + [s[|s| - 1]];
  }

  lemma SpaceSnoc(s: Text, c: ascii)
    requires AllSpace(s) && AllSpace([c])
    ensures AllSpace(s + [c])
  {
    assert [c][0] == c;
  }

  lemma {:induction false} TrimEndIs(s: Text) returns (right: Text)
    ensures s == TrimEnd(s) + right && AllSpace(right)
    ensures TrimEnd(s) != [] ==> !IsSpace(TrimEnd(s)[|TrimEnd(s)| - 1])
    decreases |s|
  {
    right := [];
    if s != [] && IsSpace(s[|s| - 1]) {
      var n := |s| - 1;
      right := TrimEndIs(s[..n]);
      SpaceIs(s[n]);
      assert TrimEnd(s) == TrimEnd(s[..n]);
      hide TrimEnd, IsSpace;
      SnocPieces(s, TrimEnd(s[..n]), right);
      SpaceSnoc(right, s[n]);
      right := right + [s[n]];
    }
  }

  lemma {:induction false} TrimStartDrops(left: Text, s: Text)
    requires AllSpace(left) && (s != [] ==> !IsSpace(s[0]))
    ensures TrimStart(left + s) == s
    decreases |left|
  {
    if left == [] {
      assert left + s == s;
    } else {
      assert (left + s)[1..] == left[1..] + s && (left + s)[0] == left[0];
      assert IsSpace(left[0]);
      TrimStartDrops(left[1..], s);
    }
  }

  lemma {:induction false} TrimEndDrops(s: Text, right: Text)
    requires AllSpace(right) && (s != [] ==> !IsSpace(s[|s| - 1]))
    ensures TrimEnd(s + right) == s
    decreases |right|
  {
    var n := |right| - 1;
    if right == [] {
      assert s + right == s;
    } else {
      assert (s + right)[..|s + right| - 1] == s + right[..n] && (s + right)[|s + right| - 1] == right[n];
      assert IsSpace(right[n]);
      TrimEndDrops(s, right[..n]);
    }
  }

  /** Trimming removes exactly the white space around. */
  lemma TrimExact(body: Text, t: Text)
    ensures TrimEnd(TrimStart(body)) == t <==> Strips(body, t)
  {
    hide IsSpace, TrimStart, TrimEnd;
    var u := TrimStart(body);
    var left := TrimStartIs(body);
    var right := TrimEndIs(u);
    var v := TrimEnd(u);
    assert body == left + v + right;
    if v != [] {
      SpaceIs(v[0]);
      SpaceIs(v[|v| - 1]);
      assert u[0] == v[0] && v[..1] == [v[0]] && v[|v| - 1..] == [v[|v| - 1]];
    }
    assert Strips(body, v);
    if Strips(body, t) { StripsUnique(body, t); }
  }

  lemma StripsUnique(body: Text, t: Text)
    requires Strips(body, t)
    ensures TrimEnd(TrimStart(body)) == t
  {
    var left, right :| body == left + t + right && AllSpace(left) && AllSpace(right);
    hide IsSpace, TrimStart, TrimEnd;
    if t == [] {
      assert body == left + right + t && t + [] == t;
      assert AllSpace(left + right);
      TrimStartDrops(left + right, t);
      TrimEndDrops(t, []);
    } else {
      SpaceIs(t[0]);
      SpaceIs(t[|t| - 1]);
      assert t[..1] == [t[0]] && t[|t| - 1..] == [t[|t| - 1]] && left + t + right == left + (t + right);
      TrimStartDrops(left, t + right);
      TrimEndDrops(t, right);
    }
  }

  /** What follows a leading 0x, if there is one. */
  function Body(s: Text): Text {
    if "0x" <= s then s[2..] else s
  }

  const LOWER := "0123456789abcdef"
  const UPPER := "0123456789ABCDEF"

  /** `c` stands for the digit `d`; as the first of a pair a plus sign stands for zero. */
  ghost predicate StandsFor(c: ascii, d: nat, first: bool)
    requires d < 16
  {
    c == LOWER[d] || c == UPPER[d] || (first && d == 0 && c == '+')
  }

  /** `t` writes the bytes, two digits for each, the more significant first. */
  ghost predicate Writes(t: Text, bytes: seq<byte>) {
    |t| == 2 * |bytes| && forall i :: 0 <= i < |bytes| ==>
      StandsFor(t[2 * i], bytes[i] / 16, true) && StandsFor(t[2 * i + 1], bytes[i] % 16, false)
  }

  lemma StandsForPlain(c: ascii, d: nat, first: bool)
    requires d < 16
    ensures StandsFor(c, d, first) <==> PlainDigit(c, first) == Nibble(d)
  {}

  lemma SameDigits(t: Text, bytes: seq<byte>, i: nat)
    requires |t| == 2 * |bytes| && i < |bytes|
    ensures StandsFor(t[2 * i], bytes[i] / 16, true) <==> Plain(t)[2 * i] == ToHex(bytes)[2 * i]
    ensures StandsFor(t[2 * i + 1], bytes[i] % 16, false) <==> Plain(t)[2 * i + 1] == ToHex(bytes)[2 * i + 1]
  {
    StandsForPlain(t[2 * i], bytes[i] / 16, true);
    StandsForPlain(t[2 * i + 1], bytes[i] % 16, false);
    hide StandsFor, PlainDigit, Nibble;
  }

  lemma WritesPlain(t: Text, bytes: seq<byte>)
    ensures Writes(t, bytes) <==> Plain(t) == ToHex(bytes)
  {
    hide StandsFor, Plain, ToHex;
    if |t| == 2 * |bytes| {
      forall i | 0 <= i < |bytes|
        ensures StandsFor(t[2 * i], bytes[i] / 16, true) <==> Plain(t)[2 * i] == ToHex(bytes)[2 * i]
        ensures StandsFor(t[2 * i + 1], bytes[i] % 16, false) <==> Plain(t)[2 * i + 1] == ToHex(bytes)[2 * i + 1]
      {
        SameDigits(t, bytes, i);
      }
      if Writes(t, bytes) {
        forall k | 0 <= k < |t| ensures Plain(t)[k] == ToHex(bytes)[k] {
          var i := k / 2;
          SameDigits(t, bytes, i);
          assert StandsFor(t[2 * i], bytes[i] / 16, true) && StandsFor(t[2 * i + 1], bytes[i] % 16, false);
          assert k == 2 * i || k == 2 * i + 1;
        }
      }
    }
  }

  /** Reading a text gives `bytes` if and only if its length is even, there is at least one byte, and
      without a leading 0x and then white space around it the text writes them. */
  lemma HexInverse(s: Text, bytes: seq<byte>)
    ensures FromHex(s) == Ok(bytes) <==>
      |s| % 2 == 0 && bytes != [] && exists t :: Strips(Body(s), t) && Writes(t, bytes)
  {
    ReadsPayload(s, bytes);
    if 2 <= |s| {
      PayloadIs(s);
      WritesPlain(Payload(s), bytes);
    } else if |s| % 2 == 0 {
      forall t | Strips(Body(s), t) ensures !(Writes(t, bytes) && bytes != []) {
      }
    }
    hide FromHex, Payload, Strips, Writes, Plain, ToHex;
    if 2 <= |s| {
      forall t | Strips(Body(s), t) ensures t == Payload(s) {
        TrimExact(Body(s), t);
      }
    }
  }

  /** How reading ends otherwise: text of even length panics when nothing, or an odd number of
      characters, is left without 0x and white space; everything else is a number parsing error. */
  lemma HexOutcomes(s: Text)
    ensures FromHex(s) == Panic <==> |s| % 2 == 0 && exists t :: Strips(Body(s), t) && (t == [] || |t| % 2 == 1)
    ensures FromHex(s).Err? ==> FromHex(s).error == NumberParsingError
  {
    if |s| % 2 == 0 && 2 <= |s| {
      PayloadIs(s);
      if |Payload(s)| % 2 == 0 { PartsOutcome(SplitPairs(Payload(s))); }
      hide Payload, Strips, ParseParts, SplitPairs;
      forall t | Strips(Body(s), t) ensures t == Payload(s) {
        TrimExact(Body(s), t);
      }
    } else if s == [] {
      assert Body(s) == s;
      TrimExact(s, s);
    }
  }

  lemma {:induction false} PartsOutcome(parts: seq<Text>)
    requires forall i :: 0 <= i < |parts| ==> |parts[i]| == 2
    ensures ParseParts(parts) != Panic && (ParseParts(parts).Err? ==> ParseParts(parts).error == NumberParsingError)
  {
    if parts != [] { PartsOutcome(parts[1..]); }
  }

  /** The printed form: the digits of every byte, in lower case and the more significant first. */
  lemma PrintedDigits(bytes: seq<byte>, i: nat)
    requires i < |bytes|
    ensures |ToHex(bytes)| == 2 * |bytes|
    ensures ToHex(bytes)[2 * i] == LOWER[bytes[i] / 16] && ToHex(bytes)[2 * i + 1] == LOWER[bytes[i] % 16]
  {
    assert forall d: nat :: d < 16 ==> Nibble(d) == LOWER[d];
  }

  lemma PayloadIs(s: Text)
    requires 2 <= |s|
    ensures Payload(s) == TrimEnd(TrimStart(Body(s))) && Strips(Body(s), Payload(s))
  {
    assert "0x" <= s <==> s[..2] == "0x";
    TrimExact(Body(s), Payload(s));
    hide TrimStart, TrimEnd, Strips;
  }

  ghost predicate LowerHex(s: Text) {
    |s| % 2 == 0 && forall k :: 0 <= k < |s| ==> HexDigit(s[k]).Some? && !(65 <= s[k] as int < 71)
  }

  /** Lower-case text of even length is its own payload, so it is read exactly as what it prints. */
  lemma LowerInverse(s: Text, bytes: seq<byte>)
    requires LowerHex(s)
    ensures FromHex(s) == Ok(bytes) <==> s == ToHex(bytes) && bytes != []
  {
    ReadsPayload(s, bytes);
    if s != [] {
      assert s[1] != 'x';
      assert Payload(s) == s;
      assert Plain(s) == s;
    }
  }

  lemma HexRoundTrip(bytes: seq<byte>)
    ensures FromHex(ToHex(bytes)) == if bytes == [] then Panic else Ok(bytes)
  {
    LowerInverse(ToHex(bytes), bytes);
  }
}
