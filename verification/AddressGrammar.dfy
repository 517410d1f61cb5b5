/** The patterns of contact addresses, as recognisers proved to accept exactly their languages. */
module AddressGrammar {
  import opened Common
  import opened Positional
  import opened Base58

  const KEYBASE := "keybase://"
  const MWCMQ := "mwcmq://"
  const MWCMQS := "mwcmqs://"
  const HTTPS := "https://"
  const HTTP := "http://"

  // ----- character classes

  predicate IsDigit(c: char) { '0' <= c <= '9' }
  predicate IsAlnum(c: char) { '0' <= c <= '9' || 'A' <= c <= 'Z' || 'a' <= c <= 'z' }
  predicate IsLetter(c: char) { DigitOf(c).Some? }
  predicate IsDomainChar(c: char) { IsAlnum(c) || c == '.' }
  predicate IsUserChar(c: char) { IsAlnum(c) || c == '_' }
  predicate IsTopicChar(c: char) { IsAlnum(c) || c == '_' || c == '-' }

  predicate All(p: char -> bool, s: string) {
    forall i :: 0 <= i < |s| ==> p(s[i])
  }

  const DIGITS := "0123456789"
  const CAPITALS := "ABCDEFGHIJKLMNOPQRSTUVWXYZ"
  const SMALLS := "abcdefghijklmnopqrstuvwxyz"

  /** The character classes of the patterns, written out. */
  lemma ClassesAre(c: char)
    ensures IsDigit(c) <==> c in DIGITS
    ensures IsDomainChar(c) <==> c in DIGITS + CAPITALS + SMALLS + "."
    ensures IsUserChar(c) <==> c in DIGITS + CAPITALS + SMALLS + "_"
    ensures IsTopicChar(c) <==> c in DIGITS + CAPITALS + SMALLS + "_-"
  {
    InRange(c, DIGITS, '0');
    InRange(c, CAPITALS, 'A');
    InRange(c, SMALLS, 'a');
    hide DIGITS, CAPITALS, SMALLS;
  }

  /** A run of consecutive characters holds those from its first to its last. */
  lemma InRange(c: char, run: string, first: char)
    requires run != "" && forall i :: 0 <= i < |run| ==> run[i] as int == first as int + i
    ensures c in run <==> first <= c && (c as int) < first as int + |run|
  {
    if first <= c && (c as int) < first as int + |run| {
      assert run[c as int - first as int] == c;
    }
  }

  /** The first position of `c`, or the length of `s`. */
  function IndexOf(s: string, c: char): (k: nat)
    ensures k <= |s| && (k < |s| ==> s[k] == c)
    ensures forall i :: 0 <= i < k ==> s[i] != c
  {
    if s == "" || s[0] == c then 0 else IndexOf(s[1..], c) + 1
  }

  lemma IndexOfSplit(a: string, c: char, b: string)
    requires c !in a
    ensures IndexOf(a + [c] + b, c) == |a| && IndexOf(a, c) == |a|
  {
    var s := a + [c] + b;
    assert s[|a|] == c;
    assert forall i :: 0 <= i < |a| ==> s[i] == a[i];
  }

  // ----- decimal ports

  function PrintPort(n: u16): (s: string)
    ensures s != "" && All(IsDigit, s)
  {
    ValOfDigits(n, 10);
    var ds := if n == 0 then [0] else Digits(n, 10);
    seq(|ds|, i requires 0 <= i < |ds| => (ds[i] + 48) as char)
  }

  function PortDigits(s: string): (ds: seq<nat>)
    requires All(IsDigit, s)
    ensures |ds| == |s| && Below(ds, 10)
  {
    seq(|s|, i requires 0 <= i < |s| => s[i] as int - 48)
  }

  /** `u16::from_str_radix(s, 10)` on digits: no value for the empty text or on overflow. */
  function ParsePort(s: string): Option<u16>
    requires All(IsDigit, s)
  {
    var v := Val(PortDigits(s), 10);
    if s == "" || 0x1_0000 <= v then None else Some(v)
  }

  lemma PortRoundTrip(n: u16)
    ensures ParsePort(PrintPort(n)) == Some(n)
  {
    ValOfDigits(n, 10);
    var ds := if n == 0 then [0] else Digits(n, 10);
    assert PortDigits(PrintPort(n)) == ds;
    ValSingle(0, 10);
  }

  // ----- the grammar of peer addresses

  datatype Captures = Captures(publicKey: string, domain: Option<string>, port: Option<string>)

  ghost predicate IsDomain(s: string) {
    s != "" && All(IsDomainChar, s)
  }

  ghost predicate Legal(c: Captures) {
    |c.publicKey| == 52 && All(IsLetter, c.publicKey) &&
    (c.domain.Some? ==> IsDomain(c.domain.value)) &&
    (c.port.Some? ==> c.domain.Some? && All(IsDigit, c.port.value))
  }

  function HostText(domain: string, port: Option<string>): string {
    domain + (if port.Some? then ":" + port.value else "")
  }

  function Body(c: Captures): string {
    c.publicKey + (if c.domain.Some? then "@" + HostText(c.domain.value, c.port) else "")
  }

  /** The language of the two peer patterns, with what their groups capture. */
  ghost predicate Matches(scheme: string, s: string, c: Captures) {
    Legal(c) && (s == scheme + Body(c) || s == Body(c))
  }

  function RecogniseHost(rest: string): (r: Option<(string, Option<string>)>)
    ensures r.Some? && r.value.1.Some? ==> All(IsDigit, r.value.1.value)
  {
    var k := IndexOf(rest, ':');
    if k == 0 || !All(IsDomainChar, rest[..k]) then None
    else if k == |rest| then Some((rest, None))
    else if All(IsDigit, rest[k + 1..]) then Some((rest[..k], Some(rest[k + 1..])))
    else None
  }

  function RecogniseBody(body: string): (r: Option<Captures>)
    ensures r.Some? && r.value.port.Some? ==> All(IsDigit, r.value.port.value)
  {
    if |body| < 52 || !All(IsLetter, body[..52]) then None
    else if |body| == 52 then Some(Captures(body, None, None))
    else if body[52] != '@' then None
    else match RecogniseHost(body[53..])
      case None => None
      case Some(host) => Some(Captures(body[..52], Some(host.0), host.1))
  }

  function Recognise(scheme: string, s: string): (r: Option<Captures>)
    ensures r.Some? && r.value.port.Some? ==> All(IsDigit, r.value.port.value)
  {
    RecogniseBody(if scheme <= s then s[|scheme|..] else s)
  }

  lemma HostExact(rest: string, domain: string, port: Option<string>)
    ensures RecogniseHost(rest) == Some((domain, port)) <==>
      IsDomain(domain) && (port.Some? ==> All(IsDigit, port.value)) && rest == HostText(domain, port)
  {
    var k := IndexOf(rest, ':');
    if k < |rest| {
      assert rest == rest[..k] + ":" + rest[k + 1..];
    } else {
      assert rest[..k] == rest;
    }
    if IsDomain(domain) && rest == HostText(domain, port) {
      assert ':' !in domain;
      IndexOfSplit(domain, ':', if port.Some? then port.value else "");
      if port.Some? {
        assert rest == domain + [':'] + port.value;
      }
    }
  }

  lemma BodyExact(body: string, c: Captures)
    ensures RecogniseBody(body) == Some(c) <==> Legal(c) && body == Body(c)
  {
    if |body| == 52 {
      assert body[..52] == body;
    }
    if |body| > 52 {
      assert body == body[..52] + [body[52]] + body[53..];
      if c.domain.Some? {
        HostExact(body[53..], c.domain.value, c.port);
        hide RecogniseHost, HostText, IsDomain;
        if Legal(c) && body == Body(c) {
          assert Body(c)[53..] == HostText(c.domain.value, c.port);
        }
      }
    }
  }

  lemma BodyHasNoScheme(scheme: string, c: Captures)
    requires |scheme| <= 52 && !All(IsLetter, scheme) && Legal(c)
    ensures !(scheme <= Body(c))
  {
    var k :| 0 <= k < |scheme| && !IsLetter(scheme[k]);
    assert Body(c)[k] == c.publicKey[k];
  }

  /** The recogniser accepts exactly the pattern's language, with the pattern's captures. */
  lemma RecogniseExact(scheme: string, s: string, c: Captures)
    requires |scheme| <= 52 && !All(IsLetter, scheme)
    ensures Recognise(scheme, s) == Some(c) <==> Matches(scheme, s, c)
  {
    hide Legal, RecogniseBody, Body;
    BodyExact(s, c);
    if Legal(c) {
      BodyHasNoScheme(scheme, c);
    }
    if scheme <= s {
      var body := s[|scheme|..];
      assert s == scheme + body;
      BodyExact(body, c);
    } else {
      assert s != scheme + Body(c);
    }
  }

  // ----- the grammar of Keybase addresses

  ghost predicate LegalUser(username: string, topic: Option<string>) {
    1 <= |username| <= 16 && All(IsUserChar, username) &&
    (topic.Some? ==> topic.value != "" && All(IsTopicChar, topic.value))
  }

  function UserText(username: string, topic: Option<string>): string {
    username + (if topic.Some? then ":" + topic.value else "")
  }

  function RecogniseUser(body: string): Option<(string, Option<string>)> {
    var k := IndexOf(body, ':');
    if k == 0 || 16 < k || !All(IsUserChar, body[..k]) then None
    else if k == |body| then Some((body, None))
    else if k + 1 < |body| && All(IsTopicChar, body[k + 1..]) then Some((body[..k], Some(body[k + 1..])))
    else None
  }

  function RecogniseKeybase(s: string): Option<(string, Option<string>)> {
    RecogniseUser(if KEYBASE <= s then s[|KEYBASE|..] else s)
  }

  lemma UserExact(body: string, username: string, topic: Option<string>)
    ensures RecogniseUser(body) == Some((username, topic)) <==>
      LegalUser(username, topic) && body == UserText(username, topic)
  {
    var k := IndexOf(body, ':');
    if k < |body| {
      assert body == body[..k] + ":" + body[k + 1..];
    } else {
      assert body[..k] == body;
    }
    if LegalUser(username, topic) && body == UserText(username, topic) {
      assert ':' !in username;
      IndexOfSplit(username, ':', if topic.Some? then topic.value else "");
      if topic.Some? {
        assert body == username + [':'] + topic.value;
      }
    }
  }

  lemma UserHasNoScheme(username: string, topic: Option<string>)
    requires LegalUser(username, topic)
    ensures !(KEYBASE <= UserText(username, topic))
  {
    var s := UserText(username, topic);
    assert KEYBASE[8] == '/';
    assert forall i :: 0 <= i < |s| ==> s[i] != '/';
  }

  /** The Keybase pattern, with or without its scheme, captures exactly the legal names. */
  lemma KeybaseExact(s: string, username: string, topic: Option<string>)
    ensures RecogniseKeybase(s) == Some((username, topic)) <==>
      LegalUser(username, topic) && (s == KEYBASE + UserText(username, topic) || s == UserText(username, topic))
  {
    hide LegalUser, RecogniseUser, UserText;
    UserExact(s, username, topic);
    if LegalUser(username, topic) {
      UserHasNoScheme(username, topic);
    }
    if KEYBASE <= s {
      var body := s[|KEYBASE|..];
      assert s == KEYBASE + body;
      UserExact(body, username, topic);
    } else {
      assert s != KEYBASE + UserText(username, topic);
    }
  }
}
