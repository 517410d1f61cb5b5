/** Contact addresses: printing them and parsing them back. */
module Addresses {
  import opened Common
  import opened Positional
  import opened Base58
  import opened Base58Check
  import opened AddressGrammar

  // ----- the world the parser runs in

  /** What the parser takes from elsewhere: the hash, the curve library, the network and platform
      constants, and the URL parser. A public key is represented by its compressed serialisation. */
  datatype World = World(
    hash: Hash,
    fromSlice: seq<byte> -> Option<seq<byte>>,
    version: seq<byte>,
    defaultPort: u16,
    isUrl: string -> bool)
  {
    ghost predicate Valid() {
      (version == MAINNET || version == TESTNET) &&
      forall b :: fromSlice(b).Some? ==> |fromSlice(b).value| == 33 && fromSlice(fromSlice(b).value) == fromSlice(b)
    }

    ghost predicate IsKey(key: seq<byte>) {
      fromSlice(key) == Some(key)
    }

    function KeyText(key: seq<byte>): string {
      ToBase58Check(hash, key, version)
    }

    ghost predicate IsKeyText(text: string) {
      exists key :: IsKey(key) && text == KeyText(key)
    }

    function ReadKey(text: string): Outcome<seq<byte>> {
      var parts :- FromBase58Check(hash, text, |version|);
      if parts.0 != version then Err(InvalidBase58Version) else
        match fromSlice(parts.1)
        case None => Err(InvalidBase58Key)
        case Some(key) => Ok(key)
    }
  }

  datatype Address =
    | Mwcmqs(publicKey: string, domain: string, port: Option<u16>)
    | Grinbox(publicKey: string, domain: string, port: Option<u16>)
    | Keybase(username: string, topic: Option<string>)
    | Https(uri: string)

  datatype AddressType = MwcmqsType | GrinboxType | KeybaseType | HttpsType

  const DEFAULT_GRINBOX_DOMAIN := "mq.mwc.mw"
  const DEFAULT_MWCMQS_DOMAIN := "mqs.mwc.mw"

  // ----- printing

  predicate IsPeer(a: Address) {
    a.Mwcmqs? || a.Grinbox?
  }

  function Scheme(t: AddressType): string {
    match t
    case MwcmqsType => MWCMQS
    case GrinboxType => MWCMQ
    case KeybaseType => KEYBASE
    case HttpsType => HTTPS
  }

  function DefaultDomain(a: Address): string {
    if a.Mwcmqs? then DEFAULT_MWCMQS_DOMAIN else DEFAULT_GRINBOX_DOMAIN
  }

  function TypeOf(a: Address): AddressType {
    match a
    case Mwcmqs(_, _, _) => MwcmqsType
    case Grinbox(_, _, _) => GrinboxType
    case Keybase(_, _) => KeybaseType
    case Https(_) => HttpsType
  }

  /** The part after the scheme: a default port is never written, a default domain only with a port. */
  function PeerText(w: World, a: Address): string
    requires IsPeer(a)
  {
    var hasPort := a.port.Some? && a.port.value != w.defaultPort;
    a.publicKey +
    if a.domain != DefaultDomain(a) || hasPort
    then "@" + a.domain + (if hasPort then ":" + PrintPort(a.port.value) else "")
    else ""
  }

  function Display(w: World, a: Address): string {
    match a
    case Mwcmqs(_, _, _) => MWCMQS + PeerText(w, a)
    case Grinbox(_, _, _) => MWCMQ + PeerText(w, a)
    case Keybase(username, topic) => KEYBASE + UserText(username, topic)
    case Https(uri) => uri
  }

  function Stripped(w: World, a: Address): string {
    match a
    case Mwcmqs(_, _, _) => Display(w, a)[9..]
    case Grinbox(_, _, _) => Display(w, a)[8..]
    case Keybase(username, _) => username
    case Https(uri) => uri
  }

  // ----- parsing

  function PeerFromStr(w: World, t: AddressType, s: string): Outcome<Address>
    requires t == MwcmqsType || t == GrinboxType
  {
    match Recognise(Scheme(t), s)
    case None => Err(GrinboxAddressParsingError(s))
    case Some(c) =>
      if c.port.Some? && ParsePort(c.port.value).None? then Panic else
        var port := if c.port.Some? then ParsePort(c.port.value) else None;
        var key :- w.ReadKey(c.publicKey);
        if t == MwcmqsType
        then Ok(Mwcmqs(w.KeyText(key), if c.domain.Some? then c.domain.value else DEFAULT_MWCMQS_DOMAIN, port))
        else Ok(Grinbox(w.KeyText(key), if c.domain.Some? then c.domain.value else DEFAULT_GRINBOX_DOMAIN, port))
  }

  function FromStr(w: World, t: AddressType, s: string): Outcome<Address> {
    match t
    case HttpsType => if w.isUrl(s) then Ok(Https(s)) else Err(HttpsAddressParsingError(s))
    case KeybaseType =>
      (match RecogniseKeybase(s)
       case None => Err(KeybaseAddressParsingError(s))
       case Some(u) => Ok(Keybase(u.0, u.1)))
    case _ => PeerFromStr(w, t, s)
  }

  predicate HasScheme(scheme: string, s: string) {
    scheme < s && '\n' !in s[|scheme|..]
  }

  /** The type named by the scheme of `s`, if it has a known one followed by something on one line. */
  function TypeByScheme(s: string): Option<AddressType> {
    if HasScheme(KEYBASE, s) then Some(KeybaseType)
    else if HasScheme(MWCMQ, s) then Some(GrinboxType)
    else if HasScheme(MWCMQS, s) then Some(MwcmqsType)
    else if HasScheme(HTTPS, s) || HasScheme(HTTP, s) then Some(HttpsType)
    else None
  }

  /** The type whose parser reads `s`: without a known scheme it is MWCMQS. */
  function TypeRead(s: string): AddressType {
    match TypeByScheme(s)
    case None => MwcmqsType
    case Some(t) => t
  }

  function Parse(w: World, s: string): Outcome<Address> {
    FromStr(w, TypeRead(s), s)
  }

  // ----- which parser reads a text

  /** The scheme, then at least one character, all on one line. */
  ghost predicate Schemed(scheme: string, s: string) {
    exists rest :: s == scheme + rest && rest != "" && '\n' !in rest
  }

  lemma HasSchemeIs(scheme: string, s: string)
    ensures HasScheme(scheme, s) <==> Schemed(scheme, s)
  {
    if scheme < s { assert s == scheme + s[|scheme|..]; }
    forall rest | s == scheme + rest ensures s[|scheme|..] == rest {}
  }

  lemma SchemesDiffer(s: string, a: string, b: string)
    requires a in {"keybase://", "mwcmq://", "mwcmqs://", "https://", "http://"}
    requires b in {"keybase://", "mwcmq://", "mwcmqs://", "https://", "http://"}
    requires Schemed(a, s) && Schemed(b, s)
    ensures a == b
  {
    assert "keybase://"[0] == 'k' && "mwcmq://"[0] == 'm' && "mwcmqs://"[0] == 'm' && "https://"[0] == 'h';
    assert "http://"[0] == 'h' && "http://"[4] == ':' && "https://"[4] == 's';
    assert "mwcmq://"[5] == ':' && "mwcmqs://"[5] == 's';
    assert forall i :: 0 <= i < |a| ==> s[i] == a[i];
    assert forall i :: 0 <= i < |b| ==> s[i] == b[i];
  }

  /** The scheme of a text, followed by something on one line, selects its type. */
  lemma SchemeExact(s: string)
    ensures TypeByScheme(s) == Some(KeybaseType) <==> Schemed("keybase://", s)
    ensures TypeByScheme(s) == Some(GrinboxType) <==> Schemed("mwcmq://", s)
    ensures TypeByScheme(s) == Some(MwcmqsType) <==> Schemed("mwcmqs://", s)
    ensures TypeByScheme(s) == Some(HttpsType) <==> Schemed("https://", s) || Schemed("http://", s)
  {
    HasSchemeIs(KEYBASE, s);
    HasSchemeIs(MWCMQ, s);
    HasSchemeIs(MWCMQS, s);
    HasSchemeIs(HTTPS, s);
    HasSchemeIs(HTTP, s);
    forall a, b | a in {"keybase://", "mwcmq://", "mwcmqs://", "https://", "http://"} &&
      b in {"keybase://", "mwcmq://", "mwcmqs://", "https://", "http://"} && Schemed(a, s) && Schemed(b, s)
      ensures a == b
    {
      SchemesDiffer(s, a, b);
    }
    hide Schemed, HasScheme;
  }

  // ----- what survives printing and parsing

  /** A default port is not written, so it comes back as no port. */
  function Normalise(w: World, a: Address): Address {
    if IsPeer(a) && a.port == Some(w.defaultPort) then a.(port := None) else a
  }

  /** An address whose parts are what the parser itself could have produced. */
  ghost predicate WellFormed(w: World, a: Address) {
    match a
    case Mwcmqs(pk, domain, _) => w.IsKeyText(pk) && IsDomain(domain)
    case Grinbox(pk, domain, _) => w.IsKeyText(pk) && IsDomain(domain)
    case Keybase(username, topic) => LegalUser(username, topic)
    case Https(uri) => w.isUrl(uri) && TypeByScheme(uri) == Some(HttpsType)
  }

  lemma ReadKeyText(w: World, key: seq<byte>)
    requires w.Valid() && w.IsKey(key)
    ensures w.ReadKey(w.KeyText(key)) == Ok(key)
  {
    CheckInverse(w.hash, w.KeyText(key), key, w.version);
  }

  lemma ReadKeyIsKey(w: World, text: string)
    requires w.Valid() && w.ReadKey(text).Ok?
    ensures w.IsKey(w.ReadKey(text).value)
  {}

  /** The text is the checksummed form of a version and data short enough to be read. */
  ghost predicate Checked(w: World, text: string, version: seq<byte>, data: seq<byte>) {
    |version| == 2 && |data| <= 126 && text == ToBase58Check(w.hash, data, version)
  }

  lemma CheckedIs(w: World, text: string, version: seq<byte>, data: seq<byte>)
    requires |version| == 2
    ensures Checked(w, text, version, data) <==> FromBase58Check(w.hash, text, 2) == Ok((version, data))
  {
    CheckInverse(w.hash, text, data, version);
    hide ToBase58Check, FromBase58Check;
  }

  /** Reading a key gives it exactly if the text is the checksummed form of data under the network's
      version that the curve library reads as that key; under any other version it fails with the
      version, and for other data with the key. */
  lemma ReadKeyExact(w: World, text: string)
    requires w.Valid()
    ensures forall key :: w.ReadKey(text) == Ok(key) <==>
      exists data :: Checked(w, text, w.version, data) && w.fromSlice(data) == Some(key)
    ensures w.ReadKey(text) == Err(InvalidBase58Version) <==>
      exists version, data :: version != w.version && Checked(w, text, version, data)
    ensures w.ReadKey(text) == Err(InvalidBase58Key) <==>
      exists data :: Checked(w, text, w.version, data) && w.fromSlice(data).None?
  {
    var r := FromBase58Check(w.hash, text, 2);
    forall version: seq<byte>, data | |version| == 2
      ensures Checked(w, text, version, data) <==> r == Ok((version, data))
    {
      CheckedIs(w, text, version, data);
    }
    VersionLength(w, text);
    CheckErrors(w, text);
    assert |w.version| == 2;
    hide ToBase58Check, FromBase58Check, Checked;
  }

  lemma VersionLength(w: World, text: string)
    ensures var r := FromBase58Check(w.hash, text, 2); r.Ok? ==> |r.value.0| == 2
  {
    hide Decode, Checksum;
  }

  /** Base58Check has no error about versions or keys. */
  lemma CheckErrors(w: World, text: string)
    ensures var r := FromBase58Check(w.hash, text, 2);
      r.Err? ==> r.error.InvalidBase58Character? || r.error in {InvalidBase58Length, InvalidBase58Checksum}
  {
    LengthErrors(text);
    CheckOutcomes(w.hash, text, 2);
    hide Decode, FromBase58Check;
  }

  /** What the recogniser captures from a printed peer address. */
  ghost function PrintedCaptures(w: World, a: Address): Captures
    requires IsPeer(a)
  {
    var hasPort := a.port.Some? && a.port.value != w.defaultPort;
    if a.domain != DefaultDomain(a) || hasPort
    then Captures(a.publicKey, Some(a.domain), if hasPort then Some(PrintPort(a.port.value)) else None)
    else Captures(a.publicKey, None, None)
  }

  lemma PrintedBody(w: World, a: Address)
    requires IsPeer(a)
    ensures PeerText(w, a) == Body(PrintedCaptures(w, a))
  {}

  lemma DefaultDomainsLegal()
    ensures IsDomain(DEFAULT_MWCMQS_DOMAIN) && IsDomain(DEFAULT_GRINBOX_DOMAIN)
  {}

  lemma SchemesAreNotKeys(t: AddressType)
    ensures |Scheme(t)| <= 52 && !All(IsLetter, Scheme(t))
  {
    var k := if t == MwcmqsType then 6 else if t == KeybaseType then 7 else 5;
    assert Scheme(t)[k] == ':';
    assert !IsLetter(Scheme(t)[k]);
  }

  lemma PrintedLegal(w: World, a: Address, key: seq<byte>)
    requires w.Valid() && IsPeer(a) && w.IsKey(key) && a.publicKey == w.KeyText(key) && IsDomain(a.domain)
    ensures Legal(PrintedCaptures(w, a))
  {
    hide ToBase58Check;
    KeyText(w.hash, key, w.version);
  }

  lemma PrintedRecognised(w: World, a: Address, key: seq<byte>, s: string)
    requires w.Valid() && IsPeer(a) && w.IsKey(key) && a.publicKey == w.KeyText(key) && IsDomain(a.domain)
    requires s == Scheme(TypeOf(a)) + PeerText(w, a) || s == PeerText(w, a)
    ensures Recognise(Scheme(TypeOf(a)), s) == Some(PrintedCaptures(w, a))
  {
    PrintedLegal(w, a, key);
    PrintedBody(w, a);
    SchemesAreNotKeys(TypeOf(a));
    hide Legal, Body, PrintedCaptures, PeerText, Scheme, TypeOf, Recognise;
    RecogniseExact(Scheme(TypeOf(a)), s, PrintedCaptures(w, a));
  }

  /** What the parser makes of captures around a valid key. */
  lemma PeerParses(w: World, t: AddressType, s: string, c: Captures, key: seq<byte>, port: Option<u16>)
    requires (t == MwcmqsType || t == GrinboxType) && Recognise(Scheme(t), s) == Some(c)
    requires w.ReadKey(c.publicKey) == Ok(key) && c.publicKey == w.KeyText(key)
    requires if c.port.Some? then All(IsDigit, c.port.value) && ParsePort(c.port.value) == port && port.Some?
      else port.None?
    ensures FromStr(w, t, s) == Ok(
      if t == MwcmqsType then Mwcmqs(c.publicKey,
        if c.domain.Some? then c.domain.value else DEFAULT_MWCMQS_DOMAIN, port)
      else Grinbox(c.publicKey, if c.domain.Some? then c.domain.value else DEFAULT_GRINBOX_DOMAIN, port))
  {
    hide Recognise, ParsePort, All, IsDigit, Scheme, ToBase58Check, FromBase58Check;
  }

  /** The captures of a printed address hold what the normalised address is made of. */
  lemma CapturesGiveBack(w: World, a: Address)
    requires IsPeer(a)
    ensures var c, port := PrintedCaptures(w, a), Normalise(w, a).port;
      (TypeOf(a) == MwcmqsType || TypeOf(a) == GrinboxType) && c.publicKey == a.publicKey &&
      (if c.port.Some? then All(IsDigit, c.port.value) && ParsePort(c.port.value) == port && port.Some?
       else port.None?) &&
      Normalise(w, a) == (
        if TypeOf(a) == MwcmqsType then Mwcmqs(c.publicKey,
          if c.domain.Some? then c.domain.value else DEFAULT_MWCMQS_DOMAIN, port)
        else Grinbox(c.publicKey, if c.domain.Some? then c.domain.value else DEFAULT_GRINBOX_DOMAIN, port))
  {
    if a.port.Some? {
      PortRoundTrip(a.port.value);
    }
    hide ParsePort, PrintPort, DEFAULT_MWCMQS_DOMAIN, DEFAULT_GRINBOX_DOMAIN;
  }

  /** A printed peer address, with or without its scheme, parses to the normalised address. */
  lemma PeerRoundTrip(w: World, a: Address, key: seq<byte>, s: string)
    requires w.Valid() && IsPeer(a) && w.IsKey(key) && a.publicKey == w.KeyText(key) && IsDomain(a.domain)
    requires s == Scheme(TypeOf(a)) + PeerText(w, a) || s == PeerText(w, a)
    ensures FromStr(w, TypeOf(a), s) == Ok(Normalise(w, a))
  {
    hide *;
    PrintedRecognised(w, a, key, s);
    ReadKeyText(w, key);
    CapturesGiveBack(w, a);
    PeerParses(w, TypeOf(a), s, PrintedCaptures(w, a), key, Normalise(w, a).port);
  }

  lemma OneLine(p: char -> bool, s: string)
    requires !p('\n') && All(p, s)
    ensures '\n' !in s
  {}

  lemma BodyOneLine(c: Captures)
    requires Legal(c)
    ensures '\n' !in Body(c) && |Body(c)| >= 52 && All(IsLetter, Body(c)[..52])
  {
    assert Body(c)[..52] == c.publicKey;
    OneLine(IsLetter, c.publicKey);
    if c.domain.Some? { OneLine(IsDomainChar, c.domain.value); }
    if c.port.Some? { OneLine(IsDigit, c.port.value); }
  }

  lemma PeerTextOneLine(w: World, a: Address)
    requires w.Valid() && IsPeer(a) && w.IsKeyText(a.publicKey) && IsDomain(a.domain)
    ensures '\n' !in PeerText(w, a) && |PeerText(w, a)| >= 52 && All(IsLetter, PeerText(w, a)[..52])
  {
    var key :| w.IsKey(key) && a.publicKey == w.KeyText(key);
    PrintedLegal(w, a, key);
    PrintedBody(w, a);
    BodyOneLine(PrintedCaptures(w, a));
  }

  lemma LettersHaveNoScheme(s: string)
    requires |s| >= 52 && All(IsLetter, s[..52])
    ensures TypeByScheme(s).None?
  {
    assert forall i :: 0 <= i < 52 ==> s[..52][i] == s[i];
    assert IsLetter(s[5]) && IsLetter(s[6]) && IsLetter(s[7]);
    assert HTTPS[5] == ':' && HTTP[5] == '/' && MWCMQ[5] == ':' && KEYBASE[7] == ':' && MWCMQS[6] == ':';
  }

  lemma TypeOfDisplay(w: World, a: Address)
    requires w.Valid() && WellFormed(w, a)
    ensures TypeByScheme(Display(w, a)) == Some(TypeOf(a))
  {
    var s := Display(w, a);
    match a
    case Mwcmqs(_, _, _) =>
      PeerTextOneLine(w, a);
      assert s[|MWCMQS|..] == PeerText(w, a);
      assert s[0] == 'm' && s[5] == 's';
    case Grinbox(_, _, _) =>
      PeerTextOneLine(w, a);
      assert s[|MWCMQ|..] == PeerText(w, a);
      assert s[0] == 'm';
    case Keybase(username, topic) =>
      assert s[|KEYBASE|..] == UserText(username, topic);
      OneLine(IsUserChar, username);
      if topic.Some? { OneLine(IsTopicChar, topic.value); }
    case Https(_) =>
  }

  lemma ParseTyped(w: World, s: string, t: AddressType)
    requires TypeByScheme(s) == Some(t)
    ensures Parse(w, s) == FromStr(w, t, s)
  {
    hide TypeByScheme, FromStr;
  }

  lemma DisplayPeer(w: World, a: Address)
    requires IsPeer(a)
    ensures Display(w, a) == Scheme(TypeOf(a)) + PeerText(w, a)
  {
    hide PeerText;
  }

  lemma WellFormedPeer(w: World, a: Address) returns (key: seq<byte>)
    requires IsPeer(a) && WellFormed(w, a)
    ensures w.IsKey(key) && a.publicKey == w.KeyText(key) && IsDomain(a.domain)
  {
    key :| w.IsKey(key) && a.publicKey == w.KeyText(key);
  }

  /** Printing a well-formed address and parsing the text gives the address back, a default port
      becoming no port. */
  lemma DisplayRoundTrip(w: World, a: Address)
    requires w.Valid() && WellFormed(w, a)
    ensures Parse(w, Display(w, a)) == Ok(Normalise(w, a))
  {
    TypeOfDisplay(w, a);
    if IsPeer(a) {
      hide *;
      ParseTyped(w, Display(w, a), TypeOf(a));
      DisplayPeer(w, a);
      var key := WellFormedPeer(w, a);
      PeerRoundTrip(w, a, key, Display(w, a));
    } else {
      OtherRoundTrip(w, a);
    }
  }

  lemma OtherRoundTrip(w: World, a: Address)
    requires WellFormed(w, a) && !IsPeer(a) && TypeByScheme(Display(w, a)) == Some(TypeOf(a))
    ensures Parse(w, Display(w, a)) == Ok(Normalise(w, a))
  {
    hide TypeByScheme, RecogniseKeybase, LegalUser, UserText;
    if a.Keybase? {
      KeybaseExact(Display(w, a), a.username, a.topic);
    }
  }

  /** What the MWCMQS parser makes of a printed peer address without scheme, of either type. */
  lemma StrippedAsMwcmqs(w: World, a: Address, key: seq<byte>)
    requires w.Valid() && IsPeer(a) && w.IsKey(key) && a.publicKey == w.KeyText(key) && IsDomain(a.domain)
    ensures FromStr(w, MwcmqsType, PeerText(w, a)) == Ok(Mwcmqs(a.publicKey,
      if PrintedCaptures(w, a).domain.Some? then PrintedCaptures(w, a).domain.value else DEFAULT_MWCMQS_DOMAIN,
      Normalise(w, a).port))
  {
    var s, c := PeerText(w, a), PrintedCaptures(w, a);
    PrintedLegal(w, a, key);
    PrintedBody(w, a);
    SchemesAreNotKeys(MwcmqsType);
    assert Matches(Scheme(MwcmqsType), s, c);
    hide *;
    RecogniseExact(Scheme(MwcmqsType), s, c);
    ReadKeyText(w, key);
    CapturesGiveBack(w, a);
    PeerParses(w, MwcmqsType, s, c, key, Normalise(w, a).port);
  }

  /** Without its scheme, a peer address is read back by its own type's parser. The general parser
      takes it for an MWCMQS address, in the default domain of that type if none was written; so it
      gives the address back if and only if it was one. */
  lemma StrippedRoundTrip(w: World, a: Address)
    requires w.Valid() && WellFormed(w, a) && IsPeer(a)
    ensures FromStr(w, TypeOf(a), Stripped(w, a)) == Ok(Normalise(w, a))
    ensures Parse(w, Stripped(w, a)) == Ok(Mwcmqs(a.publicKey,
      if Normalise(w, a).port.None? && a.domain == DefaultDomain(a) then DEFAULT_MWCMQS_DOMAIN else a.domain,
      Normalise(w, a).port))
    ensures Parse(w, Stripped(w, a)) == Ok(Normalise(w, a)) <==> a.Mwcmqs?
  {
    var s := Stripped(w, a);
    assert s == PeerText(w, a);
    var key := WellFormedPeer(w, a);
    PeerTextOneLine(w, a);
    LettersHaveNoScheme(s);
    StrippedAsMwcmqs(w, a, key);
    hide PeerText, FromStr, TypeByScheme, Stripped, WellFormed, Scheme, All, IsDomain;
    PeerRoundTrip(w, a, key, s);
  }

  /** It does happen: the stripped form of a Grinbox address in its default domain is read as an
      MWCMQS address on another server. */
  lemma StrippedExample(w: World, key: seq<byte>)
    requires w.Valid() && w.IsKey(key)
    ensures Parse(w, Stripped(w, Grinbox(w.KeyText(key), "mq.mwc.mw", None))) ==
      Ok(Mwcmqs(w.KeyText(key), "mqs.mwc.mw", None))
  {
    DefaultDomainsLegal();
    hide Parse, Stripped, IsDomain;
    StrippedRoundTrip(w, Grinbox(w.KeyText(key), "mq.mwc.mw", None));
  }

  /** The stripped form of the other types: a Keybase address loses its topic, a URL nothing. */
  lemma StrippedOthers(w: World, a: Address)
    requires WellFormed(w, a) && !IsPeer(a)
    ensures a.Keybase? ==> FromStr(w, KeybaseType, Stripped(w, a)) == Ok(Keybase(a.username, None))
    ensures a.Https? ==> Parse(w, Stripped(w, a)) == Ok(a)
  {
    if a.Keybase? {
      KeybaseExact(a.username, a.username, None);
      assert a.username + "" == a.username;
    }
    hide TypeByScheme, RecogniseKeybase;
  }

  lemma NormalisedPrintsAlike(w: World, a: Address)
    ensures Display(w, Normalise(w, a)) == Display(w, a)
    ensures Normalise(w, Normalise(w, a)) == Normalise(w, a)
  {}

  lemma ParsedPeer(w: World, t: AddressType, s: string, a: Address)
    requires w.Valid() && (t == MwcmqsType || t == GrinboxType) && PeerFromStr(w, t, s) == Ok(a)
    ensures IsPeer(a) && w.IsKeyText(a.publicKey) && IsDomain(a.domain)
  {
    var c := Recognise(Scheme(t), s).value;
    SchemesAreNotKeys(t);
    RecogniseExact(Scheme(t), s, c);
    DefaultDomainsLegal();
    ReadKeyIsKey(w, c.publicKey);
  }

  /** The parser only ever produces well-formed addresses. */
  lemma ParsedIsWellFormed(w: World, s: string, a: Address)
    requires w.Valid() && Parse(w, s) == Ok(a)
    ensures WellFormed(w, a)
  {
    var t := TypeRead(s);
    if t == KeybaseType {
      KeybaseExact(s, a.username, a.topic);
    } else if t != HttpsType {
      ParsedPeer(w, t, s, a);
    }
  }

  /** Whatever text an address was read from, printing it and reading it again changes nothing
      but a default port. */
  lemma ReadPrintRead(w: World, s: string, a: Address)
    requires w.Valid() && Parse(w, s) == Ok(a)
    ensures Parse(w, Display(w, a)) == Ok(Normalise(w, a))
  {
    ParsedIsWellFormed(w, s, a);
    DisplayRoundTrip(w, a);
  }

  /** For a peer address built around a valid key, the round trip holds exactly when the domain is
      a non-empty string of letters, digits and dots; the constructor does not check that. */
  lemma RoundTripExact(w: World, a: Address)
    requires w.Valid() && IsPeer(a) && w.IsKeyText(a.publicKey)
    ensures Parse(w, Display(w, a)) == Ok(Normalise(w, a)) <==> IsDomain(a.domain)
  {
    if IsDomain(a.domain) {
      DisplayRoundTrip(w, a);
    } else if Parse(w, Display(w, a)) == Ok(Normalise(w, a)) {
      ParsedIsWellFormed(w, Display(w, a), Normalise(w, a));
    }
  }

  /** It does happen: no domain with a hyphen survives. */
  lemma RoundTripExample(w: World, a: Address)
    requires w.Valid() && IsPeer(a) && w.IsKeyText(a.publicKey) && a.domain == "a-b"
    ensures Parse(w, Display(w, a)) != Ok(Normalise(w, a))
  {
    assert !IsDomainChar("a-b"[1]);
    assert !IsDomain(a.domain);
    hide *;
    RoundTripExact(w, a);
  }

  lemma ReadKeyReturns(w: World, text: string)
    requires w.Valid() && |text| == 52 && All(IsLetter, text)
    ensures !w.ReadKey(text).Panic?
  {
    var b := BytesOf(text);
    EncodeBytesOf(text);
    LengthBounds(b);
    DecodePanics(text);
    if Decode(text).Ok? {
      Inverse(text, Decode(text).value);
      BytesOfEncode(Decode(text).value);
    }
  }

  /** The pattern captures a port that is no u16: an empty one, which it allows, or one above 65535. */
  ghost predicate HasBadPort(t: AddressType, s: string) {
    exists c :: Matches(Scheme(t), s, c) && c.port.Some? &&
      (c.port.value == "" || 0x1_0000 <= Val(PortDigits(c.port.value), 10))
  }

  lemma PeerPanicsExactly(w: World, t: AddressType, s: string)
    requires w.Valid() && (t == MwcmqsType || t == GrinboxType)
    ensures PeerFromStr(w, t, s).Panic? <==> HasBadPort(t, s)
  {
    SchemesAreNotKeys(t);
    var r := Recognise(Scheme(t), s);
    if r.Some? {
      RecogniseExact(Scheme(t), s, r.value);
      ReadKeyReturns(w, r.value.publicKey);
    }
    forall c | Matches(Scheme(t), s, c) ensures r == Some(c) {
      RecogniseExact(Scheme(t), s, c);
    }
    hide Matches, Recognise, Scheme, PortDigits;
  }

  /** Parsing any text panics exactly when its scheme, or the lack of one, makes it a peer address and
      its port is no u16. */
  lemma ParsePanicsExactly(w: World, s: string)
    requires w.Valid()
    ensures Parse(w, s).Panic? <==>
      (TypeRead(s) == MwcmqsType || TypeRead(s) == GrinboxType) && HasBadPort(TypeRead(s), s)
  {
    hide TypeRead, HasBadPort, PeerFromStr, RecogniseKeybase;
    if TypeRead(s) == MwcmqsType || TypeRead(s) == GrinboxType {
      PeerPanicsExactly(w, TypeRead(s), s);
    }
  }

  lemma PortIsBad(t: AddressType, s: string, c: Captures)
    requires Matches(Scheme(t), s, c) && c.port == Some("")
    ensures HasBadPort(t, s)
  {}

  /** It does happen, to any valid key text followed by a domain, a colon and nothing. */
  lemma PeerPanicsExample(w: World, t: AddressType, key: seq<byte>)
    requires w.Valid() && w.IsKey(key) && (t == MwcmqsType || t == GrinboxType)
    ensures PeerFromStr(w, t, w.KeyText(key) + "@a:").Panic?
    ensures Parse(w, w.KeyText(key) + "@a:").Panic?
  {
    hide ToBase58Check, PeerFromStr, Scheme;
    var s, c := w.KeyText(key) + "@a:", Captures(w.KeyText(key), Some("a"), Some(""));
    KeyText(w.hash, key, w.version);
    assert HostText("a", Some("")) == "a:" && Body(c) == s;
    assert s[..52] == w.KeyText(key);
    LettersHaveNoScheme(s);
    PortIsBad(t, s, c);
    PortIsBad(MwcmqsType, s, c);
    hide *;
    PeerPanicsExactly(w, t, s);
    ParsePanicsExactly(w, s);
    UnschemedType(s);
  }

  lemma UnschemedType(s: string)
    requires TypeByScheme(s).None?
    ensures TypeRead(s) == MwcmqsType
  {
    hide TypeByScheme;
  }

  // ----- what the peer parsers give and when they fail

  /** `b` is what the captures say, around the key: the default domain of the type if none is written,
      and the number the port's digits denote. */
  ghost predicate Says(w: World, t: AddressType, c: Captures, key: seq<byte>, b: Address)
    requires c.port.Some? ==> All(IsDigit, c.port.value)
  {
    (b.Mwcmqs? <==> t == MwcmqsType) && (b.Grinbox? <==> t == GrinboxType) && IsPeer(b) &&
    b.publicKey == w.KeyText(key) &&
    b.domain == (if c.domain.Some? then c.domain.value else if b.Mwcmqs? then "mqs.mwc.mw" else "mq.mwc.mw") &&
    (if c.port.None? then b.port.None?
     else c.port.value != "" && b.port.Some? && b.port.value == Val(PortDigits(c.port.value), 10))
  }

  lemma PeerFrom(w: World, t: AddressType, s: string, c: Captures, b: Address)
    requires (t == MwcmqsType || t == GrinboxType) && Recognise(Scheme(t), s) == Some(c)
    ensures PeerFromStr(w, t, s) == Ok(b) <==>
      w.ReadKey(c.publicKey).Ok? && Says(w, t, c, w.ReadKey(c.publicKey).value, b)
    ensures PeerFromStr(w, t, s).Err? ==> w.ReadKey(c.publicKey) == Err(PeerFromStr(w, t, s).error)
  {
    var n := if c.port.Some? then Val(PortDigits(c.port.value), 10) else 0;
    assert c.port.Some? ==> ParsePort(c.port.value) == if c.port.value == "" || 0x1_0000 <= n then None else Some(n);
    hide Recognise, ParsePort, PortDigits, Val, All, IsDigit, Scheme, ToBase58Check, FromBase58Check;
  }

  /** A peer type's parser gives an address exactly if the text matches the type's pattern with
      captures that say it around a valid key. */
  lemma PeerExact(w: World, t: AddressType, s: string, b: Address)
    requires w.Valid() && (t == MwcmqsType || t == GrinboxType)
    ensures PeerFromStr(w, t, s) == Ok(b) <==>
      exists c, key :: Matches(Scheme(t), s, c) && w.ReadKey(c.publicKey) == Ok(key) && Says(w, t, c, key, b)
  {
    SchemesAreNotKeys(t);
    var r := Recognise(Scheme(t), s);
    forall c ensures Matches(Scheme(t), s, c) <==> r == Some(c) {
      RecogniseExact(Scheme(t), s, c);
    }
    if r.Some? { PeerFrom(w, t, s, r.value, b); }
    NoMatch(w, t, s);
    hide Matches, Recognise, Scheme, PeerFromStr, Says;
  }

  lemma NoMatch(w: World, t: AddressType, s: string)
    requires t == MwcmqsType || t == GrinboxType
    ensures Recognise(Scheme(t), s).None? ==> PeerFromStr(w, t, s) == Err(GrinboxAddressParsingError(s))
  {
    hide Recognise, Scheme;
  }

  lemma KeyErrors(w: World, text: string, s: string)
    ensures w.ReadKey(text) != Err(GrinboxAddressParsingError(s))
  {
    CheckErrors(w, text);
    var r := FromBase58Check(w.hash, text, |w.version|);
    CheckOutcomes(w.hash, text, |w.version|);
    LengthErrors(text);
    hide Decode, FromBase58Check;
  }

  /** A peer type's parser reports the text exactly if it does not match the pattern. */
  lemma PeerFails(w: World, t: AddressType, s: string)
    requires w.Valid() && (t == MwcmqsType || t == GrinboxType)
    ensures PeerFromStr(w, t, s) == Err(GrinboxAddressParsingError(s)) <==> !exists c :: Matches(Scheme(t), s, c)
  {
    SchemesAreNotKeys(t);
    var r := Recognise(Scheme(t), s);
    forall c ensures Matches(Scheme(t), s, c) <==> r == Some(c) {
      RecogniseExact(Scheme(t), s, c);
    }
    NoMatch(w, t, s);
    if r.Some? {
      PeerFrom(w, t, s, r.value, Https(""));
      KeyErrors(w, r.value.publicKey, s);
    }
    hide Matches, Recognise, Scheme, PeerFromStr, Says;
  }

  /** The text is a legal user name, with a topic or without, and may have the scheme. */
  ghost predicate KeybaseText(s: string, username: string, topic: Option<string>) {
    LegalUser(username, topic) && (s == KEYBASE + UserText(username, topic) || s == UserText(username, topic))
  }

  /** The other parsers: a Keybase address is what its pattern captures, a URL is its text; they report
      a text that is neither. */
  lemma OthersExact(w: World, s: string)
    ensures forall u, topic :: FromStr(w, KeybaseType, s) == Ok(Keybase(u, topic)) <==> KeybaseText(s, u, topic)
    ensures FromStr(w, KeybaseType, s) == Err(KeybaseAddressParsingError(s)) <==>
      !exists u, topic :: KeybaseText(s, u, topic)
    ensures FromStr(w, HttpsType, s) == if w.isUrl(s) then Ok(Https(s)) else Err(HttpsAddressParsingError(s))
  {
    forall u, topic ensures KeybaseText(s, u, topic) <==> RecogniseKeybase(s) == Some((u, topic)) {
      KeybaseExact(s, u, topic);
    }
    hide KeybaseText, RecogniseKeybase;
    if RecogniseKeybase(s).Some? {
      var (u, topic) := RecogniseKeybase(s).value;
      assert KeybaseText(s, u, topic);
    }
  }

  // ----- printing is as short as it can be

  lemma ShortestPort(p: u16, text: string)
    requires All(IsDigit, text) && text != "" && Val(PortDigits(text), 10) == p
    ensures |PrintPort(p)| <= |text|
  {
    ValBound(PortDigits(text), 10);
    DigitsLength(p, 10, |text|);
  }

  lemma ShortestHost(w: World, a: Address, c: Captures, key: seq<byte>, b: Address)
    requires w.Valid() && IsPeer(a) && Legal(c) && Says(w, TypeOf(a), c, key, b) && Normalise(w, b) == Normalise(w, a)
    requires |a.publicKey| == 52
    ensures |PeerText(w, a)| <= |Body(c)|
  {
    PrintedBody(w, a);
    if c.port.Some? && a.port.Some? && a.port.value != w.defaultPort {
      ShortestPort(a.port.value, c.port.value);
    }
    hide PrintPort, PortDigits, Val, IsDomain, All;
  }

  /** No text that a peer type's parser reads as the same address, up to a default port, is shorter
      than the printed form without its scheme. */
  lemma PrintsShortest(w: World, a: Address, s: string, b: Address)
    requires w.Valid() && WellFormed(w, a) && IsPeer(a)
    requires FromStr(w, TypeOf(a), s) == Ok(b) && Normalise(w, b) == Normalise(w, a)
    ensures |Stripped(w, a)| <= |s|
  {
    hide FromStr, PeerFromStr, Stripped, PeerText, WellFormed, Scheme, TypeOf, Says, ToBase58Check, Body, Normalise;
    PeerFacts(w, a, s);
    PeerExact(w, TypeOf(a), s, b);
    var t := TypeOf(a);
    var c, key :| Matches(Scheme(t), s, c) && w.ReadKey(c.publicKey) == Ok(key) && Says(w, t, c, key, b);
    MatchIsLong(Scheme(TypeOf(a)), s, c);
    ShortestHost(w, a, c, key, b);
  }

  lemma PeerFacts(w: World, a: Address, s: string)
    requires w.Valid() && WellFormed(w, a) && IsPeer(a)
    ensures Stripped(w, a) == PeerText(w, a) && |a.publicKey| == 52
    ensures TypeOf(a) == MwcmqsType || TypeOf(a) == GrinboxType
    ensures FromStr(w, TypeOf(a), s) == PeerFromStr(w, TypeOf(a), s)
  {
    var key := WellFormedPeer(w, a);
    KeyText(w.hash, key, w.version);
    hide PeerFromStr, PeerText, ToBase58Check;
  }

  lemma MatchIsLong(scheme: string, s: string, c: Captures)
    requires Matches(scheme, s, c)
    ensures Legal(c) && |Body(c)| <= |s|
  {
    hide Legal, Body;
  }
}
