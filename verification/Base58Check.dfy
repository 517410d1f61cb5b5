/** Base58Check: a version and a checksum around a payload, and the printed length of a key. */
module Base58Check {
  import opened Common
  import opened Positional
  import opened Base58

  /** Double SHA-256, of which only the length of the result matters here. */
  type Hash = h: seq<byte> -> seq<byte> | forall p :: |h(p)| == 32 witness (p => seq(32, _ => 0))

  const MAINNET: seq<byte> := [1, 69]
  const TESTNET: seq<byte> := [1, 121]

  function Checksum(h: Hash, payload: seq<byte>): (c: seq<byte>)
    ensures |c| == 4
  {
    h(payload)[..4]
  }

  function ToBase58Check(h: Hash, data: seq<byte>, version: seq<byte>): string {
    var payload := version + data;
    Encode(payload + Checksum(h, payload))
  }

  function FromBase58Check(h: Hash, s: string, versionBytes: nat): Outcome<(seq<byte>, seq<byte>)> {
    var payload :- Decode(s);
    if |payload| < 5 then Err(InvalidBase58Checksum) else
      var checksumIndex := |payload| - 4;
      var body := payload[..checksumIndex];
      if Checksum(h, body) != payload[checksumIndex..] then Err(InvalidBase58Checksum)
      else if |body| < versionBytes then Panic
      else Ok((body[..versionBytes], body[versionBytes..]))
  }

  /** How reading ends, from what the text decodes to: it fails unless there is a byte before the last
      four and they are the first four of its hash, and panics if there are fewer than the version's. */
  lemma CheckOutcomes(h: Hash, s: string, versionBytes: nat)
    ensures Decode(s).Err? ==> FromBase58Check(h, s, versionBytes) == Err(Decode(s).error)
    ensures Decode(s).Panic? ==> FromBase58Check(h, s, versionBytes) == Panic
    ensures Decode(s).Ok? ==>
      var p, r := Decode(s).value, FromBase58Check(h, s, versionBytes);
      (r == Err(InvalidBase58Checksum) <==> |p| < 5 || h(p[..|p| - 4])[..4] != p[|p| - 4..]) &&
      (r == Panic <==> r != Err(InvalidBase58Checksum) && |p| - 4 < versionBytes) &&
      (r.Err? ==> r.error == InvalidBase58Checksum)
  {
    hide Decode;
  }

  lemma SplitPayload(h: Hash, s: string, version: seq<byte>, data: seq<byte>)
    requires Decode(s) == Ok(version + data + Checksum(h, version + data)) && version + data != []
    ensures FromBase58Check(h, s, |version|) == Ok((version, data))
  {
    hide Decode, Checksum;
    var body, c := version + data, Checksum(h, version + data);
    assert (body + c)[..|body|] == body && (body + c)[|body|..] == c;
    assert body[..|version|] == version && body[|version|..] == data;
  }

  lemma JoinPayload(h: Hash, s: string, version: seq<byte>, data: seq<byte>)
    requires FromBase58Check(h, s, |version|) == Ok((version, data))
    ensures Decode(s) == Ok(version + data + Checksum(h, version + data)) && version + data != []
  {
    hide Decode, Checksum;
    var payload := Decode(s).value;
    var k := |payload| - 4;
    assert payload == payload[..k] + payload[k..];
    assert payload[..k] == payload[..k][..|version|] + payload[..k][|version|..] == version + data;
  }

  /** Reading gives a version and data exactly when the text decodes to them and the first four bytes
      of their hash, and there is at least one byte. */
  lemma PayloadExact(h: Hash, s: string, version: seq<byte>, data: seq<byte>)
    ensures FromBase58Check(h, s, |version|) == Ok((version, data)) <==>
      version + data != [] && Decode(s) == Ok(version + data + h(version + data)[..4])
  {
    assert Checksum(h, version + data) == h(version + data)[..4];
    hide Decode, Checksum, FromBase58Check;
    if FromBase58Check(h, s, |version|) == Ok((version, data)) {
      JoinPayload(h, s, version, data);
    } else if version + data != [] && Decode(s) == Ok(version + data + Checksum(h, version + data)) {
      SplitPayload(h, s, version, data);
    }
  }

  /** What is printed stands for the version, the data and the first four bytes of their hash. */
  lemma PrintedPayload(h: Hash, data: seq<byte>, version: seq<byte>)
    ensures var s, payload := ToBase58Check(h, data, version), version + data + h(version + data)[..4];
      InAlphabet(s) && BytesOf(s) == payload && (Decode(s) == Ok(payload) <==> |version| + |data| <= 128)
  {
    var payload := version + data + h(version + data)[..4];
    BytesOfEncode(payload);
    Inverse(Encode(payload), payload);
    hide Encode, Decode, BytesOf, InAlphabet;
  }

  /** Printing and reading with a checksum are inverse: a text reads as version and data if and
      only if it is what printing them gives and they have between 1 and 128 bytes in all. */
  lemma CheckInverse(h: Hash, s: string, data: seq<byte>, version: seq<byte>)
    ensures FromBase58Check(h, s, |version|) == Ok((version, data)) <==>
      s == ToBase58Check(h, data, version) && 1 <= |version| + |data| <= 128
  {
    PayloadExact(h, s, version, data);
    hide Decode, Encode, FromBase58Check;
    Inverse(s, version + data + h(version + data)[..4]);
  }

  // ----- the printed form of a 33-byte key

  lemma Power58()
    ensures Pow(58, 51) == 0x6c291aa261b1b722fb3fd8a5973b2ec631fbb1d7e13953af3f3d05712e19028000000000000
  {
    PowAdd(58, 1, 2);
    assert Pow(58, 3) == 0x2fa28;
    PowAdd(58, 3, 3);
    assert Pow(58, 6) == 0x8dd122640;
    PowAdd(58, 6, 6);
    assert Pow(58, 12) == 0x4e900abb53e6b71000;
    PowAdd(58, 12, 12);
    assert Pow(58, 24) == 0x181c17963a5226bd66dc1c01d3a7e1000000;
    PowAdd(58, 24, 24);
    assert Pow(58, 48) == 0x245478155f87fdf253c87c138dd557292e35e9a1b8c3026c785ecfd53c1000000000000;
    PowAdd(58, 48, 3);
    assert Pow(58, 51) == 0x6c291aa261b1b722fb3fd8a5973b2ec631fbb1d7e13953af3f3d05712e19028000000000000;
  }

  lemma Power256()
    ensures Pow(256, 37) == 0x100000000000000000000000000000000000000000000000000000000000000000000000000
  {
    PowAdd(256, 2, 2);
    assert Pow(256, 4) == 0x100000000;
    PowAdd(256, 4, 4);
    assert Pow(256, 8) == 0x10000000000000000;
    PowAdd(256, 8, 1);
    assert Pow(256, 9) == 0x1000000000000000000;
    PowAdd(256, 9, 9);
    assert Pow(256, 18) == 0x1000000000000000000000000000000000000;
    PowAdd(256, 18, 18);
    assert Pow(256, 36) == 0x1000000000000000000000000000000000000000000000000000000000000000000000000;
    PowAdd(256, 36, 1);
    assert Pow(256, 37) == 0x100000000000000000000000000000000000000000000000000000000000000000000000000;
  }

  /** The most significant digit of `v` is `lead` when `v` lies between its multiples of the power. */
  lemma LeadDigit(v: nat, lead: nat, k: nat)
    requires 0 < lead < 58 && lead * Pow(58, k) <= v < (lead + 1) * Pow(58, k)
    ensures |Digits(v, 58)| == k + 1 && Digits(v, 58)[0] == lead
  {
    var ds, p := Digits(v, 58), Pow(58, k);
    assert Pow(58, k + 1) == 58 * p;
    LeadBounds(v, lead, p);
    hide *;
    DigitsLength(v, 58, k);
    DigitsLength(v, 58, k + 1);
    ValOfDigits(v, 58);
    assert ds == [ds[0]] + ds[1..];
    ValCons(ds[0], ds[1..], 58);
    BelowTail(ds);
    ValBound(ds[1..], 58);
    LeadUnique(ds[0], lead, p, Val(ds[1..], 58));
  }

  lemma LeadBounds(v: nat, lead: nat, p: nat)
    requires 0 < lead < 58 && lead * p <= v < (lead + 1) * p
    ensures p <= v < 58 * p
  {
    MulLe(1, lead, p);
    MulLe(lead + 1, 58, p);
  }

  lemma BelowTail(ds: seq<nat>)
    requires ds != [] && Below(ds, 58)
    ensures Below(ds[1..], 58)
  {}

  lemma LeadUnique(d: nat, lead: nat, p: nat, rest: nat)
    requires rest < p && lead * p <= d * p + rest < (lead + 1) * p
    ensures d == lead
  {
    if d < lead { MulLe(d + 1, lead, p); MulSum(d, 1, p); }
    if lead < d { MulLe(lead + 1, d, p); }
  }

  /** 39 bytes starting with 1 and the network's version byte print as 52 letters with a fixed first one. */
  lemma PrintedKey(bytes: seq<byte>, v: byte, lead: nat)
    requires |bytes| == 39 && bytes[0] == 1 && bytes[1] == v
    requires (v == 69 && lead == 48) || (v == 121 && lead == 55)
    ensures |Encode(bytes)| == 52 && Encode(bytes)[0] == Letter(lead)
  {
    var rest := bytes[2..];
    assert bytes == [1] + ([v] + rest);
    ValCons(1, [v] + rest, 256);
    ValCons(v, rest, 256);
    ValBound(rest, 256);
    var p := Pow(256, 37);
    assert Pow(256, |[v] + rest|) == 256 * p;
    Power58();
    Power256();
    LeadDigit(Val(bytes, 256), lead, 51);
    assert LeadingZeros(bytes) == 0;
  }

  /** Every 33-byte key prints as exactly 52 letters, the first telling the network. */
  lemma KeyText(h: Hash, key: seq<byte>, version: seq<byte>)
    requires |key| == 33 && (version == MAINNET || version == TESTNET)
    ensures var s := ToBase58Check(h, key, version);
      InAlphabet(s) && |s| == 52 && s[0] == (if version == MAINNET then 'q' else 'x')
  {
    var payload := version + key + Checksum(h, version + key);
    BytesOfEncode(payload);
    PrintedKey(payload, version[1], if version == MAINNET then 48 else 55);
  }
}
