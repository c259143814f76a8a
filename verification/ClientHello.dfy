/** The request of the TLS probe (check_tls.cpp, lines 54-67 and 95-145): a ClientHello of exactly 517 bytes whose
    nested length fields are partly written before the parts they measure. */
module ClientHello {
  import opened Basics
  import opened TlsResponse

  // ---------- GREASE values (section 2 of RFC 8701) ----------

  predicate IsGrease(g: Byte) {
    g % 16 == 10
  }

  // (g & 0xF0) + 0x0A
  function AsGrease(g: Byte): (r: Byte)
    ensures IsGrease(r) && r / 16 == g / 16
  {
    g / 16 * 16 + 10
  }

  // 0x10 ^ g: the other one of two neighbours that share all bits but one
  function FlipBit4(g: Byte): (r: Byte)
    ensures r != g && r % 16 == g % 16 && r / 32 == g / 32
  {
    if g % 32 < 16 then g + 16 else g - 16
  }

  const MAX_GREASE: nat := 7

  // The values wanted: the top bits as drawn, except that the second of two equal neighbours gets another.
  function Grease(random: seq<Byte>, i: nat): Byte
    requires i < |random|
  {
    var g := AsGrease(random[i]);
    if i in {1, 3, 5} && g == AsGrease(random[i - 1]) then FlipBit4(g) else g
  }

  lemma GreaseIs(random: seq<Byte>, i: nat)
    requires i < |random| == MAX_GREASE
    ensures IsGrease(Grease(random, i)) && (i in {1, 3, 5} ==> Grease(random, i) != Grease(random, i - 1))
  {
    hide AsGrease;
    var g := AsGrease(random[i]);
    assert FlipBit4(g) % 16 == g % 16;
  }

  // Neighbours 0 and 1, 2 and 3, 4 and 5 come out different.
  method SetupGreases(random: seq<Byte>) returns (greases: seq<Byte>)
    requires |random| == MAX_GREASE
    ensures |greases| == MAX_GREASE && forall i | 0 <= i < MAX_GREASE :: IsGrease(greases[i])
    ensures greases[0] != greases[1] && greases[2] != greases[3] && greases[4] != greases[5]
    ensures forall i | 0 <= i < MAX_GREASE :: greases[i] == Grease(random, i)
  {
    hide AsGrease, FlipBit4, IsGrease;
    greases := random;
    for i := 0 to MAX_GREASE
      invariant |greases| == MAX_GREASE
      invariant forall j | 0 <= j < i :: greases[j] == AsGrease(random[j])
      invariant forall j | i <= j < MAX_GREASE :: greases[j] == random[j]
    {
      greases := greases[i := AsGrease(greases[i])];
    }
    var i := 1;
    while i < MAX_GREASE
      invariant i in {1, 3, 5, 7} && |greases| == MAX_GREASE
      invariant forall j | 0 <= j < i :: greases[j] == Grease(random, j)
      invariant forall j | i <= j < MAX_GREASE :: greases[j] == AsGrease(random[j])
    {
      if greases[i] == greases[i - 1] {
        greases := greases[i := FlipBit4(greases[i])];
      }
      i := i + 2;
    }
    forall j | 0 <= j < MAX_GREASE ensures IsGrease(greases[j]) && (j in {1, 3, 5} ==> greases[j] != greases[j - 1]) {
      GreaseIs(random, j);
    }
    assert greases[1] != greases[0] && greases[3] != greases[2] && greases[5] != greases[4];
  }

  // ---------- walking a list of extensions ----------

  // The contents of an extension that is one vector begin with the length of the rest, in two bytes (server_name,
  // supported_groups, ALPN, signature_algorithms, key_share) or in one (ec_point_formats, psk_key_exchange_modes,
  // supported_versions, compress_certificate, renegotiation_info).
  predicate VectorOk(kind: nat, data: seq<Byte>) {
    && (kind in {0x0000, 0x000a, 0x0010, 0x000d, 0x0033} ==> |data| >= 2 && Length(data[0], data[1]) == |data| - 2)
    && (kind in {0x000b, 0x002d, 0x002b, 0x001b, 0xff01} ==> |data| >= 1 && data[0] == |data| - 1)
  }

  datatype Entry = Entry(kind: nat, data: seq<Byte>)

  // The extensions: each is its type, its length and that many bytes (section 4.2 of RFC 8446), if the list ends
  // exactly where the last one does.
  function Walk(b: seq<Byte>): Option<seq<Entry>> {
    if b == [] then Some([])
    else if |b| < 4 || |b| < 4 + Length(b[2], b[3]) then None
    else
      var n, kind := 4 + Length(b[2], b[3]), Length(b[0], b[1]);
      if !VectorOk(kind, b[4..n]) then None
      else match Walk(b[n..])
        case None => None
        case Some(rest) => Some([Entry(kind, b[4..n])] + rest)
  }

  function KindsOf(entries: seq<Entry>): (kinds: seq<nat>)
    ensures |kinds| == |entries|
  {
    seq(|entries|, i requires 0 <= i < |entries| => entries[i].kind)
  }

  ghost predicate IsExtension(e: seq<Byte>, x: Entry) {
    |e| >= 4 && |e| == 4 + Length(e[2], e[3]) && x == Entry(Length(e[0], e[1]), e[4..]) && VectorOk(x.kind, x.data)
  }

  lemma WalkOne(e: seq<Byte>, x: Entry)
    requires IsExtension(e, x)
    ensures Walk(e) == Some([x])
  {
    hide VectorOk, Length;
    var n := 4 + Length(e[2], e[3]);
    assert e[4..n] == e[4..] && e[n..] == [];
    assert Walk(e[n..]) == Some([]);
    assert [x] + [] == [x];
  }

  // The first extension of a list, whatever follows it
  lemma WalkFirst(b: seq<Byte>, n: nat)
    requires b != [] && |b| >= 4 && n == 4 + Length(b[2], b[3]) <= |b| && VectorOk(Length(b[0], b[1]), b[4..n])
    ensures Walk(b) == if Walk(b[n..]).None? then None else Some([Entry(Length(b[0], b[1]), b[4..n])] + Walk(b[n..]).value)
  {
    hide VectorOk, Length;
  }

  lemma WalkBegins(b: seq<Byte>)
    requires b != [] && Walk(b).Some?
    ensures |b| >= 4
    ensures var n := 4 + Length(b[2], b[3]);
            n <= |b| && VectorOk(Length(b[0], b[1]), b[4..n]) && Walk(b[n..]).Some?
  {
    hide VectorOk, Length;
  }

  lemma {:induction false} WalkAppend(b: seq<Byte>, e: seq<Byte>, entries: seq<Entry>, x: Entry)
    requires Walk(b) == Some(entries) && IsExtension(e, x)
    ensures Walk(b + e) == Some(entries + [x])
  {
    hide VectorOk, Length, IsExtension, Walk;
    if b == [] {
      NothingToWalk();
      WalkOne(e, x);
      assert b + e == e && entries + [x] == [x];
    } else {
      WalkBegins(b);
      var n := 4 + Length(b[2], b[3]);
      var first := Entry(Length(b[0], b[1]), b[4..n]);
      var rest, be := Walk(b[n..]).value, b + e;
      WalkFirst(b, n);
      WalkAppend(b[n..], e, rest, x);
      assert be[n..] == b[n..] + e && be[4..n] == b[4..n];
      WalkFirst(be, n);
      assert [first] + (rest + [x]) == entries + [x];
    }
  }

  lemma NothingToWalk()
    ensures Walk([]) == Some([])
  {
  }

  // ---------- reading the data ----------

  // A list of 16-bit numbers
  function Numbers(b: seq<Byte>): seq<nat> {
    if |b| < 2 then [] else [Length(b[0], b[1])] + Numbers(b[2..])
  }

  // A list of strings, each after its length in one byte (section 3.1 of RFC 7301)
  function Strings(b: seq<Byte>): seq<seq<Byte>> {
    if b == [] || |b| <= b[0] then []
    else
      var n: nat := b[0];
      [b[1..1 + n]] + Strings(b[1 + n..])
  }

  // The groups and keys of key_share (section 4.2.8 of RFC 8446)
  datatype Share = Share(group: nat, key: seq<Byte>)

  function Shares(b: seq<Byte>): seq<Share> {
    if |b| < 4 || |b| < 4 + Length(b[2], b[3]) then []
    else
      var n := 4 + Length(b[2], b[3]);
      [Share(Length(b[0], b[1]), b[4..n])] + Shares(b[n..])
  }

  lemma OneNumber(b: seq<Byte>)
    requires |b| == 2
    ensures Numbers(b) == [Length(b[0], b[1])]
  {
    assert Numbers(b[2..]) == [];
  }

  lemma {:induction false} NumbersSplit(a: seq<Byte>, b: seq<Byte>, n: nat)
    requires |a| == 2 * n
    ensures Numbers(a + b) == Numbers(a) + Numbers(b)
  {
    hide Length;
    if n == 0 {
      assert a + b == b;
    } else {
      NumbersSplit(a[2..], b, n - 1);
      assert (a + b)[2..] == a[2..] + b;
    }
  }

  lemma TwoNumbers(b: seq<Byte>)
    requires |b| == 4
    ensures Numbers(b) == [Length(b[0], b[1]), Length(b[2], b[3])]
  {
    hide Numbers;
    OneNumber(b[..2]);
    OneNumber(b[2..]);
    NumbersSplit(b[..2], b[2..], 1);
    assert b == b[..2] + b[2..];
  }

  lemma FourNumbers(b: seq<Byte>)
    requires |b| == 8
    ensures Numbers(b) == [Length(b[0], b[1]), Length(b[2], b[3]), Length(b[4], b[5]), Length(b[6], b[7])]
  {
    hide Numbers;
    TwoNumbers(b[..4]);
    TwoNumbers(b[4..]);
    NumbersSplit(b[..4], b[4..], 2);
    assert b == b[..4] + b[4..];
  }

  // ---------- the request ----------

  function Twice(g: Byte): seq<Byte> {
    [g, g]
  }

  const CIPHERS1: seq<Byte> := [0x13, 0x01, 0x13, 0x02, 0x13, 0x03, 0xc0, 0x2b]
  const CIPHERS2: seq<Byte> := [0xc0, 0x2f, 0xc0, 0x2c, 0xc0, 0x30, 0xcc, 0xa9]
  const CIPHERS3: seq<Byte> := [0xcc, 0xa8, 0xc0, 0x13, 0xc0, 0x14, 0x00, 0x9c]
  const CIPHERS4: seq<Byte> := [0x00, 0x9d, 0x00, 0x2f, 0x00, 0x35, 0x00, 0x0a]

  function CipherBytes(greases: seq<Byte>): (b: seq<Byte>)
    requires |greases| == MAX_GREASE
    ensures |b| == 34
  {
    Twice(greases[0]) + CIPHERS1 + CIPHERS2 + CIPHERS3 + CIPHERS4
  }

  // Everything in front of the extensions; the lengths in it are those of the finished request.
  function Front(random: seq<Byte>, sessionId: seq<Byte>, greases: seq<Byte>): (b: seq<Byte>)
    requires |random| == |sessionId| == 32 && |greases| == MAX_GREASE
    ensures |b| == 116
  {
    [0x16, 0x03, 0x01, 0x02, 0x00, 0x01, 0x00, 0x01, 0xfc, 0x03, 0x03] + random + [0x20] + sessionId + [0x00, 0x22]
    + CipherBytes(greases) + [0x01, 0x00, 0x01, 0x91]
  }

  // The extension types of the request, in order.
  function Kinds(greases: seq<Byte>): seq<nat>
    requires |greases| == MAX_GREASE
  {
    [Length(greases[2], greases[2]), 0x0000, 0x0017, 0xff01, 0x000a, 0x000b, 0x0023, 0x0010, 0x0005, 0x000d,
     0x0012, 0x0033, 0x002d, 0x002b, 0x001b, Length(greases[3], greases[3]), 0x0015]
  }

  lemma KindsDiffer(greases: seq<Byte>)
    requires |greases| == MAX_GREASE && IsGrease(greases[2]) && IsGrease(greases[3]) && greases[2] != greases[3]
    ensures NoDuplicates(Kinds(greases))
  {
    hide Length, IsGrease, NoDuplicates;
    GreaseKind(greases[2]);
    GreaseKind(greases[3]);
    TypesDiffer(Length(greases[2], greases[2]), Length(greases[3], greases[3]));
  }

  // A GREASE type is no other type the request uses.
  lemma GreaseKind(g: Byte)
    requires IsGrease(g)
    ensures Length(g, g) == 257 * g && Length(g, g) > 0x0033 && Length(g, g) != 0xff01
  {
  }

  lemma TypesDiffer(g: nat, h: nat)
    requires 0x0033 < g != 0xff01 && 0x0033 < h != 0xff01 && g != h
    ensures NoDuplicates([g, 0x0000, 0x0017, 0xff01, 0x000a, 0x000b, 0x0023, 0x0010, 0x0005, 0x000d,
                          0x0012, 0x0033, 0x002d, 0x002b, 0x001b, h, 0x0015])
  {
  }

  // The length fields of the record, the handshake message, the session id, the ciphers and the extensions
  // agree with where these parts end (sections 4.1.2 and 5.1 of RFC 8446), and so do those around the host name.
  ghost predicate WellFormed(request: seq<Byte>, url: seq<Byte>, random: seq<Byte>, sessionId: seq<Byte>, greases: seq<Byte>,
                             key: seq<Byte>)
    requires |greases| == MAX_GREASE && |url| <= 216
  {
    && |request| == 517
    && request[..3] == [0x16, 0x03, 0x01] && Length(request[3], request[4]) == |request| - 5
    && request[5] == 0x01 && request[6] == 0 && Length(request[7], request[8]) == |request| - 9
    && request[9..11] == [0x03, 0x03] && request[11..43] == random
    && request[43] == |sessionId| && request[44..76] == sessionId
    && 78 + Length(request[76], request[77]) == 112 && Numbers(request[78..112]) == Ciphers(greases)
    && request[112..114] == [0x01, 0x00]
    && Length(request[114], request[115]) == |request| - 116
    && Walk(request[116..]).Some? && Means(Walk(request[116..]).value, url, greases, key)
    && KindsOf(Walk(request[116..]).value) == Kinds(greases)
    && request[120..122] == [0x00, 0x00] && Length(request[122], request[123]) == |url| + 5
    && Length(request[124], request[125]) == |url| + 3 && Length(request[127], request[128]) == |url|
    && request[129..129 + |url|] == url
    && request[232 + |url|..264 + |url|] == key
  }

  // The ciphers offered, after a GREASE value
  function Ciphers(greases: seq<Byte>): seq<nat>
    requires |greases| == MAX_GREASE
  {
    [Length(greases[0], greases[0]), 0x1301, 0x1302, 0x1303, 0xc02b, 0xc02f, 0xc02c, 0xc030, 0xcca9, 0xcca8,
     0xc013, 0xc014, 0x009c, 0x009d, 0x002f, 0x0035, 0x000a]
  }

  // What the extensions say, in order.
  ghost predicate Means(entries: seq<Entry>, url: seq<Byte>, greases: seq<Byte>, key: seq<Byte>)
    requires |greases| == MAX_GREASE && |url| <= 216
  {
    && |entries| == 17
    && NamesMean(entries[..4], url, greases) && CurvesMean(entries[4..7], greases) && ProtocolsMean(entries[7..11])
    && SharesMean(entries[11..16], greases, key)
    && entries[16] == Entry(0x0015, seq(216 - |url|, _ => 0))
  }

  // GREASE; server_name: a list with one name, of type 0, which is url; extended_master_secret; renegotiation_info: empty
  ghost predicate NamesMean(entries: seq<Entry>, url: seq<Byte>, greases: seq<Byte>)
    requires |greases| == MAX_GREASE
  {
    && |entries| == 4
    && entries[0] == Entry(Length(greases[2], greases[2]), [])
    && entries[1].kind == 0x0000 && |entries[1].data| == |url| + 5
    && Length(entries[1].data[0], entries[1].data[1]) == |url| + 3 && entries[1].data[2] == 0x00
    && Length(entries[1].data[3], entries[1].data[4]) == |url| && entries[1].data[5..] == url
    && entries[2] == Entry(0x0017, []) && entries[3] == Entry(0xff01, [0x00])
  }

  // supported_groups: GREASE, x25519, secp256r1, secp384r1; ec_point_formats: uncompressed; session_ticket
  ghost predicate CurvesMean(entries: seq<Entry>, greases: seq<Byte>)
    requires |greases| == MAX_GREASE
  {
    && |entries| == 3
    && entries[0].kind == 0x000a && |entries[0].data| == 10
    && Numbers(entries[0].data[2..]) == [Length(greases[4], greases[4]), 0x001d, 0x0017, 0x0018]
    && entries[1] == Entry(0x000b, [0x01, 0x00]) && entries[2] == Entry(0x0023, [])
  }

  // application_layer_protocol_negotiation: h2 and http/1.1; status_request; signature_algorithms; signed timestamps
  ghost predicate ProtocolsMean(entries: seq<Entry>) {
    && |entries| == 4
    && entries[0].kind == 0x0010 && |entries[0].data| == 14
    && Strings(entries[0].data[2..]) == [[0x68, 0x32], [0x68, 0x74, 0x74, 0x70, 0x2f, 0x31, 0x2e, 0x31]]
    && entries[1] == Entry(0x0005, [0x01, 0x00, 0x00, 0x00, 0x00])
    && entries[2].kind == 0x000d && |entries[2].data| == 20
    && Numbers(entries[2].data[2..]) == [0x0403, 0x0804, 0x0401, 0x0503, 0x0805, 0x0501, 0x0806, 0x0601, 0x0201]
    && entries[3] == Entry(0x0012, [])
  }

  // key_share: GREASE with one byte, x25519 with the key; psk_key_exchange_modes; supported_versions: GREASE and 1.3 down
  // to 1.0; compress_certificate; GREASE
  ghost predicate SharesMean(entries: seq<Entry>, greases: seq<Byte>, key: seq<Byte>)
    requires |greases| == MAX_GREASE
  {
    && |entries| == 5
    && entries[0].kind == 0x0033 && |entries[0].data| == 43
    && Shares(entries[0].data[2..]) == [Share(Length(greases[4], greases[4]), [0x00]), Share(0x001d, key)]
    && entries[1] == Entry(0x002d, [0x01, 0x01])
    && entries[2].kind == 0x002b && |entries[2].data| == 11
    && Numbers(entries[2].data[1..]) == [Length(greases[6], greases[6]), 0x0304, 0x0303, 0x0302, 0x0301]
    && entries[3] == Entry(0x001b, [0x02, 0x00, 0x02])
    && entries[4] == Entry(Length(greases[3], greases[3]), [0x00])
  }

  class Builder {
    var request: seq<Byte>
    ghost var entries: seq<Entry>

    // The extensions added so far can be walked.
    ghost predicate Valid()
      reads this
    {
      |request| >= 116 && Walk(request[116..]) == Some(entries)
    }

    constructor (front: seq<Byte>)
      requires |front| == 116
      ensures Valid() && request == front && entries == []
    {
      request, entries := front, [];
    }

    method Add(e: seq<Byte>, ghost x: Entry)
      requires Valid() && IsExtension(e, x)
      modifies this
      ensures Valid() && request == old(request) + e && entries == old(entries) + [x]
    {
      hide Walk, IsExtension;
      WalkAppend(request[116..], e, entries, x);
      assert (request + e)[116..] == request[116..] + e;
      request := request + e;
      entries := entries + [x];
    }
  }

  // What a run of additions leaves behind.
  ghost predicate Added(before: seq<Byte>, entriesBefore: seq<Entry>, after: seq<Byte>, entriesAfter: seq<Entry>,
                        more: seq<Entry>, n: nat) {
    entriesAfter == entriesBefore + more && before <= after && |after| == |before| + n
  }

  // Lines 121-128
  method AddNames(b: Builder, url: seq<Byte>, greases: seq<Byte>)
    requires b.Valid() && |greases| == MAX_GREASE && IsGrease(greases[2]) && |url| + 5 < 0x1_0000
    modifies b
    ensures b.Valid()
    ensures Added(old(b.request), old(b.entries), b.request, b.entries, NameEntries(url, greases), 22 + |url|)
    ensures var k := |old(b.request)| + 4; b.request[k..k + 9 + |url|] == NameExtension(url)
  {
    hide Walk, Length, NameExtension, IsExtension, NameData;
    IsGreaseExtension(greases[2]);
    b.Add(Twice(greases[2]) + [0x00, 0x00], Entry(Length(greases[2], greases[2]), []));
    IsNameExtension(url);
    b.Add(NameExtension(url), Entry(0x0000, NameData(url)));
    assert b.request[|old(b.request)| + 4..] == NameExtension(url);
    AddPlain(b, 0x00, 0x17, []);
    AddPlain(b, 0xff, 0x01, [0x00]);
  }

  ghost function NameEntries(url: seq<Byte>, greases: seq<Byte>): seq<Entry>
    requires |greases| == MAX_GREASE
  {
    [Entry(Length(greases[2], greases[2]), []), Entry(0x0000, NameData(url)), Entry(0x0017, []), Entry(0xff01, [0x00])]
  }

  lemma NamesAreMeant(url: seq<Byte>, greases: seq<Byte>)
    requires |greases| == MAX_GREASE && |url| + 5 < 0x1_0000
    ensures NamesMean(NameEntries(url, greases), url, greases)
  {
    hide LengthBytes;
    var n, data := |url|, NameData(url);
    assert data[0] == LengthBytes(n + 3)[0] && data[1] == LengthBytes(n + 3)[1] && data[2] == 0x00;
    assert data[3] == LengthBytes(n)[0] && data[4] == LengthBytes(n)[1] && data[5..] == url;
  }

  // server_name (section 3 of RFC 6066)
  function NameData(url: seq<Byte>): (data: seq<Byte>)
    ensures |data| == |url| + 5
  {
    LengthBytes(|url| + 3) + [0x00] + LengthBytes(|url|) + url
  }

  function NameExtension(url: seq<Byte>): seq<Byte> {
    [0x00, 0x00] + LengthBytes(|NameData(url)|) + NameData(url)
  }

  lemma NameDataIsVector(url: seq<Byte>)
    requires |url| + 5 < 0x1_0000
    ensures VectorOk(0x0000, NameData(url))
  {
    hide LengthBytes;
    var data := NameData(url);
    assert data[0] == LengthBytes(|url| + 3)[0] && data[1] == LengthBytes(|url| + 3)[1];
  }

  lemma FramedExtension(hi: Byte, lo: Byte, data: seq<Byte>)
    requires |data| < 0x1_0000 && VectorOk(hi * 256 + lo, data)
    ensures var e := [hi, lo] + LengthBytes(|data|) + data; IsExtension(e, Entry(hi * 256 + lo, data)) && |e| == 4 + |data|
  {
    hide VectorOk, LengthBytes;
    var e := [hi, lo] + LengthBytes(|data|) + data;
    assert e[2] == LengthBytes(|data|)[0] && e[3] == LengthBytes(|data|)[1] && e[4..] == data;
  }

  lemma IsNameExtension(url: seq<Byte>)
    requires |url| + 5 < 0x1_0000
    ensures IsExtension(NameExtension(url), Entry(0x0000, NameData(url))) && |NameExtension(url)| == 9 + |url|
  {
    hide VectorOk, LengthBytes, NameData, IsExtension;
    NameDataIsVector(url);
    FramedExtension(0x00, 0x00, NameData(url));
  }

  lemma GreaseVector(kind: nat, data: seq<Byte>)
    requires kind > 0x0033 && kind != 0xff01
    ensures VectorOk(kind, data)
  {
  }

  lemma IsGreaseExtension(g: Byte)
    requires IsGrease(g)
    ensures IsExtension(Twice(g) + [0x00, 0x00], Entry(Length(g, g), []))
    ensures IsExtension(Twice(g) + [0x00, 0x01, 0x00], Entry(Length(g, g), [0x00]))
  {
    GreaseKind(g);
    hide VectorOk, IsExtension, IsGrease;
    GreaseVector(g * 256 + g, []);
    GreaseVector(g * 256 + g, [0x00]);
    IsPlainExtension(g, g, []);
    IsPlainExtension(g, g, [0x00]);
    assert [g, g, 0x00, 0x00] + [] == Twice(g) + [0x00, 0x00];
    assert [g, g, 0x00, 0x01] + [0x00] == Twice(g) + [0x00, 0x01, 0x00];
  }

  lemma IsPlainExtension(hi: Byte, lo: Byte, data: seq<Byte>)
    requires |data| < 256 && VectorOk(hi * 256 + lo, data)
    ensures IsExtension([hi, lo, 0x00, |data|] + data, Entry(hi * 256 + lo, data))
  {
    hide VectorOk;
    assert ([hi, lo, 0x00, |data|] + data)[4..] == data;
  }

  method AddPlain(b: Builder, hi: Byte, lo: Byte, data: seq<Byte>)
    requires b.Valid() && |data| < 256 && VectorOk(hi * 256 + lo, data)
    modifies b
    ensures b.Valid() && b.request == old(b.request) + ([hi, lo, 0x00, |data|] + data)
    ensures b.entries == old(b.entries) + [Entry(hi * 256 + lo, data)]
  {
    hide Walk, IsExtension, VectorOk;
    IsPlainExtension(hi, lo, data);
    b.Add([hi, lo, 0x00, |data|] + data, Entry(hi * 256 + lo, data));
  }

  ghost function CurveEntries(greases: seq<Byte>): seq<Entry>
    requires |greases| == MAX_GREASE
  {
    [Entry(0x000a, [0x00, 0x08] + Twice(greases[4]) + [0x00, 0x1d, 0x00, 0x17, 0x00, 0x18]), Entry(0x000b, [0x01, 0x00]),
     Entry(0x0023, [])]
  }

  // Lines 128-131
  method AddCurves(b: Builder, greases: seq<Byte>)
    requires b.Valid() && |greases| == MAX_GREASE
    modifies b
    ensures b.Valid()
    ensures Added(old(b.request), old(b.entries), b.request, b.entries, CurveEntries(greases), 24)
  {
    hide Walk;
    AddPlain(b, 0x00, 0x0a, [0x00, 0x08] + Twice(greases[4]) + [0x00, 0x1d, 0x00, 0x17, 0x00, 0x18]);
    AddPlain(b, 0x00, 0x0b, [0x01, 0x00]);
    AddPlain(b, 0x00, 0x23, []);
  }

  lemma CurvesAreMeant(greases: seq<Byte>)
    requires |greases| == MAX_GREASE
    ensures CurvesMean(CurveEntries(greases), greases)
  {
    hide Numbers;
    FourNumbers(CurveEntries(greases)[0].data[2..]);
  }

  const PROTOCOLS: seq<Byte> := [0x00, 0x0c, 0x02, 0x68, 0x32, 0x08, 0x68, 0x74, 0x74, 0x70, 0x2f, 0x31, 0x2e, 0x31]
  const SIGNATURES: seq<Byte> := [0x00, 0x12, 0x04, 0x03, 0x08, 0x04, 0x04, 0x01, 0x05, 0x03, 0x08, 0x05, 0x05, 0x01,
                                  0x08, 0x06, 0x06, 0x01, 0x02, 0x01]

  ghost function ProtocolEntries(): seq<Entry> {
    [Entry(0x0010, PROTOCOLS), Entry(0x0005, [0x01, 0x00, 0x00, 0x00, 0x00]), Entry(0x000d, SIGNATURES), Entry(0x0012, [])]
  }

  // Lines 131-133
  method AddProtocols(b: Builder)
    requires b.Valid()
    modifies b
    ensures b.Valid()
    ensures Added(old(b.request), old(b.entries), b.request, b.entries, ProtocolEntries(), 55)
  {
    hide Walk;
    AddPlain(b, 0x00, 0x10, PROTOCOLS);
    AddPlain(b, 0x00, 0x05, [0x01, 0x00, 0x00, 0x00, 0x00]);
    AddPlain(b, 0x00, 0x0d, SIGNATURES);
    AddPlain(b, 0x00, 0x12, []);
  }

  lemma FirstString(b: seq<Byte>, n: nat)
    requires b != [] && b[0] == n < |b|
    ensures Strings(b) == [b[1..1 + n]] + Strings(b[1 + n..]) && Strings([]) == []
  {
  }

  lemma ProtocolNames()
    ensures Strings(PROTOCOLS[2..]) == [[0x68, 0x32], [0x68, 0x74, 0x74, 0x70, 0x2f, 0x31, 0x2e, 0x31]]
  {
    var h2: seq<Byte>, http: seq<Byte> := [0x68, 0x32], [0x68, 0x74, 0x74, 0x70, 0x2f, 0x31, 0x2e, 0x31];
    assert PROTOCOLS[2..] == [0x02] + h2 + ([0x08] + http);
    TwoStrings(h2, http);
  }

  lemma TwoStrings(x: seq<Byte>, y: seq<Byte>)
    requires |x| == 2 && |y| == 8
    ensures Strings([0x02] + x + ([0x08] + y)) == [x, y]
  {
    hide Strings;
    var c: seq<Byte> := [0x08] + y;
    var b: seq<Byte> := [0x02] + x + c;
    assert b[1..3] == x && b[3..] == c && c[1..9] == y && c[9..] == [];
    FirstString(b, 2);
    FirstString(c, 8);
  }

  lemma SignatureNumbers()
    ensures Numbers(SIGNATURES[2..]) == [0x0403, 0x0804, 0x0401, 0x0503, 0x0805, 0x0501, 0x0806, 0x0601, 0x0201]
  {
    hide Numbers;
    var b := SIGNATURES[2..];
    var b1, b2, b3 := b[..8], b[8..16], b[16..];
    FourNumbers(b1);
    FourNumbers(b2);
    OneNumber(b3);
    NumbersSplit(b1, b2, 4);
    NumbersSplit(b1 + b2, b3, 8);
    assert b == b1 + b2 + b3;
  }

  lemma ProtocolsAreMeant()
    ensures ProtocolsMean(ProtocolEntries())
  {
    hide Numbers, Strings;
    ProtocolNames();
    SignatureNumbers();
  }

  function ShareData(greases: seq<Byte>, key: seq<Byte>): (b: seq<Byte>)
    requires |greases| == MAX_GREASE
    ensures |b| == 11 + |key|
  {
    [0x00, 0x29] + Twice(greases[4]) + [0x00, 0x01, 0x00, 0x00, 0x1d, 0x00, 0x20] + key
  }

  function VersionData(greases: seq<Byte>): seq<Byte>
    requires |greases| == MAX_GREASE
  {
    [0x0a] + Twice(greases[6]) + [0x03, 0x04, 0x03, 0x03, 0x03, 0x02, 0x03, 0x01]
  }

  ghost function ShareEntries(greases: seq<Byte>, key: seq<Byte>): seq<Entry>
    requires |greases| == MAX_GREASE
  {
    [Entry(0x0033, ShareData(greases, key)), Entry(0x002d, [0x01, 0x01]), Entry(0x002b, VersionData(greases)),
     Entry(0x001b, [0x02, 0x00, 0x02]), Entry(Length(greases[3], greases[3]), [0x00])]
  }

  // Lines 133-141 up to the padding
  method AddKeyShare(b: Builder, greases: seq<Byte>, key: seq<Byte>)
    requires b.Valid() && |greases| == MAX_GREASE && IsGrease(greases[3]) && |key| == 32
    modifies b
    ensures b.Valid()
    ensures Added(old(b.request), old(b.entries), b.request, b.entries, ShareEntries(greases, key), 80)
    ensures var k := |old(b.request)| + 15; b.request[k..k + 32] == key
  {
    hide Walk;
    AddPlain(b, 0x00, 0x33, ShareData(greases, key));
    assert b.request[|old(b.request)| + 15..] == key;
    AddPlain(b, 0x00, 0x2d, [0x01, 0x01]);
    AddPlain(b, 0x00, 0x2b, VersionData(greases));
    AddPlain(b, 0x00, 0x1b, [0x02, 0x00, 0x02]);
    IsGreaseExtension(greases[3]);
    b.Add(Twice(greases[3]) + [0x00, 0x01, 0x00], Entry(Length(greases[3], greases[3]), [0x00]));
  }

  lemma FirstShare(b: seq<Byte>, n: nat)
    requires |b| >= 4 && n == 4 + Length(b[2], b[3]) <= |b|
    ensures Shares(b) == [Share(Length(b[0], b[1]), b[4..n])] + Shares(b[n..])
  {
    hide Length;
  }

  lemma NoShare()
    ensures Shares([]) == []
  {
  }

  lemma ShareParts(greases: seq<Byte>, key: seq<Byte>)
    requires |greases| == MAX_GREASE && |key| == 32
    ensures var b, g := ShareData(greases, key)[2..], greases[4];
            && |b| == 41 && b[0] == b[1] == g && b[2] == 0x00 && b[3] == 0x01 && b[4] == 0x00
            && b[5] == 0x00 && b[6] == 0x1d && b[7] == 0x00 && b[8] == 0x20 && b[9..] == key
  {
    var b := ShareData(greases, key)[2..];
    assert forall i | 0 <= i < 32 :: b[9..][i] == key[i];
  }

  lemma TwoShares(b: seq<Byte>, g: Byte, key: seq<Byte>)
    requires |b| == 41 && b[0] == b[1] == g && b[2] == 0x00 && b[3] == 0x01 && b[4] == 0x00
    requires b[5] == 0x00 && b[6] == 0x1d && b[7] == 0x00 && b[8] == 0x20 && b[9..] == key
    ensures Shares(b) == [Share(Length(g, g), [0x00]), Share(0x001d, key)]
  {
    hide Shares;
    var c := b[5..];
    assert c[0] == b[5] && c[1] == b[6] && c[2] == b[7] && c[3] == b[8];
    assert c[4..36] == b[9..] && c[36..] == [] && b[4..5] == [b[4]];
    NoShare();
    FirstShare(b, 5);
    FirstShare(c, 36);
  }

  lemma KeyIsShared(greases: seq<Byte>, key: seq<Byte>)
    requires |greases| == MAX_GREASE && |key| == 32
    ensures Shares(ShareData(greases, key)[2..]) == [Share(Length(greases[4], greases[4]), [0x00]), Share(0x001d, key)]
  {
    hide Shares, ShareData;
    ShareParts(greases, key);
    TwoShares(ShareData(greases, key)[2..], greases[4], key);
  }

  lemma VersionNumbers(greases: seq<Byte>)
    requires |greases| == MAX_GREASE
    ensures Numbers(VersionData(greases)[1..]) == [Length(greases[6], greases[6]), 0x0304, 0x0303, 0x0302, 0x0301]
  {
    hide Numbers;
    var b := VersionData(greases)[1..];
    OneNumber(b[..2]);
    FourNumbers(b[2..]);
    NumbersSplit(b[..2], b[2..], 1);
    assert b == b[..2] + b[2..];
  }

  lemma SharesAreMeant(greases: seq<Byte>, key: seq<Byte>)
    requires |greases| == MAX_GREASE && |key| == 32
    ensures SharesMean(ShareEntries(greases, key), greases, key)
  {
    hide Numbers, Shares, Length;
    KeyIsShared(greases, key);
    VersionNumbers(greases);
  }

  // Everything together
  lemma AllIsMeant(url: seq<Byte>, greases: seq<Byte>, key: seq<Byte>)
    requires |greases| == MAX_GREASE && |url| <= 216 && |key| == 32
    ensures var all := AllEntries(url, greases, key); Means(all, url, greases, key) && KindsOf(all) == Kinds(greases)
  {
    NamesAreMeant(url, greases);
    CurvesAreMeant(greases);
    ProtocolsAreMeant();
    SharesAreMeant(greases, key);
    KindsAre(url, greases, key);
    hide NamesMean, CurvesMean, ProtocolsMean, SharesMean, NameEntries, CurveEntries, ProtocolEntries, ShareEntries, Kinds, KindsOf;
    FivePieces(NameEntries(url, greases), CurveEntries(greases), ProtocolEntries(), ShareEntries(greases, key),
               Entry(0x0015, seq(216 - |url|, _ => 0)));
  }

  ghost function AllEntries(url: seq<Byte>, greases: seq<Byte>, key: seq<Byte>): seq<Entry>
    requires |greases| == MAX_GREASE && |url| <= 216
  {
    NameEntries(url, greases) + CurveEntries(greases) + ProtocolEntries() + ShareEntries(greases, key)
    + [Entry(0x0015, seq(216 - |url|, _ => 0))]
  }

  lemma FivePieces(a: seq<Entry>, b: seq<Entry>, c: seq<Entry>, d: seq<Entry>, e: Entry)
    requires |a| == 4 && |b| == 3 && |c| == 4 && |d| == 5
    ensures var all := a + b + c + d + [e];
            |all| == 17 && all[..4] == a && all[4..7] == b && all[7..11] == c && all[11..16] == d && all[16] == e
  {
  }

  lemma KindsAre(url: seq<Byte>, greases: seq<Byte>, key: seq<Byte>)
    requires |greases| == MAX_GREASE && |url| <= 216
    ensures KindsOf(AllEntries(url, greases, key)) == Kinds(greases)
    ensures |NameEntries(url, greases)| == 4 && |CurveEntries(greases)| == 3
    ensures |ProtocolEntries()| == 4 && |ShareEntries(greases, key)| == 5
  {
    hide NameData, ShareData, VersionData, Length;
  }

  // Lines 112-145. CHECK(padding >= 0) fails for host names of more than 216 bytes; every other request comes out
  // well formed (the padding as in section 3 of RFC 7685).
  method Build(url: seq<Byte>, random: seq<Byte>, sessionId: seq<Byte>, greases: seq<Byte>, key: seq<Byte>)
    returns (request: Option<seq<Byte>>)
    requires |random| == |sessionId| == |key| == 32
    requires |greases| == MAX_GREASE && IsGrease(greases[2]) && IsGrease(greases[3])
    ensures request.Some? <==> |url| <= 216
    ensures request.Some? ==> WellFormed(request.value, url, random, sessionId, greases, key)
  {
    hide Walk, Length, Front, NameExtension, NameEntries, CurveEntries, ProtocolEntries, ShareEntries, Means, KindsOf, Kinds;
    if |url| + 5 >= 0x1_0000 {
      return None;  // the length fields would wrap around, in a request that is too long anyway
    }
    var front := Front(random, sessionId, greases);
    var b := new Builder(front);
    AddNames(b, url, greases);
    ghost var name := b.request[120..129 + |url|];
    AddCurves(b, greases);
    AddProtocols(b);
    AddKeyShare(b, greases, key);
    ghost var shared := b.request[232 + |url|..264 + |url|];
    var padding := 515 - (|b.request| + 2);
    if padding < 0 {
      return None;
    }
    AddPlain(b, 0x00, 0x15, seq(padding, _ => 0));
    assert b.entries == AllEntries(url, greases, key);
    assert b.request[120..129 + |url|] == name && b.request[232 + |url|..264 + |url|] == shared;
    AllIsMeant(url, greases, key);
    AllFields(b.request, url, random, sessionId, greases, key);
    request := Some(b.request);
  }

  // With GREASE values set up as lines 95-105 do, no extension type occurs twice, whatever the random bytes are.
  method Request(url: seq<Byte>, random: seq<Byte>, sessionId: seq<Byte>, greaseBytes: seq<Byte>, key: seq<Byte>)
    returns (request: Option<seq<Byte>>, greases: seq<Byte>)
    requires |random| == |sessionId| == |key| == 32 && |greaseBytes| == MAX_GREASE
    ensures request.Some? <==> |url| <= 216
    ensures |greases| == MAX_GREASE && forall i | 0 <= i < MAX_GREASE :: greases[i] == Grease(greaseBytes, i) && IsGrease(greases[i])
    ensures request.Some? ==>
              WellFormed(request.value, url, random, sessionId, greases, key)
              && Walk(request.value[116..]).Some? && NoDuplicates(KindsOf(Walk(request.value[116..]).value))
  {
    hide Walk, Kinds, KindsOf, Means, Numbers, Ciphers, Grease;
    greases := SetupGreases(greaseBytes);
    request := Build(url, random, sessionId, greases, key);
    KindsDiffer(greases);
  }

  lemma FrontFields(random: seq<Byte>, sessionId: seq<Byte>, greases: seq<Byte>)
    requires |random| == |sessionId| == 32 && |greases| == MAX_GREASE
    ensures var b := Front(random, sessionId, greases);
            && b[..3] == [0x16, 0x03, 0x01] && b[3] == 0x02 && b[4] == 0x00 && b[5] == 0x01
            && b[6] == 0x00 && b[7] == 0x01 && b[8] == 0xfc && b[9..11] == [0x03, 0x03]
            && b[43] == 0x20 && b[76] == 0x00 && b[77] == 0x22 && b[112..114] == [0x01, 0x00] && b[114] == 0x01 && b[115] == 0x91
  {
  }

  lemma FrontParts(random: seq<Byte>, sessionId: seq<Byte>, greases: seq<Byte>)
    requires |random| == |sessionId| == 32 && |greases| == MAX_GREASE
    ensures var b := Front(random, sessionId, greases); b[11..43] == random && b[44..76] == sessionId && b[78..112] == CipherBytes(greases)
  {
    var b := Front(random, sessionId, greases);
    assert forall i | 0 <= i < 32 :: b[11..43][i] == random[i];
    assert forall i | 0 <= i < 32 :: b[44..76][i] == sessionId[i];
  }

  lemma CipherPieces()
    ensures Numbers(CIPHERS1) == [0x1301, 0x1302, 0x1303, 0xc02b] && Numbers(CIPHERS2) == [0xc02f, 0xc02c, 0xc030, 0xcca9]
    ensures Numbers(CIPHERS3) == [0xcca8, 0xc013, 0xc014, 0x009c] && Numbers(CIPHERS4) == [0x009d, 0x002f, 0x0035, 0x000a]
  {
    hide Numbers;
    FourNumbers(CIPHERS1);
    FourNumbers(CIPHERS2);
    FourNumbers(CIPHERS3);
    FourNumbers(CIPHERS4);
  }

  lemma {:induction false} PiecesOf(b0: seq<Byte>, b1: seq<Byte>, b2: seq<Byte>, b3: seq<Byte>, b4: seq<Byte>)
    requires |b0| == 2 && |b1| == |b2| == |b3| == |b4| == 8
    ensures Numbers(b0 + b1 + b2 + b3 + b4) == Numbers(b0) + Numbers(b1) + Numbers(b2) + Numbers(b3) + Numbers(b4)
  {
    hide Numbers;
    NumbersSplit(b0, b1, 1);
    NumbersSplit(b0 + b1, b2, 5);
    NumbersSplit(b0 + b1 + b2, b3, 9);
    NumbersSplit(b0 + b1 + b2 + b3, b4, 13);
  }

  lemma CipherNumbers(greases: seq<Byte>)
    requires |greases| == MAX_GREASE
    ensures Numbers(CipherBytes(greases)) == Ciphers(greases)
  {
    hide Numbers, Length;
    OneNumber(Twice(greases[0]));
    CipherPieces();
    PiecesOf(Twice(greases[0]), CIPHERS1, CIPHERS2, CIPHERS3, CIPHERS4);
  }

  lemma NameFields(url: seq<Byte>)
    requires |url| + 5 < 0x1_0000
    ensures var e := NameExtension(url);
            && |e| == 9 + |url| && e[..2] == [0x00, 0x00] && Length(e[2], e[3]) == |url| + 5
            && Length(e[4], e[5]) == |url| + 3 && Length(e[7], e[8]) == |url| && e[9..] == url
  {
    var n, e := |url|, NameExtension(url);
    assert e[2] == LengthBytes(n + 5)[0] && e[3] == LengthBytes(n + 5)[1];
    assert e[4] == LengthBytes(n + 3)[0] && e[5] == LengthBytes(n + 3)[1];
    assert e[7] == LengthBytes(n)[0] && e[8] == LengthBytes(n)[1];
  }

  lemma AllFields(request: seq<Byte>, url: seq<Byte>, random: seq<Byte>, sessionId: seq<Byte>, greases: seq<Byte>, key: seq<Byte>)
    requires |url| <= 216 && |request| == 517 && |random| == |sessionId| == 32 && |greases| == MAX_GREASE
    requires Front(random, sessionId, greases) <= request
    requires Walk(request[116..]).Some? && Means(Walk(request[116..]).value, url, greases, key)
    requires KindsOf(Walk(request[116..]).value) == Kinds(greases)
    requires request[120..129 + |url|] == NameExtension(url) && request[232 + |url|..264 + |url|] == key
    ensures WellFormed(request, url, random, sessionId, greases, key)
  {
    hide Walk, Kinds, KindsOf, NameExtension, Front, Means, Numbers, Ciphers, CipherBytes;
    var front := Front(random, sessionId, greases);
    FrontFields(random, sessionId, greases);
    FrontParts(random, sessionId, greases);
    CipherNumbers(greases);
    assert request[..3] == front[..3] && request[9..11] == front[9..11] && request[112..114] == front[112..114];
    assert request[11..43] == front[11..43] && request[44..76] == front[44..76] && request[78..112] == front[78..112];
    NameFields(url);
    var e := NameExtension(url);
    assert forall i | 0 <= i < |e| :: e[i] == request[120 + i];
    assert request[120..122] == e[..2] && request[129..129 + |url|] == e[9..];
  }
}
