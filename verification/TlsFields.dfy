/** Which beginnings of an answer some printed answer has, byte by byte, and with it the field at which a refused answer
    first differs from all printed ones (check_tls.cpp, lines 151-256). */
module TlsFields {
  import opened Basics
  import opened TlsResponse
  import opened TlsFlight
  import opened TlsRefusals

  ghost predicate Begins(b: seq<Byte>, sessionId: seq<Byte>)
    requires |sessionId| == 32
  {
    exists f :: Printable(f) && b <= Print(f, sessionId)
  }

  // The lengths of printed handshake messages: the list of extensions is empty or has at least five bytes.
  predicate LengthOk(n: nat) {
    n == 76 || n >= 81
  }

  // The bytes there are so far, up to the list of extensions, are those of a printed answer.
  ghost predicate FieldsOk(b: seq<Byte>, sessionId: seq<Byte>)
    requires |sessionId| == 32 && |b| <= 81
  {
    && (forall i | 0 <= i < 3 && i < |b| :: b[i] == HANDSHAKE[i])
    && (|b| >= 5 ==> LengthOk(Length(b[3], b[4])))
    && (|b| > 5 ==> b[5] == 0x02) && (|b| > 6 ==> b[6] == 0x00)
    && (|b| > 9 ==> b[9] == 0x03) && (|b| > 10 ==> b[10] == 0x03)
    && (|b| >= 43 ==> b[11..43] != RETRY_RANDOM)
    && (|b| > 43 ==> b[43] == 0x20)
    && (forall i | 44 <= i < 76 && i < |b| :: b[i] == sessionId[i - 44])
    && (|b| > 76 ==> b[76] == 0x13) && (|b| > 77 ==> b[77] == 0x01) && (|b| > 78 ==> b[78] == 0x00)
    && (|b| > 79 ==> b[79] == LengthBytes(Length(b[3], b[4]) - 76)[0])
    && (|b| > 80 ==> b[80] == LengthBytes(Length(b[3], b[4]) - 76)[1])
  }

  // ---------- printed answers ----------

  lemma {:induction false} ListLength(es: seq<Extension>)
    requires ExtensionsOk(es) && !LastIsEmpty(es) && es != []
    ensures |PrintExtensions(es)| >= 5
  {
    FirstPrinted(es);
    if |es| > 1 {
      ListLength(es[1..]);
    }
  }

  lemma PrintedFields(f: Flight, sessionId: seq<Byte>)
    requires Printable(f) && |sessionId| == 32
    ensures var p := Print(f, sessionId);
            Arrived(p) && Right(p, sessionId, 9) && LengthOk(Length(p[3], p[4])) && |p| >= 11 + Length(p[3], p[4])
  {
    hide Parse, Right, PrintExtensions, ExtensionOk, LengthBytes, Length, PrintRecords;
    var p := Print(f, sessionId);
    PrintedLength(f, sessionId);
    if f.extensions == [] {
      NothingPrinted();
    } else {
      ListLength(f.extensions);
    }
    assert p[..3] == HANDSHAKE;
    PrintedComesBack(f, sessionId);
    var k := SomeTest(p, sessionId);
    if k > 0 { TestFailed(p, sessionId, k); }
  }

  lemma SameBytes(b: seq<Byte>, p: seq<Byte>, sessionId: seq<Byte>)
    requires |sessionId| == 32 && |b| <= 81 && b <= p
    requires Arrived(p) && Right(p, sessionId, 9) && LengthOk(Length(p[3], p[4]))
    ensures FieldsOk(b, sessionId)
  {
    hide LengthBytes;
    BytesBack(p[79], p[80]);
    assert forall i | 0 <= i < |b| :: b[i] == p[i];
    assert p[5] == p[5..7][0] && p[6] == p[5..7][1] && p[9] == p[9..11][0] && p[10] == p[9..11][1];
    assert forall i | 44 <= i < 76 :: p[i] == p[44..76][i - 44];
    assert p[76] == p[76..79][0] && p[77] == p[76..79][1] && p[78] == p[76..79][2];
    if |b| >= 43 { assert b[11..43] == p[11..43]; }
  }

  // ---------- a printed answer that begins so ----------

  // The message length of the answer to build
  function GoodLength(b: seq<Byte>): (n: nat)
    ensures n < 0x1_0000
    ensures |b| >= 5 ==> n == Length(b[3], b[4])
    ensures |b| < 5 ==> LengthOk(n)
    ensures |b| > 3 ==> LengthBytes(n)[0] == b[3]
  {
    if |b| >= 5 then Length(b[3], b[4]) else if |b| == 4 then Length(b[3], 100) else 76
  }

  // Byte i of the answer to build
  function Filled(b: seq<Byte>, sessionId: seq<Byte>, n: nat, i: nat): Byte
    requires |sessionId| == 32 && n >= 76
  {
    if i < |b| then b[i]
    else if i < 3 then HANDSHAKE[i]
    else if i < 5 then LengthBytes(n)[i - 3]
    else if i == 5 then 0x02
    else if i == 9 || i == 10 then 0x03
    else if i == 43 then 0x20
    else if 44 <= i < 76 then sessionId[i - 44]
    else if i == 76 then 0x13
    else if i == 77 then 0x01
    else if i == 79 || i == 80 then LengthBytes(n - 76)[i - 79]
    else if (i == 83 || i == 84) && n >= 80 then LengthBytes(n - 80)[i - 83]
    else 0x00
  }

  function Fill(b: seq<Byte>, sessionId: seq<Byte>, n: nat): (c: seq<Byte>)
    requires |sessionId| == 32 && n >= 76
    ensures |c| == 5 + n && forall i | 0 <= i < 5 + n :: c[i] == Filled(b, sessionId, n, i)
  {
    seq(5 + n, i requires 0 <= i => Filled(b, sessionId, n, i))
  }

  lemma FilledArrives(b: seq<Byte>, sessionId: seq<Byte>)
    requires |sessionId| == 32 && |b| <= 81 && FieldsOk(b, sessionId)
    ensures var n := GoodLength(b);
            LengthOk(n) && var c := Fill(b, sessionId, n); b <= c && Arrived(c) && Length(c[3], c[4]) == n
  {
    hide LengthBytes, Length;
    var n := GoodLength(b);
    var c := Fill(b, sessionId, n);
    if |b| >= 5 { BytesBack(b[3], b[4]); }
    assert c[0] == 0x16 && c[1] == 0x03 && c[2] == 0x03;
    assert c[..3] == HANDSHAKE;
    assert c[3] == LengthBytes(n)[0] && c[4] == LengthBytes(n)[1];
  }

  lemma FilledIsRight(b: seq<Byte>, sessionId: seq<Byte>, n: nat, c: seq<Byte>)
    requires |sessionId| == 32 && |b| <= 81 && FieldsOk(b, sessionId) && LengthOk(n) && n < 0x1_0000 && c == Fill(b, sessionId, n)
    requires Arrived(c) && Length(c[3], c[4]) == n && (|b| >= 5 ==> n == Length(b[3], b[4]))
    ensures Right(c, sessionId, 9)
  {
    hide LengthBytes, Length, Arrived;
    assert c[5] == 0x02 && c[6] == 0x00 && c[9] == 0x03 && c[10] == 0x03 && c[43] == 0x20;
    assert c[5..7] == [0x02, 0x00] && c[9..11] == [0x03, 0x03];
    assert forall i | 44 <= i < 76 :: c[i] == sessionId[i - 44];
    assert c[44..76] == sessionId;
    assert c[76] == 0x13 && c[77] == 0x01 && c[78] == 0x00;
    assert c[76..79] == [0x13, 0x01, 0x00];
    assert c[79] == LengthBytes(n - 76)[0] && c[80] == LengthBytes(n - 76)[1];
    if |b| >= 43 {
      assert c[11..43] == b[11..43];
    } else {
      assert c[11..43][31] == c[42] == 0x00 && RETRY_RANDOM[31] == 0x9c;
    }
  }

  // A list of one extension full of zeros
  function Zeros(n: nat): (z: seq<Byte>)
    ensures |z| == n && forall i | 0 <= i < n :: z[i] == 0x00
  {
    seq(n, i => 0x00)
  }

  lemma OneExtension(data: seq<Byte>)
    requires 0 < |data| < 0x1_0000
    ensures var es := [Extension(0, data)];
            ExtensionsOk(es) && !LastIsEmpty(es) && PrintExtensions(es) == [0x00, 0x00] + LengthBytes(|data|) + data
  {
    var x := Extension(0, data);
    NothingPrinted();
    PrintFirst(x, []);
    hide PrintExtensions, LengthBytes;
    BytesBack(0x00, 0x00);
    assert [x] + [] == [x];
  }

  lemma FilledBytes(b: seq<Byte>, sessionId: seq<Byte>, n: nat, c: seq<Byte>)
    requires |sessionId| == 32 && |b| <= 81 && 81 <= n && c == Fill(b, sessionId, n)
    ensures c[81..5 + n] == [0x00, 0x00] + LengthBytes(n - 80) + Zeros(n - 80)
  {
    hide LengthBytes;
    var l, e := LengthBytes(n - 80), c[81..5 + n];
    assert forall i | 0 <= i < n - 76 :: e[i] == c[81 + i];
    assert e[0] == 0x00 && e[1] == 0x00 && e[2] == l[0] && e[3] == l[1];
    assert forall i | 4 <= i < n - 76 :: e[i] == 0x00;
  }

  lemma FilledList(b: seq<Byte>, sessionId: seq<Byte>, n: nat, c: seq<Byte>) returns (es: seq<Extension>)
    requires |sessionId| == 32 && |b| <= 81 && LengthOk(n) && n < 0x1_0000 && c == Fill(b, sessionId, n)
    ensures ExtensionsOk(es) && c[81..5 + n] == PrintExtensions(es) && !LastIsEmpty(es)
  {
    hide PrintExtensions, LengthBytes, Filled;
    if n == 76 {
      es := [];
      NothingPrinted();
    } else {
      es := [Extension(0, Zeros(n - 80))];
      OneExtension(Zeros(n - 80));
      FilledBytes(b, sessionId, n, c);
    }
  }

  lemma FillLong(b: seq<Byte>, sessionId: seq<Byte>, n: nat) returns (c: seq<Byte>)
    requires |sessionId| == 32 && LengthOk(n)
    ensures n >= 76 && c == Fill(b, sessionId, n)
  {
    c := Fill(b, sessionId, n);
  }

  lemma RecordBegins(f: Flight, sessionId: seq<Byte>)
    requires Printable(f) && |sessionId| == 32
    ensures HelloRecord(f, sessionId) <= Print(f, sessionId)
  {
    hide HelloRecord, Print;
    PrintIsHello(f, sessionId);
  }

  // Up to the list of extensions, a printed answer begins so exactly if the fields there are so far are right.
  lemma BeginsMeans(b: seq<Byte>, sessionId: seq<Byte>)
    requires |sessionId| == 32 && |b| <= 81
    ensures Begins(b, sessionId) <==> FieldsOk(b, sessionId)
  {
    hide FieldsOk, FlightOk, LastIsEmpty, Print, Right, Arrived, Length, PrintExtensions, LengthOk;
    if f :| Printable(f) && b <= Print(f, sessionId) {
      PrintedFields(f, sessionId);
      SameBytes(b, Print(f, sessionId), sessionId);
    }
    if FieldsOk(b, sessionId) {
      FilledArrives(b, sessionId);
      var n := GoodLength(b);
      var c := FillLong(b, sessionId, n);
      FilledIsRight(b, sessionId, n, c);
      var es := FilledList(b, sessionId, n, c);
      var f := HelloIsPrinted(c, sessionId, es);
      assert c[..5 + n] == c;
      RecordBegins(f, sessionId);
    }
  }

  // ---------- the first wrong field ----------

  // Where the field that each error is about begins and ends; the last two are anywhere among the records.
  ghost predicate Field(b: seq<Byte>, e: Error, from: nat, to: nat) {
    && from < to <= |b|
    && match e
       case NonTls => from == 0 && to == 3
       case ShortHello => from == 3 && to == 5
       case NonTls2 => from == 5 && to == 7
       case NonTls3 => from == 9 && to == 11
       case HelloRetryRequest => from == 11 && to == 43
       case EmptySessionId => from == 43 && to == 44
       case NonTls4 => from == 43 && to == 44
       case ShortHello2 => from == 3 && to == 5
       case OtherSessionId => from == 44 && to == 76
       case OtherCipher => from == 76 && to == 79
       case WrongExtensionsLength => from == 79 && to == 81
       case WrongExtensionLength => |b| >= 5 && from == 81 && to == 5 + Length(b[3], b[4])
       case WrongExtensionsList => |b| >= 5 && from == 81 && to == 5 + Length(b[3], b[4])
       case NoChangeCipherSpec => |b| >= 5 && from == 5 + Length(b[3], b[4]) && to == from + 6
       case NoApplicationData => |b| >= 5 && from >= 11 + Length(b[3], b[4]) && to == from + 3
       case EmptyApplicationData => |b| >= 5 && from >= 14 + Length(b[3], b[4]) && to == from + 2
  }

  function Start(k: nat): nat {
    match k case 1 => 5 case 2 => 9 case 3 => 11 case 4 => 43 case 5 => 43 case 6 => 3 case 7 => 44 case 8 => 76 case _ => 79
  }

  function End(k: nat): nat {
    match k case 1 => 7 case 2 => 11 case 3 => 43 case 4 => 44 case 5 => 44 case 6 => 5 case 7 => 76 case 8 => 79 case _ => 81
  }

  lemma BeforeField(b: seq<Byte>, sessionId: seq<Byte>, k: nat)
    requires |sessionId| == 32 && 1 <= k <= 10 && Arrived(b) && Right(b, sessionId, k - 1) && LengthOk(Length(b[3], b[4]))
    requires k != 6
    ensures FieldsOk(b[..if k == 10 then 81 else Start(k)], sessionId)
  {
    hide LengthBytes, Length;
    if k == 10 { BytesBack(b[79], b[80]); }
    var c := b[..if k == 10 then 81 else Start(k)];
    assert b[0] == b[..3][0] && b[1] == b[..3][1] && b[2] == b[..3][2];
    assert b[5] == b[5..7][0] && b[6] == b[5..7][1] && b[9] == b[9..11][0] && b[10] == b[9..11][1];
    assert forall i | 44 <= i < 76 :: b[i] == b[44..76][i - 44];
    assert b[76] == b[76..79][0] && b[77] == b[76..79][1] && b[78] == b[76..79][2];
    if |c| >= 43 { assert c[11..43] == b[11..43]; }
  }

  lemma InField(b: seq<Byte>, sessionId: seq<Byte>, k: nat)
    requires |sessionId| == 32 && 1 <= k <= 9 && Arrived(b) && Right(b, sessionId, k - 1) && End(k) <= |b|
    requires FieldsOk(b[..End(k)], sessionId)
    ensures Right(b, sessionId, k)
  {
    hide LengthBytes, Length;
    var c := b[..End(k)];
    assert forall i | 0 <= i < |c| :: c[i] == b[i];
    match k
    case 1 => assert b[5..7] == [c[5], c[6]];
    case 2 => assert b[9..11] == [c[9], c[10]];
    case 3 => assert b[11..43] == c[11..43];
    case 7 => assert forall i | 0 <= i < 32 :: b[44..76][i] == c[44 + i] == sessionId[i];
    case 8 => assert b[76..79] == [c[76], c[77], c[78]];
    case _ =>
  }

  lemma LongEnough(b: seq<Byte>, sessionId: seq<Byte>, k: nat)
    requires 1 <= k <= 9 && Fails(b, sessionId, k)
    ensures Start(k) <= End(k) <= |b|
  {
  }

  lemma Beginning(b: seq<Byte>, sessionId: seq<Byte>)
    requires |sessionId| == 32 && |b| >= 3 && b[..3] == HANDSHAKE
    ensures FieldsOk(b[..0], sessionId) && FieldsOk(b[..3], sessionId)
  {
    var c := b[..3];
    assert forall i | 0 <= i < 3 :: c[i] == b[i];
  }

  lemma LengthSeen(c: seq<Byte>, sessionId: seq<Byte>)
    requires |sessionId| == 32 && 5 <= |c| <= 81
    ensures FieldsOk(c, sessionId) ==> LengthOk(Length(c[3], c[4]))
  {
  }

  lemma WrongTest(b: seq<Byte>, sessionId: seq<Byte>, k: nat)
    requires |sessionId| == 32 && 1 <= k <= 9 && Fails(b, sessionId, k)
    ensures Field(b, TestError(k), Start(k), End(k)) && !Begins(b[..End(k)], sessionId)
    ensures Begins(b[..Start(k)], sessionId) <==> Start(k) <= 3 || LengthOk(Length(b[3], b[4]))
  {
    hide FieldsOk, Right, Begins, Length;
    LongEnough(b, sessionId, k);
    var c, d := b[..Start(k)], b[..End(k)];
    BeginsMeans(c, sessionId);
    BeginsMeans(d, sessionId);
    if FieldsOk(d, sessionId) { InField(b, sessionId, k); }
    if k == 6 {
      Beginning(b, sessionId);
    } else {
      if LengthOk(Length(b[3], b[4])) { BeforeField(b, sessionId, k); }
      LengthSeen(c, sessionId);
    }
  }

  lemma NeverBegins(c: seq<Byte>, sessionId: seq<Byte>)
    requires |sessionId| == 32 && Parse(c, sessionId).Fail?
    ensures !Begins(c, sessionId)
  {
    hide Parse, Print, FlightOk, LastIsEmpty;
    forall f | Printable(f) ensures !(c <= Print(f, sessionId)) { RefusedForGood(c, sessionId, f); }
  }

  lemma SameList(b: seq<Byte>, sessionId: seq<Byte>, es: seq<Extension>, rest: seq<Byte>, d: seq<Byte>)
    requires ListedThen(b, sessionId, es, rest) && d == b[..5 + Length(b[3], b[4])]
    ensures ListedThen(d, sessionId, es, rest)
  {
    hide Length, PrintExtensions;
    var n := Length(b[3], b[4]);
    assert d[..3] == b[..3] && d[5..7] == b[5..7] && d[9..11] == b[9..11] && d[11..43] == b[11..43];
    assert d[44..76] == b[44..76] && d[76..79] == b[76..79] && d[81..5 + n] == b[81..5 + n];
  }

  lemma WrongList(b: seq<Byte>, sessionId: seq<Byte>, es: seq<Extension>, rest: seq<Byte>)
    requires |sessionId| == 32 && ListedThen(b, sessionId, es, rest) && NoExtension(rest)
    ensures var n := Length(b[3], b[4]);
            && 81 < 5 + n <= |b| && !Begins(b[..5 + n], sessionId)
            && (Begins(b[..81], sessionId) <==> LengthOk(n))
  {
    hide FieldsOk, Begins, Length, PrintExtensions, LengthOk;
    var n := Length(b[3], b[4]);
    PassedAll(b, sessionId);
    LeftoverIsSome(rest);
    var c, d := b[..81], b[..5 + n];
    SameList(b, sessionId, es, rest, d);
    ListRefused(d, sessionId, es, rest);
    NeverBegins(d, sessionId);
    BeginsMeans(c, sessionId);
    LengthSeen(c, sessionId);
    if LengthOk(n) { BeforeField(b, sessionId, 10); }
  }

  lemma HelloLength(f: Flight, sessionId: seq<Byte>)
    requires |sessionId| == 32 && Printable(f)
    ensures var h := HelloRecord(f, sessionId); |h| >= 5 && |h| == 5 + Length(h[3], h[4]) && LengthOk(Length(h[3], h[4]))
  {
    hide PrintExtensions, Length, Right;
    PrintedFields(f, sessionId);
    RecordBegins(f, sessionId);
    hide LengthOk, Arrived, LengthBytes, PrintHello, Print;
    var h, n := HelloRecord(f, sessionId), |PrintHello(f, sessionId)|;
    assert h[3] == LengthBytes(n)[0] && h[4] == LengthBytes(n)[1];
  }

  lemma WrongAfterHello(b: seq<Byte>, sessionId: seq<Byte>, f: Flight, r: seq<Byte>)
    requires |sessionId| == 32 && FollowsHello(b, sessionId, f, r) && |r| >= 6 && r[..6] != CHANGE_CIPHER_SPEC
    ensures |b| >= 5
    ensures var n := Length(b[3], b[4]);
            11 + n <= |b| && LengthOk(n) && Begins(b[..5 + n], sessionId) && !Begins(b[..11 + n], sessionId)
  {
    hide Parse, HelloRecord, Print, FlightOk, LastIsEmpty, LengthOk, Length;
    var h := HelloRecord(f, sessionId);
    HelloLength(f, sessionId);
    RecordBegins(f, sessionId);
    var c, d := b[..|h|], b[..|h| + 6];
    assert c == h && d == h + r[..6] && r[..6][..6] == r[..6];
    assert FollowsHello(d, sessionId, f, r[..6]);
    HelloFollowedBy(d, sessionId, f, r[..6]);
    NeverBegins(d, sessionId);
    assert b[3] == h[3] && b[4] == h[4];
  }

  lemma {:induction false} RecordsAdded(rs: seq<seq<Byte>>, x: seq<Byte>)
    requires RecordsOk(rs) && RecordOk(x)
    ensures RecordsOk(rs + [x]) && PrintRecords(rs + [x]) == PrintRecords(rs) + (APPLICATION_DATA + LengthBytes(|x|) + x)
  {
    hide PrintRecords, LengthBytes;
    NoRecords();
    if rs == [] {
      PrintRecord(x, []);
      assert [x] + [] == rs + [x] == [x];
    } else {
      var rest := rs[1..];
      assert RecordOk(rs[0]) && RecordsOk(rest) && rs == [rs[0]] + rest;
      RecordsAdded(rest, x);
      PrintRecord(rs[0], rest);
      PrintRecord(rs[0], rest + [x]);
      assert rs + [x] == [rs[0]] + (rest + [x]);
    }
  }

  lemma OneMore(f: Flight, sessionId: seq<Byte>, x: seq<Byte>) returns (g: Flight)
    requires |sessionId| == 32 && Printable(f) && RecordOk(x)
    ensures Printable(g) && Print(g, sessionId) == Print(f, sessionId) + (APPLICATION_DATA + LengthBytes(|x|) + x)
  {
    hide PrintRecords, LengthBytes, PrintExtensions, HelloRecord, Print;
    RecordsAdded(f.records, x);
    g := f.(records := f.records + [x]);
    SameHello(f, g, sessionId);
    PrintIsHello(f, sessionId);
    PrintIsHello(g, sessionId);
  }

  lemma PrintBegins(f: Flight, sessionId: seq<Byte>)
    requires |sessionId| == 32 && Printable(f)
    ensures Begins(Print(f, sessionId), sessionId) && Begins(Print(f, sessionId) + APPLICATION_DATA, sessionId)
  {
    hide Print, FlightOk, LastIsEmpty;
    var g := OneMore(f, sessionId, [0x00]);
    assert Print(f, sessionId) + APPLICATION_DATA <= Print(g, sessionId);
  }

  lemma WrongRecord(b: seq<Byte>, sessionId: seq<Byte>, f: Flight, r: seq<Byte>, k: nat)
    requires |sessionId| == 32 && Follows(b, sessionId, f, r)
    requires if k == 3 then |r| >= 3 && r[..3] != APPLICATION_DATA
             else k == 5 && |r| >= 5 && r[..3] == APPLICATION_DATA && r[3] == r[4] == 0x00
    ensures |b| >= 5 && LengthOk(Length(b[3], b[4]))
    ensures var p := |Print(f, sessionId)|;
            && 11 + Length(b[3], b[4]) <= p && p + k <= |b|
            && Begins(b[..if k == 3 then p else p + 3], sessionId) && !Begins(b[..p + k], sessionId)
  {
    hide Parse, Print, FlightOk, LastIsEmpty, Length, LengthOk, Right, Begins;
    var p := Print(f, sessionId);
    PrintedFields(f, sessionId);
    PrintBegins(f, sessionId);
    var d := b[..|p| + k];
    assert d == p + r[..k] && r[..k][..3] == r[..3];
    assert Follows(d, sessionId, f, r[..k]);
    FollowedBy(d, sessionId, f, r[..k]);
    NeverBegins(d, sessionId);
    assert b[3] == p[3] && b[4] == p[4] && b[..|p|] == p;
    if k == 5 { assert b[..|p| + 3] == p + APPLICATION_DATA; }
  }

  lemma NothingYet(sessionId: seq<Byte>)
    requires |sessionId| == 32
    ensures FieldsOk([], sessionId)
  {
  }

  lemma WrongStart(b: seq<Byte>, sessionId: seq<Byte>)
    requires |sessionId| == 32 && |b| >= 3
    ensures b[..3] != HANDSHAKE ==> !Begins(b[..3], sessionId)
    ensures Begins(b[..0], sessionId)
    ensures b[..3] == HANDSHAKE ==> Begins(b[..3], sessionId)
    ensures b[..3] == HANDSHAKE && |b| >= 5 && Length(b[3], b[4]) <= 39 ==> !Begins(b[..5], sessionId)
  {
    hide Begins, Parse, FieldsOk;
    if b[..3] == HANDSHAKE {
      Beginning(b, sessionId);
      BeginsMeans(b[..3], sessionId);
      if |b| >= 5 && Length(b[3], b[4]) <= 39 {
        assert b[..5][..3] == b[..3];
        RefusedIs(b[..5], sessionId, ShortHello);
        NeverBegins(b[..5], sessionId);
      }
    } else {
      assert b[..3][..3] == b[..3];
      RefusedIs(b[..3], sessionId, NonTls);
      NeverBegins(b[..3], sessionId);
    }
    NothingYet(sessionId);
    BeginsMeans([], sessionId);
    assert b[..0] == [];
  }

  // The field that an error is about is the first that no printed answer has, unless that is the length before it.
  ghost predicate Blamed(b: seq<Byte>, sessionId: seq<Byte>, e: Error, from: nat, to: nat)
    requires |sessionId| == 32
  {
    && Field(b, e, from, to)
    && !Begins(b[..to], sessionId)
    && (Begins(b[..from], sessionId) <==> from <= 3 || LengthOk(Length(b[3], b[4])))
  }

  lemma TestBlamed(b: seq<Byte>, sessionId: seq<Byte>, k: nat)
    requires |sessionId| == 32 && 1 <= k <= 9 && Fails(b, sessionId, k)
    ensures exists from, to :: Blamed(b, sessionId, TestError(k), from, to)
  {
    hide Begins, Fails, LengthOk, Field;
    WrongTest(b, sessionId, k);
    assert Blamed(b, sessionId, TestError(k), Start(k), End(k));
  }

  lemma RecordBlamed(b: seq<Byte>, sessionId: seq<Byte>, e: Error, f: Flight, r: seq<Byte>, i: nat, j: nat)
    requires |sessionId| == 32 && Follows(b, sessionId, f, r) && i < j && |Print(f, sessionId)| + j <= |b|
    requires |b| >= 5 && LengthOk(Length(b[3], b[4])) && 11 + Length(b[3], b[4]) <= |Print(f, sessionId)|
    requires (e == NoApplicationData && i == 0 && j == 3) || (e == EmptyApplicationData && i == 3 && j == 5)
    requires Begins(b[..|Print(f, sessionId)| + i], sessionId) && !Begins(b[..|Print(f, sessionId)| + j], sessionId)
    ensures exists from, to :: Blamed(b, sessionId, e, from, to)
  {
    hide Begins, LengthOk, Length, Print, FlightOk;
    var p := |Print(f, sessionId)|;
    assert Blamed(b, sessionId, e, p + i, p + j);
  }

  lemma FirstWrongField(b: seq<Byte>, sessionId: seq<Byte>, e: Error)
    requires |sessionId| == 32 && Parse(b, sessionId) == Fail(e)
    ensures exists from, to :: Blamed(b, sessionId, e, from, to)
  {
    hide Parse, Fails, ListedThen, Follows, FollowsHello, Begins, LengthOk, Length;
    FailMeans(b, sessionId, e);
    match e
    case NonTls =>
      WrongStart(b, sessionId);
      assert Blamed(b, sessionId, e, 0, 3);
    case ShortHello =>
      WrongStart(b, sessionId);
      assert Blamed(b, sessionId, e, 3, 5);
    case WrongExtensionLength =>
      var es, rest :| ListedThen(b, sessionId, es, rest) && |rest| > 4 && 4 + Length(rest[2], rest[3]) > |rest|;
      WrongList(b, sessionId, es, rest);
      assert Blamed(b, sessionId, e, 81, 5 + Length(b[3], b[4]));
    case WrongExtensionsList =>
      var es, rest :| ListedThen(b, sessionId, es, rest) && 0 < |rest| <= 4;
      WrongList(b, sessionId, es, rest);
      assert Blamed(b, sessionId, e, 81, 5 + Length(b[3], b[4]));
    case NoChangeCipherSpec =>
      var f, r :| FollowsHello(b, sessionId, f, r) && |r| >= 6 && r[..6] != CHANGE_CIPHER_SPEC;
      WrongAfterHello(b, sessionId, f, r);
      assert Blamed(b, sessionId, e, 5 + Length(b[3], b[4]), 11 + Length(b[3], b[4]));
    case NoApplicationData =>
      var f, r :| Follows(b, sessionId, f, r) && |r| >= 3 && r[..3] != APPLICATION_DATA;
      WrongRecord(b, sessionId, f, r, 3);
      RecordBlamed(b, sessionId, e, f, r, 0, 3);
    case EmptyApplicationData =>
      var f, r :| Follows(b, sessionId, f, r) && |r| >= 5 && r[..3] == APPLICATION_DATA && r[3] == r[4] == 0x00;
      WrongRecord(b, sessionId, f, r, 5);
      RecordBlamed(b, sessionId, e, f, r, 3, 5);
    case NonTls2 => TestBlamed(b, sessionId, 1);
    case NonTls3 => TestBlamed(b, sessionId, 2);
    case HelloRetryRequest => TestBlamed(b, sessionId, 3);
    case EmptySessionId => TestBlamed(b, sessionId, 4);
    case NonTls4 => TestBlamed(b, sessionId, 5);
    case ShortHello2 => TestBlamed(b, sessionId, 6);
    case OtherSessionId => TestBlamed(b, sessionId, 7);
    case OtherCipher => TestBlamed(b, sessionId, 8);
    case WrongExtensionsLength => TestBlamed(b, sessionId, 9);
  }

  // ---------- waiting ----------

  // The bytes after the first record, or after a printed answer, are those that have to follow.
  ghost predicate Continues(b: seq<Byte>, sessionId: seq<Byte>)
    requires |sessionId| == 32
  {
    || (exists f, r :: FollowsHello(b, sessionId, f, r) && |r| < 6 && r <= CHANGE_CIPHER_SPEC)
    || (exists f, r :: Follows(b, sessionId, f, r) && Begun(r) && (r <= APPLICATION_DATA || APPLICATION_DATA <= r))
  }

  // The record that was begun
  lemma RecordBegun(r: seq<Byte>) returns (x: seq<Byte>)
    requires Begun(r) && (r <= APPLICATION_DATA || APPLICATION_DATA <= r)
    ensures RecordOk(x) && r <= APPLICATION_DATA + LengthBytes(|x|) + x
  {
    hide LengthBytes;
    if |r| < 4 {
      x := [0x00];
      assert r <= APPLICATION_DATA;
    } else if |r| == 4 {
      x := Zeros(Length(r[3], 0x01));
      BytesBack(r[3], 0x01);
      assert r == APPLICATION_DATA + [r[3]];
    } else {
      var n := Length(r[3], r[4]);
      BytesBack(r[3], r[4]);
      x := r[5..] + Zeros(5 + n - |r|);
      assert r == APPLICATION_DATA + [r[3], r[4]] + r[5..];
    }
  }

  lemma ContinuesBegins(b: seq<Byte>, sessionId: seq<Byte>)
    requires |sessionId| == 32 && Continues(b, sessionId)
    ensures Begins(b, sessionId)
  {
    hide Print, HelloRecord, FlightOk, LastIsEmpty, Begun, LengthBytes;
    if f, r :| FollowsHello(b, sessionId, f, r) && |r| < 6 && r <= CHANGE_CIPHER_SPEC {
      PrintIsHello(f, sessionId);
      assert b <= Print(f, sessionId);
    } else {
      var f, r :| Follows(b, sessionId, f, r) && Begun(r) && (r <= APPLICATION_DATA || APPLICATION_DATA <= r);
      var x := RecordBegun(r);
      var g := OneMore(f, sessionId, x);
      assert b <= Print(g, sessionId);
    }
  }

  lemma MustFollowHello(b: seq<Byte>, sessionId: seq<Byte>, f: Flight, r: seq<Byte>, g: Flight)
    requires |sessionId| == 32 && FollowsHello(b, sessionId, f, r) && |r| < 6 && Printable(g) && b <= Print(g, sessionId)
    ensures r <= CHANGE_CIPHER_SPEC
  {
    hide Parse, Print, HelloRecord, FlightOk, LastIsEmpty, Right, LengthOk, Length;
    var h, p := HelloRecord(f, sessionId), Print(g, sessionId);
    HelloLength(f, sessionId);
    PrintedFields(g, sessionId);
    assert h[3] == b[3] == p[3] && h[4] == b[4] == p[4];
    var c, s := p[..|h| + 6], p[|h|..|h| + 6];
    assert p[..|h|] == b[..|h|] == h;
    assert c == h + s && s[..6] == s;
    assert forall i | 0 <= i < |r| :: r[i] == b[|h| + i] == p[|h| + i] == s[i];
    assert FollowsHello(c, sessionId, f, s);
    HelloFollowedBy(c, sessionId, f, s);
    if s != CHANGE_CIPHER_SPEC { RefusedForGood(c, sessionId, g); }
  }

  lemma MustFollow(b: seq<Byte>, sessionId: seq<Byte>, f: Flight, r: seq<Byte>, g: Flight)
    requires |sessionId| == 32 && Follows(b, sessionId, f, r) && 0 < |r| < 3 && Printable(g) && b <= Print(g, sessionId)
    ensures r <= APPLICATION_DATA
  {
    hide Parse, Print, FlightOk, LastIsEmpty;
    var q, p := Print(f, sessionId), Print(g, sessionId);
    PrintedComesBack(g, sessionId);
    var s := p[|q|..];
    assert p[..|q|] == b[..|q|] == q;
    assert p == q + s;
    assert forall i | 0 <= i < |r| :: r[i] == b[|q| + i] == p[|q| + i] == s[i];
    assert Follows(p, sessionId, f, s);
    FollowedBy(p, sessionId, f, s);
    assert |s| >= 3 && s[..3] == APPLICATION_DATA;
    assert forall i | 0 <= i < |r| :: r[i] == s[..3][i];
  }

  // An answer waited for can still be accepted exactly if what there is of the field waited for is right. This is not
  // looked at before the field is complete.
  lemma WaitsMeans(b: seq<Byte>, sessionId: seq<Byte>)
    requires |sessionId| == 32 && Parse(b, sessionId).NeedMore?
    ensures Arrived(b) ==> (Begins(b, sessionId) <==> Continues(b, sessionId))
    ensures |b| <= 81 ==> (Begins(b, sessionId) <==> FieldsOk(b, sessionId))
  {
    hide Parse, Print, FlightOk, LastIsEmpty, FieldsOk, Follows, FollowsHello;
    if |b| <= 81 { BeginsMeans(b, sessionId); }
    if Continues(b, sessionId) { ContinuesBegins(b, sessionId); }
    NeedMoreMeans(b, sessionId);
    if Arrived(b) && Begins(b, sessionId) {
      var g :| Printable(g) && b <= Print(g, sessionId);
      if f, r :| FollowsHello(b, sessionId, f, r) && |r| < 6 {
        MustFollowHello(b, sessionId, f, r, g);
      } else {
        var f, r :| Follows(b, sessionId, f, r) && Begun(r);
        if |r| < 3 { MustFollow(b, sessionId, f, r, g); }
      }
    }
  }

  lemma BeginsEarlier(b: seq<Byte>, sessionId: seq<Byte>, k: nat)
    requires |sessionId| == 32 && k <= |b|
    ensures Begins(b, sessionId) ==> Begins(b[..k], sessionId)
  {
    hide Print, FlightOk, LastIsEmpty;
    if f :| Printable(f) && b <= Print(f, sessionId) { assert b[..k] <= Print(f, sessionId); }
  }

  // So an answer that is already wrong is waited for, as long as its first record has not arrived.
  lemma WaitsInVain(b: seq<Byte>, sessionId: seq<Byte>)
    requires |sessionId| == 32 && |b| > 5 && b[..3] == HANDSHAKE
    requires 39 < Length(b[3], b[4]) && |b| < 5 + Length(b[3], b[4]) && b[5] != 0x02
    ensures Parse(b, sessionId).NeedMore? && !Begins(b, sessionId)
  {
    BeginsMeans(b[..6], sessionId);
    BeginsEarlier(b, sessionId, 6);
    hide Begins;
  }

  // Reading an answer in any chunks: what its end says of the bytes read
  method ReadAnswer(sessionId: seq<Byte>, chunks: seq<seq<Byte>>) returns (o: Outcome, read: nat)
    requires |sessionId| == 32
    ensures read <= |chunks| && (o.NeedMore? ==> read == |chunks|)
    ensures forall k | 0 <= k < read :: Awaited(Concat(chunks[..k]), sessionId)
    ensures var b := Concat(chunks[..read]);
            && (o.Complete? <==> exists f :: Printable(f) && b == Print(f, sessionId))
            && (forall f | Printable(f) && b == Print(f, sessionId) :: o == Complete(Kinds(f.extensions), Sizes(f.records)))
            && (o.NeedMore? <==> Awaited(b, sessionId))
            && (forall e :: o == Fail(e) <==> Refused(b, sessionId, e))
            && (o.Fail? ==> exists from, to :: Blamed(b, sessionId, o.error, from, to))
  {
    hide Parse, Awaited, Refused, Blamed, Printable, Print;
    o, read := ReadAll(sessionId, chunks);
    ghost var b := Concat(chunks[..read]);
    CompleteMeans(b, sessionId);
    NeedMoreMeans(b, sessionId);
    forall e ensures o == Fail(e) <==> Refused(b, sessionId, e) { FailMeans(b, sessionId, e); }
    if o.Fail? { FirstWrongField(b, sessionId, o.error); }
    forall k | 0 <= k < read ensures Awaited(Concat(chunks[..k]), sessionId) { NeedMoreMeans(Concat(chunks[..k]), sessionId); }
  }
}
