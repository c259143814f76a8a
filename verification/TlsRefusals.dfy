/** Which answers the TLS probe accepts, which it waits for and which it refuses with which error (check_tls.cpp, lines
    151-256), in terms of printed answers and of the bytes at fixed places: a description of the reference parser from
    outside. */
module TlsRefusals {
  import opened Basics
  import opened TlsResponse
  import opened TlsFlight

  // ---------- what can be printed ----------

  ghost predicate Printable(f: Flight) {
    FlightOk(f) && !LastIsEmpty(f.extensions)
  }

  // The first record of a printed answer
  ghost function HelloRecord(f: Flight, sessionId: seq<Byte>): seq<Byte>
    requires FlightOk(f) && |sessionId| == 32
  {
    HANDSHAKE + LengthBytes(|PrintHello(f, sessionId)|) + PrintHello(f, sessionId)
  }

  // The beginning of a record
  ghost predicate Begun(r: seq<Byte>) {
    && r != []
    && (|r| >= 3 ==> r[..3] == APPLICATION_DATA)
    && (|r| >= 5 ==> 0 < Length(r[3], r[4]) && |r| < 5 + Length(r[3], r[4]))
  }

  lemma BytesBack(hi: Byte, lo: Byte)
    ensures LengthBytes(Length(hi, lo)) == [hi, lo]
  {
  }

  // ---------- extensions ----------

  // What is left over after whole extensions
  ghost predicate NoExtension(rest: seq<Byte>) {
    rest != [] && (|rest| <= 4 || 4 + Length(rest[2], rest[3]) > |rest|)
  }

  ghost predicate ExtensionsOk(es: seq<Extension>) {
    forall i | 0 <= i < |es| :: ExtensionOk(es[i])
  }

  ghost function Leftover(rest: seq<Byte>): Error {
    if |rest| <= 4 then WrongExtensionsList else WrongExtensionLength
  }

  lemma PrintFirst(x: Extension, es: seq<Extension>)
    requires ExtensionOk(x) && ExtensionsOk(es)
    ensures ExtensionsOk([x] + es)
    ensures PrintExtensions([x] + es) == LengthBytes(x.kind) + LengthBytes(|x.data|) + x.data + PrintExtensions(es)
  {
    var all := [x] + es;
    assert forall i | 0 <= i < |all| :: all[i] == if i == 0 then x else es[i - 1];
    assert all[1..] == es && all[0] == x;
  }

  lemma ParseFirst(e: seq<Byte>, n: nat)
    requires |e| > 4 && n == 4 + Length(e[2], e[3]) <= |e|
    ensures ParseExtensions(e) ==
            match ParseExtensions(e[n..])
            case HelloOk(rest) => HelloOk([Length(e[0], e[1])] + rest)
            case HelloBad(error) => HelloBad(error)
  {
    hide Length;
  }

  lemma ParseLeftover(rest: seq<Byte>)
    ensures rest == [] ==> ParseExtensions(rest) == HelloOk([])
    ensures NoExtension(rest) ==> ParseExtensions(rest) == HelloBad(Leftover(rest))
  {
  }

  lemma FirstBytes(e: seq<Byte>, n: nat, rest: seq<Byte>)
    requires |e| > 4 && n == 4 + Length(e[2], e[3]) <= |e| && e[n..] == rest
    ensures LengthBytes(Length(e[0], e[1])) + LengthBytes(n - 4) + e[4..n] + rest == e
  {
    hide LengthBytes;
    BytesBack(e[0], e[1]);
    BytesBack(e[2], e[3]);
    assert e == [e[0], e[1]] + [e[2], e[3]] + e[4..n] + e[n..];
  }

  // Every list of bytes is some whole extensions and what is left over, and that decides.
  lemma {:induction false} ExtensionsAre(e: seq<Byte>) returns (es: seq<Extension>, rest: seq<Byte>)
    ensures ExtensionsOk(es) && e == PrintExtensions(es) + rest
    ensures rest == [] || NoExtension(rest)
    ensures ParseExtensions(e) == if rest == [] then HelloOk(Kinds(es)) else HelloBad(Leftover(rest))
    ensures rest == [] ==> !LastIsEmpty(es)
  {
    hide ParseExtensions, PrintExtensions, Length, LengthBytes, NoExtension;
    if e == [] || NoExtension(e) {
      es, rest := [], e;
      NothingPrinted();
      ParseLeftover(e);
      assert PrintExtensions(es) + rest == e && Kinds(es) == [];
    } else {
      ExtensionOrNot(e);
      var n := 4 + Length(e[2], e[3]);
      var x := Extension(Length(e[0], e[1]), e[4..n]);
      var es' := [];
      es', rest := ExtensionsAre(e[n..]);
      es := [x] + es';
      PrintFirst(x, es');
      ParseFirst(e, n);
      FirstBytes(e, n, e[n..]);
      assert (LengthBytes(x.kind) + LengthBytes(|x.data|) + x.data + PrintExtensions(es')) + rest
          == LengthBytes(x.kind) + LengthBytes(|x.data|) + x.data + (PrintExtensions(es') + rest);
      assert Kinds(es) == [x.kind] + Kinds(es');
      if es' == [] && rest == [] {
        NothingPrinted();
        assert e[n..] == [];
      }
    }
  }

  lemma NothingPrinted()
    ensures ExtensionsOk([]) && PrintExtensions([]) == []
  {
  }

  lemma ExtensionOrNot(e: seq<Byte>)
    requires e != [] && !NoExtension(e)
    ensures |e| > 4 && 4 + Length(e[2], e[3]) <= |e|
  {
  }

  // The same list with something left over is refused for it.
  lemma {:induction false} LeftoverRefused(es: seq<Extension>, rest: seq<Byte>)
    requires ExtensionsOk(es) && NoExtension(rest)
    ensures ParseExtensions(PrintExtensions(es) + rest) == HelloBad(Leftover(rest))
  {
    hide ParseExtensions, PrintExtensions, LengthBytes, NoExtension, Length;
    if es == [] {
      NothingPrinted();
      assert PrintExtensions(es) + rest == rest;
      ParseLeftover(rest);
    } else {
      var x := es[0];
      assert ExtensionOk(x) && ExtensionsOk(es[1..]) && es == [x] + es[1..];
      PrintFirst(x, es[1..]);
      var e, later := PrintExtensions(es) + rest, PrintExtensions(es[1..]) + rest;
      LeftoverRefused(es[1..], rest);
      assert rest != [] by { LeftoverIsSome(rest); }
      FirstOf(LengthBytes(x.kind), LengthBytes(|x.data|), x.data, PrintExtensions(es[1..]), rest);
      ParseFirst(e, 4 + |x.data|);
    }
  }

  lemma LeftoverIsSome(rest: seq<Byte>)
    requires NoExtension(rest)
    ensures rest != []
  {
  }

  lemma FirstOf(k: seq<Byte>, l: seq<Byte>, data: seq<Byte>, es: seq<Byte>, rest: seq<Byte>)
    requires |k| == |l| == 2 && rest != []
    ensures var e := k + l + data + es + rest;
            |e| > 4 && e[0] == k[0] && e[1] == k[1] && e[2] == l[0] && e[3] == l[1] && e[4 + |data|..] == es + rest
  {
  }

  // ---------- the first record ----------

  ghost predicate Arrived(b: seq<Byte>) {
    |b| >= 5 && b[..3] == HANDSHAKE && Length(b[3], b[4]) > 39 && |b| >= 5 + Length(b[3], b[4])
  }

  // The first k of the nine tests of the handshake message are passed.
  ghost predicate Right(b: seq<Byte>, sessionId: seq<Byte>, k: nat)
    requires Arrived(b)
  {
    && (k >= 1 ==> b[5..7] == [0x02, 0x00])
    && (k >= 2 ==> b[9..11] == [0x03, 0x03])
    && (k >= 3 ==> b[11..43] != RETRY_RANDOM)
    && (k >= 4 ==> b[43] != 0x00)
    && (k >= 5 ==> b[43] == 0x20)
    && (k >= 6 ==> Length(b[3], b[4]) >= 76)
    && (k >= 7 ==> Length(b[3], b[4]) >= 76 && b[44..76] == sessionId)
    && (k >= 8 ==> Length(b[3], b[4]) >= 76 && b[76..79] == [0x13, 0x01, 0x00])
    && (k >= 9 ==> Length(b[3], b[4]) >= 76 && Length(b[79], b[80]) + 76 == Length(b[3], b[4]))
  }

  // Test k is the first one that is not passed.
  ghost predicate Fails(b: seq<Byte>, sessionId: seq<Byte>, k: nat) {
    Arrived(b) && k >= 1 && Right(b, sessionId, k - 1) && !Right(b, sessionId, k)
  }

  ghost function TestError(k: nat): Error {
    match k
    case 1 => NonTls2
    case 2 => NonTls3
    case 3 => HelloRetryRequest
    case 4 => EmptySessionId
    case 5 => NonTls4
    case 6 => ShortHello2
    case 7 => OtherSessionId
    case 8 => OtherCipher
    case _ => WrongExtensionsLength
  }

  // The handshake message as part of the bytes
  lemma Slice(b: seq<Byte>, n: nat, i: nat, j: nat)
    requires i <= j <= n && 5 + n <= |b|
    ensures b[5..5 + n][i..j] == b[5 + i..5 + j]
  {
    var h := b[5..5 + n];
    forall k | 0 <= k < j - i ensures h[i..j][k] == b[5 + i..5 + j][k] {
      assert h[i..j][k] == h[i + k] == b[5 + i + k];
    }
  }

  lemma HelloAt(b: seq<Byte>)
    requires Arrived(b)
    ensures var n := Length(b[3], b[4]);
            var h := b[5..5 + n];
            && |h| == n && h[..2] == b[5..7] && h[4..6] == b[9..11] && h[6..38] == b[11..43] && h[38] == b[43]
            && (n >= 76 ==> h[39..71] == b[44..76] && h[71..74] == b[76..79] && h[74] == b[79] && h[75] == b[80]
                            && h[76..] == b[81..5 + n])
  {
    hide Length;
    var n := Length(b[3], b[4]);
    Slice(b, n, 0, 2);
    Slice(b, n, 4, 6);
    Slice(b, n, 6, 38);
    if n >= 76 {
      Slice(b, n, 39, 71);
      Slice(b, n, 71, 74);
      Slice(b, n, 76, n);
    }
  }

  // The message is refused by the first test it does not pass, or else by its extensions.
  lemma HelloTests(b: seq<Byte>, sessionId: seq<Byte>)
    requires Arrived(b)
    ensures var n := Length(b[3], b[4]);
            var hello := ParseHello(b[5..5 + n], sessionId);
            && (forall k | 1 <= k <= 9 && Fails(b, sessionId, k) :: hello == HelloBad(TestError(k)))
            && (Right(b, sessionId, 9) ==> n >= 76 && hello == ParseExtensions(b[81..5 + n]))
  {
    HelloAt(b);
    hide ParseExtensions, Arrived;
  }

  // A message that passes all tests and has nothing left over is that of a printable answer.
  lemma HelloIsPrinted(b: seq<Byte>, sessionId: seq<Byte>, es: seq<Extension>) returns (f: Flight)
    requires Arrived(b) && |sessionId| == 32 && Right(b, sessionId, 9)
    requires ExtensionsOk(es) && b[81..5 + Length(b[3], b[4])] == PrintExtensions(es) && !LastIsEmpty(es)
    ensures Printable(f) && f.records == [] && f.extensions == es && b[..5 + Length(b[3], b[4])] == HelloRecord(f, sessionId)
  {
    hide PrintExtensions, LengthBytes, Length;
    var n, e := Length(b[3], b[4]), PrintExtensions(es);
    f := Flight(b[7..9], b[11..43], es, []);
    var h := PrintHello(f, sessionId);
    BytesBack(b[3], b[4]);
    BytesBack(b[79], b[80]);
    assert |e| == n - 76 && Length(b[79], b[80]) == n - 76;
    HelloInPieces(b, n);
    assert b[..5 + n] == b[..3] + b[3..5] + b[5..5 + n];
  }

  lemma HelloInPieces(b: seq<Byte>, n: nat)
    requires 76 <= n && 5 + n <= |b|
    ensures b[5..5 + n] == b[5..7] + b[7..9] + b[9..11] + b[11..43] + [b[43]] + b[44..76] + b[76..79] + [b[79], b[80]] + b[81..5 + n]
    ensures b[3..5] == [b[3], b[4]]
  {
  }

  lemma SomeTest(b: seq<Byte>, sessionId: seq<Byte>) returns (k: nat)
    requires Arrived(b)
    ensures if k == 0 then Right(b, sessionId, 9) else k <= 9 && Fails(b, sessionId, k)
  {
    if Right(b, sessionId, 9) {
      k := 0;
    } else {
      k := 9;
      while Right(b, sessionId, k - 1) == false
        invariant 1 <= k <= 9 && !Right(b, sessionId, k)
        decreases k
      {
        k := k - 1;
      }
    }
  }

  // ---------- records ----------

  ghost predicate RecordsOk(rs: seq<seq<Byte>>) {
    forall i | 0 <= i < |rs| :: RecordOk(rs[i])
  }

  ghost predicate WholeRecord(r: seq<Byte>) {
    |r| >= 5 && BeginsWithRecord(r, Length(r[3], r[4]))
  }

  lemma PrintRecord(x: seq<Byte>, rs: seq<seq<Byte>>)
    requires RecordOk(x) && RecordsOk(rs)
    ensures RecordsOk([x] + rs)
    ensures PrintRecords([x] + rs) == APPLICATION_DATA + LengthBytes(|x|) + x + PrintRecords(rs)
  {
    var all := [x] + rs;
    assert forall i | 0 <= i < |all| :: all[i] == if i == 0 then x else rs[i - 1];
    assert all[1..] == rs && all[0] == x;
  }

  lemma RecordBytes(b: seq<Byte>, n: nat)
    requires |b| >= 5 && BeginsWithRecord(b, n)
    ensures b == APPLICATION_DATA + LengthBytes(n) + b[5..5 + n] + b[5 + n..]
  {
    hide LengthBytes;
    BytesBack(b[3], b[4]);
    assert b == b[..3] + [b[3], b[4]] + b[5..5 + n] + b[5 + n..];
  }

  // Every list of bytes is some whole records and what is left over.
  lemma {:induction false} RecordsAre(b: seq<Byte>, x: seq<nat>) returns (rs: seq<seq<Byte>>, rest: seq<Byte>)
    ensures RecordsOk(rs) && b == PrintRecords(rs) + rest && !WholeRecord(rest)
    ensures ParseRecords(b, x) == Prepend(Sizes(rs), ParseRecords(rest, x))
  {
    hide ParseRecords, PrintRecords, LengthBytes, Prepend, BeginsWithRecord;
    if WholeRecord(b) {
      var n := Length(b[3], b[4]);
      RecordFits(b, n);
      var first := b[5..5 + n];
      var rs' := [];
      rs', rest := RecordsAre(b[5 + n..], x);
      rs := [first] + rs';
      PrintRecord(first, rs');
      RecordBytes(b, n);
      assert (APPLICATION_DATA + LengthBytes(n) + first + PrintRecords(rs')) + rest
          == APPLICATION_DATA + LengthBytes(n) + first + (PrintRecords(rs') + rest);
      RecordStep(b, n, x);
      PrependTwice([n], Sizes(rs'), ParseRecords(rest, x));
      assert [n] + Sizes(rs') == Sizes(rs);
    } else {
      rs, rest := [], b;
      NoRecords();
      assert PrintRecords(rs) + rest == b && Sizes(rs) == [];
      PrependTwice([], [], ParseRecords(b, x));
    }
  }

  lemma RecordFits(b: seq<Byte>, n: nat)
    requires BeginsWithRecord(b, n)
    ensures |b| >= 5 + n && n > 0 && (|b| >= 5 ==> n < 0x1_0000)
  {
  }

  lemma NoRecords()
    ensures RecordsOk([]) && PrintRecords([]) == []
  {
  }

  // What is left over after whole records
  lemma RestIs(rest: seq<Byte>, x: seq<nat>)
    requires !WholeRecord(rest)
    ensures var o := ParseRecords(rest, x);
            && (o.Complete? <==> rest == [])
            && (o.NeedMore? <==> Begun(rest))
            && (o == Fail(NoApplicationData) <==> |rest| >= 3 && rest[..3] != APPLICATION_DATA)
            && (o == Fail(EmptyApplicationData) <==> |rest| >= 5 && rest[..3] == APPLICATION_DATA && rest[3] == rest[4] == 0x00)
            && (o.Fail? ==> o.error in {NoApplicationData, EmptyApplicationData})
  {
  }

  // ---------- after the first record ----------

  lemma AfterHello(b: seq<Byte>, sessionId: seq<Byte>, f: Flight, r: seq<Byte>)
    requires Printable(f) && |sessionId| == 32 && b == HelloRecord(f, sessionId) + r
    ensures Parse(b, sessionId) == ParseRest(r, Kinds(f.extensions))
  {
    hide ParseHello, PrintHello, ParseRest, PrintExtensions;
    HelloBack(f, sessionId);
    var h := PrintHello(f, sessionId);
    var n := |h|;
    assert b[..3] == HANDSHAKE && b[3] == LengthBytes(n)[0] && b[4] == LengthBytes(n)[1];
    assert b[5..5 + n] == h && b[5 + n..] == r;
  }

  lemma PrintIsHello(f: Flight, sessionId: seq<Byte>)
    requires FlightOk(f) && |sessionId| == 32
    ensures Print(f, sessionId) == HelloRecord(f, sessionId) + (CHANGE_CIPHER_SPEC + PrintRecords(f.records))
  {
    hide PrintHello, PrintRecords, LengthBytes;
  }

  lemma AfterAnswer(b: seq<Byte>, sessionId: seq<Byte>, f: Flight, r: seq<Byte>)
    requires Printable(f) && |sessionId| == 32 && b == Print(f, sessionId) + r
    ensures Parse(b, sessionId) == Prepend(Sizes(f.records), ParseRecords(r, Kinds(f.extensions)))
  {
    hide Parse, PrintHello, PrintRecords, ParseRecords, Print, HelloRecord, Prepend, PrintExtensions;
    PrintIsHello(f, sessionId);
    var rs := PrintRecords(f.records);
    var rest := CHANGE_CIPHER_SPEC + rs + r;
    assert b == HelloRecord(f, sessionId) + rest;
    AfterHello(b, sessionId, f, rest);
    assert rest[..6] == CHANGE_CIPHER_SPEC && rest[6..] == rs + r;
    RecordsBack(f.records, Kinds(f.extensions));
    RecordsSplit(rs, r, Kinds(f.extensions), Sizes(f.records));
  }

  // ---------- every answer ----------

  ghost predicate Accepted(b: seq<Byte>, sessionId: seq<Byte>)
    requires |sessionId| == 32
  {
    exists f :: Printable(f) && b == Print(f, sessionId)
  }

  // The bytes are b = whole answer or first record of f, and r
  ghost predicate Follows(b: seq<Byte>, sessionId: seq<Byte>, f: Flight, r: seq<Byte>)
    requires |sessionId| == 32
  {
    Printable(f) && b == Print(f, sessionId) + r
  }

  ghost predicate FollowsHello(b: seq<Byte>, sessionId: seq<Byte>, f: Flight, r: seq<Byte>)
    requires |sessionId| == 32
  {
    Printable(f) && f.records == [] && b == HelloRecord(f, sessionId) + r
  }

  // More is to come: of the first three bytes, of the length, of the message whatever is in it, of the six bytes after
  // the first record of a printable answer, or of a record after a printable answer.
  ghost predicate Awaited(b: seq<Byte>, sessionId: seq<Byte>)
    requires |sessionId| == 32
  {
    || |b| < 3
    || (b[..3] == HANDSHAKE && (|b| < 5 || (Length(b[3], b[4]) > 39 && |b| < 5 + Length(b[3], b[4]))))
    || (exists f, r :: FollowsHello(b, sessionId, f, r) && |r| < 6)
    || (exists f, r :: Follows(b, sessionId, f, r) && Begun(r))
  }

  // All tests of the message are passed, and its extensions are some whole ones and this.
  ghost predicate ListedThen(b: seq<Byte>, sessionId: seq<Byte>, es: seq<Extension>, rest: seq<Byte>) {
    Arrived(b) && Right(b, sessionId, 9) && ExtensionsOk(es) && b[81..5 + Length(b[3], b[4])] == PrintExtensions(es) + rest
  }

  // What each error means
  ghost predicate Refused(b: seq<Byte>, sessionId: seq<Byte>, e: Error)
    requires |sessionId| == 32
  {
    match e
    case NonTls => |b| >= 3 && b[..3] != [0x16, 0x03, 0x03]
    case ShortHello => |b| >= 5 && b[..3] == [0x16, 0x03, 0x03] && Length(b[3], b[4]) <= 39
    case NonTls2 => Fails(b, sessionId, 1)
    case NonTls3 => Fails(b, sessionId, 2)
    case HelloRetryRequest => Fails(b, sessionId, 3)
    case EmptySessionId => Fails(b, sessionId, 4)
    case NonTls4 => Fails(b, sessionId, 5)
    case ShortHello2 => Fails(b, sessionId, 6)
    case OtherSessionId => Fails(b, sessionId, 7)
    case OtherCipher => Fails(b, sessionId, 8)
    case WrongExtensionsLength => Fails(b, sessionId, 9)
    case WrongExtensionLength =>
      exists es, rest :: ListedThen(b, sessionId, es, rest) && |rest| > 4 && 4 + Length(rest[2], rest[3]) > |rest|
    case WrongExtensionsList => exists es, rest :: ListedThen(b, sessionId, es, rest) && 0 < |rest| <= 4
    case NoChangeCipherSpec =>
      exists f, r :: FollowsHello(b, sessionId, f, r) && |r| >= 6 && r[..6] != [0x14, 0x03, 0x03, 0x00, 0x01, 0x01]
    case NoApplicationData => exists f, r :: Follows(b, sessionId, f, r) && |r| >= 3 && r[..3] != [0x17, 0x03, 0x03]
    case EmptyApplicationData =>
      exists f, r :: Follows(b, sessionId, f, r) && |r| >= 5 && r[..3] == [0x17, 0x03, 0x03] && r[3] == r[4] == 0x00
  }

  // ---------- what the outcome says of the bytes ----------

  lemma AnswerIs(b: seq<Byte>, sessionId: seq<Byte>, f: Flight, r: seq<Byte>) returns (g: Flight, rest: seq<Byte>)
    requires |sessionId| == 32 && FollowsHello(b, sessionId, f, r) && |r| >= 6 && r[..6] == CHANGE_CIPHER_SPEC
    ensures Follows(b, sessionId, g, rest) && !WholeRecord(rest) && g.extensions == f.extensions
  {
    hide PrintExtensions, PrintRecords, ParseRecords, PrintHello, HelloRecord, Print, WholeRecord;
    var rs;
    rs, rest := RecordsAre(r[6..], Kinds(f.extensions));
    g := f.(records := rs);
    assert FlightOk(g);
    SameHello(f, g, sessionId);
    PrintIsHello(g, sessionId);
    assert r == CHANGE_CIPHER_SPEC + (PrintRecords(rs) + rest);
    assert b == HelloRecord(g, sessionId) + (CHANGE_CIPHER_SPEC + PrintRecords(rs)) + rest;
  }

  lemma SameHello(f: Flight, g: Flight, sessionId: seq<Byte>)
    requires FlightOk(f) && FlightOk(g) && |sessionId| == 32 && g == f.(records := g.records)
    ensures HelloRecord(f, sessionId) == HelloRecord(g, sessionId)
  {
    hide PrintExtensions, LengthBytes;
  }

  lemma AfterArrival(b: seq<Byte>, sessionId: seq<Byte>)
    requires |sessionId| == 32 && Arrived(b)
    ensures var o := Parse(b, sessionId);
            && (o.Complete? ==> Accepted(b, sessionId))
            && (o.NeedMore? ==> Awaited(b, sessionId))
            && (o.Fail? ==> Refused(b, sessionId, o.error))
  {
    hide ParseHello, ParseExtensions, ParseRest, PrintExtensions, PrintHello, HelloRecord, Print, Right, Refused, Awaited, Accepted;
    var n := Length(b[3], b[4]);
    var k := SomeTest(b, sessionId);
    HelloTests(b, sessionId);
    if k > 0 {
      FailsAt(b, sessionId, k);
    } else {
      PassedAll(b, sessionId);
      var es, rest := ExtensionsAre(b[81..5 + n]);
      assert ListedThen(b, sessionId, es, rest);
      if rest != [] {
        LeftoverIs(b, sessionId, es, rest);
      } else {
        assert PrintExtensions(es) + rest == PrintExtensions(es);
        var f := HelloIsPrinted(b, sessionId, es);
        assert b == b[..5 + n] + b[5 + n..];
        AfterFirstRecord(b, sessionId, f, b[5 + n..]);
      }
    }
  }

  lemma PassedAll(b: seq<Byte>, sessionId: seq<Byte>)
    requires Arrived(b) && Right(b, sessionId, 9)
    ensures Length(b[3], b[4]) >= 76
  {
  }

  lemma FailsAt(b: seq<Byte>, sessionId: seq<Byte>, k: nat)
    requires |sessionId| == 32 && 1 <= k <= 9 && Fails(b, sessionId, k)
    ensures Refused(b, sessionId, TestError(k))
  {
    hide Fails;
  }

  lemma LeftoverIs(b: seq<Byte>, sessionId: seq<Byte>, es: seq<Extension>, rest: seq<Byte>)
    requires |sessionId| == 32 && ListedThen(b, sessionId, es, rest) && NoExtension(rest)
    ensures Refused(b, sessionId, Leftover(rest))
  {
    hide ListedThen;
  }

  lemma AfterFirstRecord(b: seq<Byte>, sessionId: seq<Byte>, f: Flight, r: seq<Byte>)
    requires |sessionId| == 32 && FollowsHello(b, sessionId, f, r)
    ensures var o := Parse(b, sessionId);
            && (o.Complete? ==> Accepted(b, sessionId))
            && (o.NeedMore? ==> Awaited(b, sessionId))
            && (o.Fail? ==> Refused(b, sessionId, o.error))
  {
    hide Parse, ParseRecords, PrintHello, HelloRecord, Print, FlightOk, Right, Arrived, WholeRecord;
    AfterHello(b, sessionId, f, r);
    if |r| >= 6 && r[..6] == CHANGE_CIPHER_SPEC {
      var g, rest := AnswerIs(b, sessionId, f, r);
      AfterAnswer(b, sessionId, g, rest);
      RestIs(rest, Kinds(g.extensions));
      if rest == [] { assert b == Print(g, sessionId); }
    }
  }

  // ---------- both directions ----------

  lemma OutcomeIs(b: seq<Byte>, sessionId: seq<Byte>)
    requires |sessionId| == 32
    ensures var o := Parse(b, sessionId);
            && (o.Complete? ==> Accepted(b, sessionId))
            && (o.NeedMore? ==> Awaited(b, sessionId))
            && (o.Fail? ==> Refused(b, sessionId, o.error))
  {
    if Arrived(b) {
      AfterArrival(b, sessionId);
    }
  }

  lemma FollowedBy(b: seq<Byte>, sessionId: seq<Byte>, f: Flight, r: seq<Byte>)
    requires |sessionId| == 32 && Follows(b, sessionId, f, r)
    ensures Begun(r) ==> Parse(b, sessionId).NeedMore?
    ensures |r| >= 3 && r[..3] != APPLICATION_DATA ==> Parse(b, sessionId) == Fail(NoApplicationData)
    ensures |r| >= 5 && r[..3] == APPLICATION_DATA && r[3] == r[4] == 0x00 ==> Parse(b, sessionId) == Fail(EmptyApplicationData)
  {
    hide Parse, ParseRecords, Print, FlightOk;
    AfterAnswer(b, sessionId, f, r);
    if !WholeRecord(r) { RestIs(r, Kinds(f.extensions)); }
  }

  lemma HelloFollowedBy(b: seq<Byte>, sessionId: seq<Byte>, f: Flight, r: seq<Byte>)
    requires |sessionId| == 32 && FollowsHello(b, sessionId, f, r)
    ensures |r| < 6 ==> Parse(b, sessionId).NeedMore?
    ensures |r| >= 6 && r[..6] != CHANGE_CIPHER_SPEC ==> Parse(b, sessionId) == Fail(NoChangeCipherSpec)
  {
    hide Parse, ParseRecords, HelloRecord, FlightOk;
    AfterHello(b, sessionId, f, r);
  }

  lemma TestFailed(b: seq<Byte>, sessionId: seq<Byte>, k: nat)
    requires |sessionId| == 32 && 1 <= k <= 9 && Fails(b, sessionId, k)
    ensures Parse(b, sessionId) == Fail(TestError(k))
  {
    HelloTests(b, sessionId);
    hide ParseHello, Right;
  }

  lemma ListRefused(b: seq<Byte>, sessionId: seq<Byte>, es: seq<Extension>, rest: seq<Byte>)
    requires |sessionId| == 32 && ListedThen(b, sessionId, es, rest) && NoExtension(rest)
    ensures Parse(b, sessionId) == Fail(Leftover(rest))
  {
    HelloTests(b, sessionId);
    hide ParseHello, Right, ParseExtensions, PrintExtensions;
    LeftoverRefused(es, rest);
  }

  lemma AwaitedIs(b: seq<Byte>, sessionId: seq<Byte>)
    requires |sessionId| == 32 && Awaited(b, sessionId)
    ensures Parse(b, sessionId).NeedMore?
  {
    hide ParseHello, ParseRest, Follows, FollowsHello;
    if f, r :| FollowsHello(b, sessionId, f, r) && |r| < 6 {
      HelloFollowedBy(b, sessionId, f, r);
    } else if f, r :| Follows(b, sessionId, f, r) && Begun(r) {
      FollowedBy(b, sessionId, f, r);
    }
  }

  lemma RefusedIs(b: seq<Byte>, sessionId: seq<Byte>, e: Error)
    requires |sessionId| == 32 && Refused(b, sessionId, e)
    ensures Parse(b, sessionId) == Fail(e)
  {
    hide Fails, ListedThen, Follows, FollowsHello;
    match e
    case NonTls =>
    case ShortHello =>
    case WrongExtensionLength =>
      var es, rest :| ListedThen(b, sessionId, es, rest) && |rest| > 4 && 4 + Length(rest[2], rest[3]) > |rest|;
      ListRefused(b, sessionId, es, rest);
    case WrongExtensionsList =>
      var es, rest :| ListedThen(b, sessionId, es, rest) && 0 < |rest| <= 4;
      ListRefused(b, sessionId, es, rest);
    case NoChangeCipherSpec =>
      var f, r :| FollowsHello(b, sessionId, f, r) && |r| >= 6 && r[..6] != CHANGE_CIPHER_SPEC;
      HelloFollowedBy(b, sessionId, f, r);
    case NoApplicationData =>
      var f, r :| Follows(b, sessionId, f, r) && |r| >= 3 && r[..3] != APPLICATION_DATA;
      FollowedBy(b, sessionId, f, r);
    case EmptyApplicationData =>
      var f, r :| Follows(b, sessionId, f, r) && |r| >= 5 && r[..3] == APPLICATION_DATA && r[3] == r[4] == 0x00;
      FollowedBy(b, sessionId, f, r);
    case NonTls2 => TestFailed(b, sessionId, 1);
    case NonTls3 => TestFailed(b, sessionId, 2);
    case HelloRetryRequest => TestFailed(b, sessionId, 3);
    case EmptySessionId => TestFailed(b, sessionId, 4);
    case NonTls4 => TestFailed(b, sessionId, 5);
    case ShortHello2 => TestFailed(b, sessionId, 6);
    case OtherSessionId => TestFailed(b, sessionId, 7);
    case OtherCipher => TestFailed(b, sessionId, 8);
    case WrongExtensionsLength => TestFailed(b, sessionId, 9);
  }

  // The bytes are accepted exactly if they are a printed answer, and then for what is in it.
  lemma CompleteMeans(b: seq<Byte>, sessionId: seq<Byte>)
    requires |sessionId| == 32
    ensures Parse(b, sessionId).Complete? <==> exists f :: Printable(f) && b == Print(f, sessionId)
    ensures forall f | Printable(f) && b == Print(f, sessionId) ::
              Parse(b, sessionId) == Complete(Kinds(f.extensions), Sizes(f.records))
  {
    hide Parse, Print, FlightOk, LastIsEmpty;
    OutcomeIs(b, sessionId);
    forall f | Printable(f) && b == Print(f, sessionId)
      ensures Parse(b, sessionId) == Complete(Kinds(f.extensions), Sizes(f.records))
    {
      PrintedComesBack(f, sessionId);
    }
  }

  lemma NeedMoreMeans(b: seq<Byte>, sessionId: seq<Byte>)
    requires |sessionId| == 32
    ensures Parse(b, sessionId).NeedMore? <==> Awaited(b, sessionId)
  {
    hide Parse, Awaited;
    OutcomeIs(b, sessionId);
    if Awaited(b, sessionId) { AwaitedIs(b, sessionId); }
  }

  // Each of the sixteen errors is reported exactly for these bytes.
  lemma FailMeans(b: seq<Byte>, sessionId: seq<Byte>, e: Error)
    requires |sessionId| == 32
    ensures Parse(b, sessionId) == Fail(e) <==> Refused(b, sessionId, e)
  {
    hide Parse, Refused;
    OutcomeIs(b, sessionId);
    if Refused(b, sessionId, e) { RefusedIs(b, sessionId, e); }
  }

  // Nothing that is refused is the beginning of a printed answer.
  lemma RefusedForGood(b: seq<Byte>, sessionId: seq<Byte>, f: Flight)
    requires |sessionId| == 32 && Parse(b, sessionId).Fail? && Printable(f)
    ensures !(b <= Print(f, sessionId))
  {
    hide Parse, Print, FlightOk, LastIsEmpty;
    var p := Print(f, sessionId);
    PrintedComesBack(f, sessionId);
    if b <= p {
      assert p == b + p[|b|..];
      MoreBytes(b, p[|b|..], sessionId);
    }
  }
}
