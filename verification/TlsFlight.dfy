/** Whole answers: any chunking of the bytes, and answers printed from their parts (check_tls.cpp, lines 151-261). */
module TlsFlight {
  import opened Basics
  import opened TlsResponse
  import opened TlsProbe

  // ---------- chunks ----------

  lemma {:induction false} ConcatSplit(chunks: seq<seq<Byte>>, k: nat) returns (rest: seq<Byte>)
    requires k <= |chunks|
    ensures Concat(chunks) == Concat(chunks[..k]) + rest
  {
    if k == |chunks| {
      assert chunks[..k] == chunks;
      rest := [];
    } else {
      var n := |chunks| - 1;
      var r := ConcatSplit(chunks[..n], k);
      assert chunks[..n][..k] == chunks[..k];
      rest := r + chunks[n];
      assert Concat(chunks[..k]) + rest == (Concat(chunks[..k]) + r) + chunks[n];
    }
  }

  // Reads chunks until one settles the matter. The outcome is the reference parser's on the bytes read, and what
  // it says can only be extended by the bytes not read.
  method ReadAll(sessionId: seq<Byte>, chunks: seq<seq<Byte>>) returns (o: Outcome, read: nat)
    requires |sessionId| == 32
    ensures read <= |chunks| && o == Parse(Concat(chunks[..read]), sessionId)
    ensures o.NeedMore? ==> read == |chunks|
    ensures forall k | 0 <= k < read :: Parse(Concat(chunks[..k]), sessionId).NeedMore?
    ensures Extends(o, Parse(Concat(chunks), sessionId))
  {
    hide Parse, Extends;
    var probe := new Probe(sessionId);
    o, read := NeedMore([], []), 0;
    StartsWaiting(sessionId);
    assert chunks[..0] == [];
    while o.NeedMore? && read < |chunks|
      invariant read <= |chunks| && (o.NeedMore? ==> probe.Valid()) && probe.sessionId == sessionId && fresh(probe)
      invariant probe.result == Concat(chunks[..read]) && o == Parse(probe.result, sessionId)
      invariant forall k | 0 <= k < read :: Parse(Concat(chunks[..k]), sessionId).NeedMore?
    {
      assert chunks[..read + 1][..read] == chunks[..read];
      o := probe.Receive(chunks[read]);
      read := read + 1;
    }
    ghost var rest := ConcatSplit(chunks, read);
    MoreBytes(Concat(chunks[..read]), rest, sessionId);
  }

  lemma StartsWaiting(sessionId: seq<Byte>)
    ensures Parse([], sessionId) == NeedMore([], [])
  {
  }

  // ---------- printing an answer ----------

  datatype Extension = Extension(kind: nat, data: seq<Byte>)

  // An answer: two bytes of the handshake length, the random value, the extensions, the encrypted records.
  datatype Flight = Flight(length: seq<Byte>, random: seq<Byte>, extensions: seq<Extension>, records: seq<seq<Byte>>)

  predicate ExtensionOk(e: Extension) {
    e.kind < 0x1_0000 && |e.data| < 0x1_0000
  }

  function PrintExtensions(es: seq<Extension>): seq<Byte>
    requires forall i | 0 <= i < |es| :: ExtensionOk(es[i])
  {
    if es == [] then [] else assert ExtensionOk(es[0]); LengthBytes(es[0].kind) + LengthBytes(|es[0].data|) + es[0].data + PrintExtensions(es[1..])
  }

  predicate RecordOk(r: seq<Byte>) {
    0 < |r| < 0x1_0000
  }

  function PrintRecords(rs: seq<seq<Byte>>): seq<Byte>
    requires forall i | 0 <= i < |rs| :: RecordOk(rs[i])
  {
    if rs == [] then [] else assert RecordOk(rs[0]); APPLICATION_DATA + LengthBytes(|rs[0]|) + rs[0] + PrintRecords(rs[1..])
  }

  ghost predicate FlightOk(f: Flight) {
    && |f.length| == 2 && |f.random| == 32 && f.random != RETRY_RANDOM
    && (forall i | 0 <= i < |f.extensions| :: ExtensionOk(f.extensions[i]))
    && |PrintExtensions(f.extensions)| + 76 < 0x1_0000
    && (forall i | 0 <= i < |f.records| :: RecordOk(f.records[i]))
  }

  // The handshake message, with the session id mirrored and the expected cipher.
  ghost function PrintHello(f: Flight, sessionId: seq<Byte>): (h: seq<Byte>)
    requires FlightOk(f) && |sessionId| == 32
    ensures |h| == 76 + |PrintExtensions(f.extensions)|
  {
    var e := PrintExtensions(f.extensions);
    [0x02, 0x00] + f.length + [0x03, 0x03] + f.random + [0x20] + sessionId + [0x13, 0x01, 0x00] + LengthBytes(|e|) + e
  }

  ghost function Print(f: Flight, sessionId: seq<Byte>): seq<Byte>
    requires FlightOk(f) && |sessionId| == 32
  {
    var h := PrintHello(f, sessionId);
    HANDSHAKE + LengthBytes(|h|) + h + CHANGE_CIPHER_SPEC + PrintRecords(f.records)
  }

  function Kinds(es: seq<Extension>): (kinds: seq<nat>)
    ensures |kinds| == |es|
  {
    seq(|es|, i requires 0 <= i < |es| => es[i].kind)
  }

  function Sizes(rs: seq<seq<Byte>>): (sizes: seq<nat>)
    ensures |sizes| == |rs|
  {
    seq(|rs|, i requires 0 <= i < |rs| => |rs[i]|)
  }

  // An extension without data at the end of the list is not read.
  predicate LastIsEmpty(es: seq<Extension>) {
    es != [] && es[|es| - 1].data == []
  }

  lemma {:induction false} ExtensionsBack(es: seq<Extension>)
    requires forall i | 0 <= i < |es| :: ExtensionOk(es[i])
    ensures ParseExtensions(PrintExtensions(es)) ==
            if LastIsEmpty(es) then HelloBad(WrongExtensionsList) else HelloOk(Kinds(es))
  {
    hide ParseExtensions, Length, LengthBytes, PrintExtensions;
    var b := PrintExtensions(es);
    JoinedEmpty(ParseExtensions(b));
    FirstPrinted(es);
    if |b| <= 4 {
      ExtensionsEnd(b, []);
      if es != [] { PrintedIsLong(es[1..]); }
    } else {
      ExtensionStep(b, []);
      ExtensionsBack(es[1..]);
      FirstPrinted(es[1..]);
      KindsStep(es);
    }
  }

  lemma KindsStep(es: seq<Extension>)
    requires es != []
    ensures Joined([] + [es[0].kind], HelloOk(Kinds(es[1..]))) == HelloOk(Kinds(es))
  {
    assert [es[0].kind] + Kinds(es[1..]) == Kinds(es);
    assert [] + [es[0].kind] == [es[0].kind];
  }

  lemma FirstPrinted(es: seq<Extension>)
    requires forall i | 0 <= i < |es| :: ExtensionOk(es[i])
    ensures var b := PrintExtensions(es);
            && (es == [] ==> b == [])
            && (es != [] ==>
                && |b| == 4 + |es[0].data| + |PrintExtensions(es[1..])|
                && Length(b[0], b[1]) == es[0].kind && Length(b[2], b[3]) == |es[0].data|
                && b[4 + |es[0].data|..] == PrintExtensions(es[1..]))
  {
    if es != [] { assert ExtensionOk(es[0]); }
  }

  lemma PrintedIsLong(es: seq<Extension>)
    requires forall i | 0 <= i < |es| :: ExtensionOk(es[i])
    ensures es != [] ==> |PrintExtensions(es)| >= 4
  {
  }

  lemma {:induction false} RecordsBack(rs: seq<seq<Byte>>, extensions: seq<nat>)
    requires forall i | 0 <= i < |rs| :: RecordOk(rs[i])
    ensures ParseRecords(PrintRecords(rs), extensions) == Complete(extensions, Sizes(rs))
  {
    if rs != [] {
      var b, n := PrintRecords(rs), |rs[0]|;
      assert b[..3] == APPLICATION_DATA && b[3] == LengthBytes(n)[0] && b[4] == LengthBytes(n)[1];
      assert b[5 + n..] == PrintRecords(rs[1..]);
      RecordStep(b, n, extensions);
      RecordsBack(rs[1..], extensions);
      assert [n] + Sizes(rs[1..]) == Sizes(rs);
    }
  }

  lemma HelloBack(f: Flight, sessionId: seq<Byte>)
    requires FlightOk(f) && |sessionId| == 32
    ensures ParseHello(PrintHello(f, sessionId), sessionId) ==
            if LastIsEmpty(f.extensions) then HelloBad(WrongExtensionsList) else HelloOk(Kinds(f.extensions))
  {
    hide ParseExtensions, PrintExtensions;
    var h, e := PrintHello(f, sessionId), PrintExtensions(f.extensions);
    assert h[..2] == [0x02, 0x00] && h[4..6] == [0x03, 0x03];
    assert forall i | 0 <= i < 32 :: h[6..38][i] == f.random[i];
    assert h[6..38] == f.random && h[38] == 0x20;
    assert forall i | 0 <= i < 32 :: h[39..71][i] == sessionId[i];
    assert h[39..71] == sessionId && h[71..74] == [0x13, 0x01, 0x00];
    assert h[74] == LengthBytes(|e|)[0] && h[75] == LengthBytes(|e|)[1] && h[76..] == e;
    ExtensionsBack(f.extensions);
  }

  // Parsing a printed answer gives its extension types and record lengths back, exactly when the list of
  // extensions does not end in an extension without data.
  lemma PrintedComesBack(f: Flight, sessionId: seq<Byte>)
    requires FlightOk(f) && |sessionId| == 32
    ensures Parse(Print(f, sessionId), sessionId) ==
            if LastIsEmpty(f.extensions) then Fail(WrongExtensionsList) else Complete(Kinds(f.extensions), Sizes(f.records))
  {
    hide ParseHello, PrintExtensions, PrintHello, ParseRecords, PrintRecords;
    var h, r, b := PrintHello(f, sessionId), PrintRecords(f.records), Print(f, sessionId);
    var n := |h|;
    assert b[..3] == HANDSHAKE && b[3] == LengthBytes(n)[0] && b[4] == LengthBytes(n)[1];
    assert b[5..5 + n] == h;
    assert b[5 + n..] == CHANGE_CIPHER_SPEC + r;
    assert (CHANGE_CIPHER_SPEC + r)[..6] == CHANGE_CIPHER_SPEC && (CHANGE_CIPHER_SPEC + r)[6..] == r;
    HelloBack(f, sessionId);
    RecordsBack(f.records, Kinds(f.extensions));
  }

  // Any answer is refused once an extension without data is added at the end of its list.
  lemma EmptyExtensionAdded(f: Flight, sessionId: seq<Byte>, kind: nat)
    requires FlightOk(f) && |sessionId| == 32 && kind < 0x1_0000
    requires |PrintExtensions(f.extensions)| + 80 < 0x1_0000
    ensures var g := f.(extensions := f.extensions + [Extension(kind, [])]);
            FlightOk(g) && Parse(Print(g, sessionId), sessionId) == Fail(WrongExtensionsList)
  {
    hide Parse, Print, PrintExtensions;
    var e := Extension(kind, []);
    var g := f.(extensions := f.extensions + [e]);
    assert forall i | 0 <= i < |g.extensions| :: ExtensionOk(g.extensions[i]);
    AddedLength(f.extensions, e);
    PrintedComesBack(g, sessionId);
  }

  lemma {:induction false} AddedLength(es: seq<Extension>, e: Extension)
    requires forall i | 0 <= i < |es + [e]| :: ExtensionOk((es + [e])[i])
    ensures forall i | 0 <= i < |es| :: ExtensionOk(es[i])
    ensures |PrintExtensions(es + [e])| == |PrintExtensions(es)| + 4 + |e.data|
  {
    assert forall i | 0 <= i < |es| :: (es + [e])[i] == es[i];
    if es == [] {
      assert (es + [e])[1..] == [];
    } else {
      assert (es + [e])[1..] == es[1..] + [e];
      assert forall i | 0 <= i < |es[1..] + [e]| :: (es[1..] + [e])[i] == (es + [e])[i + 1];
      AddedLength(es[1..], e);
    }
  }

  // ---------- a printed answer in chunks ----------

  // The number of bytes of complete records with these lengths.
  function Span(lengths: seq<nat>): nat {
    if lengths == [] then 0 else 5 + lengths[0] + Span(lengths[1..])
  }

  lemma {:induction false} CompleteSpan(b: seq<Byte>, extensions: seq<nat>, lengths: seq<nat>)
    requires ParseRecords(b, extensions) == Complete(extensions, lengths)
    ensures |b| == Span(lengths)
  {
    hide ParseRecords;
    CompleteBegins(b, extensions, lengths);
    if b != [] { CompleteSpan(b[5 + lengths[0]..], extensions, lengths[1..]); }
  }

  lemma CompleteEndsAtRecord(b: seq<Byte>, sessionId: seq<Byte>)
    requires Parse(b, sessionId).Complete?
    ensures |b| >= 5 && |b| == 11 + Length(b[3], b[4]) + Span(Parse(b, sessionId).lengths)
  {
    hide ParseHello, ParseRecords;
    var n := Length(b[3], b[4]);
    var x := ParseHello(b[5..5 + n], sessionId).extensions;
    RecordsKeepExtensions(b[5 + n..][6..], x);
    CompleteSpan(b[5 + n..][6..], x, Parse(b, sessionId).lengths);
  }

  // No read but the last ends right before a record.
  ghost predicate NoEarlyCut(chunks: seq<seq<Byte>>, f: Flight, sessionId: seq<Byte>)
    requires FlightOk(f) && |sessionId| == 32
  {
    forall k, j | 0 <= k < |chunks| && 0 <= j < |f.records| ::
      |Concat(chunks[..k])| != 11 + |PrintHello(f, sessionId)| + Span(Sizes(f.records)[..j])
  }

  // However a printed answer is cut into reads, the extension types come back and the record lengths found are the
  // first ones; they are all there if no earlier read ended right before a record.
  lemma ChunksComeBack(f: Flight, sessionId: seq<Byte>, chunks: seq<seq<Byte>>, read: nat)
    requires FlightOk(f) && |sessionId| == 32 && !LastIsEmpty(f.extensions) && Concat(chunks) == Print(f, sessionId)
    requires read <= |chunks|
    requires var o := Parse(Concat(chunks[..read]), sessionId); o.NeedMore? ==> read == |chunks|
    ensures var o := Parse(Concat(chunks[..read]), sessionId);
            && o.Complete? && o.extensions == Kinds(f.extensions) && o.lengths <= Sizes(f.records)
            && (NoEarlyCut(chunks, f, sessionId) ==> o.lengths == Sizes(f.records))
  {
    hide Parse, FlightOk, Print, PrintHello;
    var b := Concat(chunks[..read]);
    var rest := ConcatSplit(chunks, read);
    PrintedComesBack(f, sessionId);
    MoreBytes(b, rest, sessionId);
    var o := Parse(b, sessionId);
    if read == |chunks| {
      assert chunks[..read] == chunks;
    } else {
      CompleteEndsAtRecord(b, sessionId);
      PrintedLength(f, sessionId);
      assert b[3] == (b + rest)[3] && b[4] == (b + rest)[4];
      var j := |o.lengths|;
      assert o.lengths == Sizes(f.records)[..j];
      assert |Concat(chunks[..read])| == 11 + |PrintHello(f, sessionId)| + Span(Sizes(f.records)[..j]);
    }
  }

  lemma {:induction false} PrintRecordsSplit(rs: seq<seq<Byte>>, j: nat)
    requires j <= |rs| && forall i | 0 <= i < |rs| :: RecordOk(rs[i])
    ensures forall i | 0 <= i < j :: RecordOk(rs[..j][i])
    ensures PrintRecords(rs[..j]) <= PrintRecords(rs) && |PrintRecords(rs[..j])| == Span(Sizes(rs)[..j])
  {
    if j > 0 {
      PrintRecordsSplit(rs[1..], j - 1);
      assert rs[..j][1..] == rs[1..][..j - 1] && rs[..j][0] == rs[0];
      assert Sizes(rs)[..j][1..] == Sizes(rs[1..])[..j - 1];
    } else {
      assert rs[..j] == [] && Sizes(rs)[..j] == [];
    }
  }

  // The bytes before record j are a printed answer with the first j records.
  lemma PrintedPrefix(f: Flight, sessionId: seq<Byte>, j: nat)
    requires FlightOk(f) && |sessionId| == 32 && j <= |f.records|
    ensures var g := f.(records := f.records[..j]);
            && FlightOk(g) && Print(g, sessionId) <= Print(f, sessionId)
            && |Print(g, sessionId)| == 11 + |PrintHello(f, sessionId)| + Span(Sizes(f.records)[..j])
  {
    hide PrintRecords, PrintExtensions;
    PrintRecordsSplit(f.records, j);
    var g := f.(records := f.records[..j]);
    assert PrintHello(g, sessionId) == PrintHello(f, sessionId);
    var h := PrintHello(f, sessionId);
    var front := HANDSHAKE + LengthBytes(|h|) + h + CHANGE_CIPHER_SPEC;
    assert Print(f, sessionId) == front + PrintRecords(f.records) && Print(g, sessionId) == front + PrintRecords(g.records);
  }

  lemma {:induction false} SpanGrows(lengths: seq<nat>, j: nat)
    requires j < |lengths|
    ensures Span(lengths[..j]) < Span(lengths)
  {
    if j > 0 {
      SpanGrows(lengths[1..], j - 1);
      assert lengths[..j][1..] == lengths[1..][..j - 1];
    }
  }

  // A read that ends right before a record ends the reading, so the lengths of the records after it are missing.
  lemma EarlyCut(f: Flight, sessionId: seq<Byte>, chunks: seq<seq<Byte>>, read: nat, k: nat, j: nat)
    requires FlightOk(f) && |sessionId| == 32 && !LastIsEmpty(f.extensions) && Concat(chunks) == Print(f, sessionId)
    requires read <= |chunks| && Parse(Concat(chunks[..read]), sessionId).Complete?
    requires forall i | 0 <= i < read :: Parse(Concat(chunks[..i]), sessionId).NeedMore?
    requires k < |chunks| && j < |f.records|
    requires |Concat(chunks[..k])| == 11 + |PrintHello(f, sessionId)| + Span(Sizes(f.records)[..j])
    ensures Parse(Concat(chunks[..read]), sessionId).lengths != Sizes(f.records)
  {
    hide Parse, FlightOk, Print, PrintHello;
    var b, bk := Concat(chunks[..read]), Concat(chunks[..k]);
    var g := f.(records := f.records[..j]);
    PrintedPrefix(f, sessionId, j);
    var rest := ConcatSplit(chunks, k);
    assert bk == (bk + rest)[..|bk|] == Print(g, sessionId);
    PrintedComesBack(g, sessionId);
    assert read <= k;
    var more := ConcatSplit(chunks[..k], read);
    assert chunks[..k][..read] == chunks[..read];
    var all := ConcatSplit(chunks, read);
    CompleteEndsAtRecord(b, sessionId);
    PrintedLength(f, sessionId);
    assert b[3] == (b + all)[3] && b[4] == (b + all)[4];
    SpanGrows(Sizes(f.records), j);
  }

  // Reading a printed answer, however it is cut into reads, finds its extension types and its first record lengths: all
  // of them exactly if no read but the last ends right before a record.
  method ReadPrinted(ghost f: Flight, sessionId: seq<Byte>, chunks: seq<seq<Byte>>) returns (o: Outcome)
    requires FlightOk(f) && |sessionId| == 32 && !LastIsEmpty(f.extensions) && Concat(chunks) == Print(f, sessionId)
    ensures o.Complete? && o.extensions == Kinds(f.extensions) && o.lengths <= Sizes(f.records)
    ensures o.lengths == Sizes(f.records) <==> NoEarlyCut(chunks, f, sessionId)
  {
    hide Parse, FlightOk, Print, PrintHello, Span;
    var read;
    o, read := ReadAll(sessionId, chunks);
    ChunksComeBack(f, sessionId, chunks, read);
    if !NoEarlyCut(chunks, f, sessionId) {
      ghost var k, j :| 0 <= k < |chunks| && 0 <= j < |f.records|
        && |Concat(chunks[..k])| == 11 + |PrintHello(f, sessionId)| + Span(Sizes(f.records)[..j]);
      EarlyCut(f, sessionId, chunks, read, k, j);
    }
  }

  lemma PrintedLength(f: Flight, sessionId: seq<Byte>)
    requires FlightOk(f) && |sessionId| == 32
    ensures var b := Print(f, sessionId); |b| >= 5 && Length(b[3], b[4]) == |PrintHello(f, sessionId)|
  {
    hide PrintHello;
    var n, b := |PrintHello(f, sessionId)|, Print(f, sessionId);
    assert b[3] == LengthBytes(n)[0] && b[4] == LengthBytes(n)[1];
  }
}
