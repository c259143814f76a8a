/** The incremental parser of the TLS probe (check_tls.cpp, lines 151-261). It keeps its place only as a position
    and two lengths; what it returns after each read is what the reference parser says about all bytes so far. */
module TlsProbe {
  import opened Basics
  import opened TlsResponse

  // ---------- where the parser is ----------

  // The first record was read and accepted.
  ghost predicate HelloRead(b: seq<Byte>, n: nat, extensions: seq<nat>, sessionId: seq<Byte>) {
    && n >= 40 && |b| >= 5 + n && b[..3] == HANDSHAKE && Length(b[3], b[4]) == n
    && ParseHello(b[5..5 + n], sessionId) == HelloOk(extensions)
  }

  // So was ChangeCipherSpec, and the bytes up to k are complete records.
  ghost predicate RecordsRead(b: seq<Byte>, n: nat, extensions: seq<nat>, lengths: seq<nat>, k: nat, sessionId: seq<Byte>) {
    && HelloRead(b, n, extensions, sessionId)
    && 11 + n <= k <= |b| && b[5 + n..11 + n] == CHANGE_CIPHER_SPEC
    && ParseRecords(b[11 + n..k], extensions) == Complete(extensions, lengths)
  }

  datatype Place = Place(pos: nat, helloLength: nat, sum: nat, extensions: seq<nat>, lengths: seq<nat>)

  ghost predicate AtStart(b: seq<Byte>, p: Place) {
    p == Place(0, 0, 0, [], [])
  }

  ghost predicate AtLength(b: seq<Byte>, p: Place) {
    p == Place(3, 0, 0, [], []) && |b| >= 3 && b[..3] == HANDSHAKE
  }

  ghost predicate AtHello(b: seq<Byte>, p: Place) {
    && p == Place(5, p.helloLength, 0, [], []) && p.helloLength >= 40
    && |b| >= 5 && b[..3] == HANDSHAKE && Length(b[3], b[4]) == p.helloLength
  }

  ghost predicate AtCipherSpec(b: seq<Byte>, p: Place, sessionId: seq<Byte>) {
    && p == Place(5 + p.helloLength, p.helloLength, 0, p.extensions, [])
    && HelloRead(b, p.helloLength, p.extensions, sessionId)
  }

  ghost predicate AtRecord(b: seq<Byte>, p: Place, sessionId: seq<Byte>) {
    && p.pos == 11 + p.helloLength + p.sum
    && RecordsRead(b, p.helloLength, p.extensions, p.lengths, p.pos, sessionId)
  }

  ghost predicate AtRecordLength(b: seq<Byte>, p: Place, sessionId: seq<Byte>) {
    && p.pos == 14 + p.helloLength + p.sum && p.pos <= |b|
    && RecordsRead(b, p.helloLength, p.extensions, p.lengths, p.pos - 3, sessionId)
    && b[p.pos - 3..p.pos] == APPLICATION_DATA
  }

  ghost predicate AtRecordBody(b: seq<Byte>, p: Place, sessionId: seq<Byte>) {
    && p.pos == 16 + p.helloLength + p.sum && p.pos <= |b| && p.lengths != []
    && var last := |p.lengths| - 1;
       && RecordsRead(b, p.helloLength, p.extensions, p.lengths[..last], p.pos - 5, sessionId)
       && b[p.pos - 5..p.pos - 2] == APPLICATION_DATA && Length(b[p.pos - 2], b[p.pos - 1]) == p.lengths[last] > 0
  }

  // One of the places the parser stops at to wait for more.
  ghost predicate Inv(b: seq<Byte>, p: Place, sessionId: seq<Byte>) {
    || AtStart(b, p) || AtLength(b, p) || AtHello(b, p) || AtCipherSpec(b, p, sessionId)
    || AtRecord(b, p, sessionId) || AtRecordLength(b, p, sessionId) || AtRecordBody(b, p, sessionId)
  }

  // Where the parser is depends only on bytes it has passed.
  lemma InvStays(b: seq<Byte>, c: seq<Byte>, p: Place, sessionId: seq<Byte>)
    requires Inv(b, p, sessionId)
    ensures Inv(b + c, p, sessionId)
  {
    hide ParseHello, ParseRecords;
    var bc := b + c;
    assert |b| >= 3 ==> bc[..3] == b[..3];
    if p.helloLength >= 40 && |b| >= 5 + p.helloLength {
      assert bc[5..5 + p.helloLength] == b[5..5 + p.helloLength];
      if |b| >= 11 + p.helloLength {
        assert bc[5 + p.helloLength..11 + p.helloLength] == b[5 + p.helloLength..11 + p.helloLength];
        RecordsStay(b, c, p);
      }
    }
  }

  lemma RecordsStay(b: seq<Byte>, c: seq<Byte>, p: Place)
    ensures forall j, k | 0 <= j <= k <= |b| :: (b + c)[j..k] == b[j..k]
  {
  }

  // ---------- what the reference parser makes of it ----------

  lemma ParseFromCipherSpec(b: seq<Byte>, n: nat, extensions: seq<nat>, sessionId: seq<Byte>)
    requires HelloRead(b, n, extensions, sessionId)
    ensures Parse(b, sessionId) == ParseRest(b[5 + n..], extensions)
  {
    hide ParseHello, ParseRest;
  }

  lemma ParseFromRecord(b: seq<Byte>, n: nat, extensions: seq<nat>, lengths: seq<nat>, k: nat, sessionId: seq<Byte>)
    requires RecordsRead(b, n, extensions, lengths, k, sessionId)
    ensures Parse(b, sessionId) == Prepend(lengths, ParseRecords(b[k..], extensions))
  {
    hide ParseHello, ParseRecords, HelloRead;
    HelloFits(b, n, extensions, sessionId);
    ParseFromCipherSpec(b, n, extensions, sessionId);
    var rest := b[5 + n..];
    assert rest[..6] == b[5 + n..11 + n];
    assert rest[6..] == b[11 + n..k] + b[k..];
    RecordsSplit(b[11 + n..k], b[k..], extensions, lengths);
  }

  lemma HelloFits(b: seq<Byte>, n: nat, extensions: seq<nat>, sessionId: seq<Byte>)
    requires HelloRead(b, n, extensions, sessionId)
    ensures n >= 40 && |b| >= 5 + n
  {
  }

  // A whole record more.
  lemma RecordRead(b: seq<Byte>, p: Place, sessionId: seq<Byte>)
    requires AtRecordBody(b, p, sessionId) && p.pos + p.lengths[|p.lengths| - 1] <= |b|
    ensures var n := p.lengths[|p.lengths| - 1];
            AtRecord(b, p.(pos := p.pos + n, sum := p.sum + n + 5), sessionId)
  {
    hide ParseHello, ParseRecords, HelloRead;
    var last := |p.lengths| - 1;
    var n, k, h, x := p.lengths[last], p.pos - 5, p.helloLength, p.extensions;
    HelloFits(b, h, x, sessionId);
    var before, one := b[11 + h..k], b[k..k + 5 + n];
    assert one[..3] == b[k..k + 3];
    OneRecord(one, n, x);
    RecordsSplit(before, one, x, p.lengths[..last]);
    assert b[11 + h..k + 5 + n] == before + one;
    assert p.lengths[..last] + [n] == p.lengths;
  }

  lemma OneRecord(b: seq<Byte>, n: nat, extensions: seq<nat>)
    requires BeginsWithRecord(b, n) && |b| == 5 + n
    ensures ParseRecords(b, extensions) == Complete(extensions, [n])
  {
    RecordStep(b, n, extensions);
    assert b[5 + n..] == [];
  }

  function Joined(xs: seq<nat>, h: Hello): Hello {
    match h
    case HelloOk(rest) => HelloOk(xs + rest)
    case HelloBad(e) => HelloBad(e)
  }

  // ---------- the parser ----------

  // How a part of the loop body ends: it goes on, breaks to wait for more bytes, or returns an error.
  datatype Step = Go | Wait | Bad(error: Error)

  class Probe {
    const sessionId: seq<Byte>
    var result: seq<Byte>
    var pos: nat
    var serverHelloLength: nat
    var sum: nat
    var extensionList: seq<nat>
    var lengths: seq<nat>

    ghost function Here(): Place
      reads this
    {
      Place(pos, serverHelloLength, sum, extensionList, lengths)
    }

    ghost predicate Valid()
      reads this
    {
      |sessionId| == 32 && Inv(result, Here(), sessionId)
    }

    constructor (sessionId: seq<Byte>)
      requires |sessionId| == 32
      ensures Valid() && this.sessionId == sessionId && result == [] && Here() == Place(0, 0, 0, [], [])
    {
      this.sessionId := sessionId;
      result, pos, serverHelloLength, sum, extensionList, lengths := [], 0, 0, 0, [], [];
    }

    // read_length: its CHECK never fires.
    method ReadLength() returns (n: nat)
      requires |result| >= 2 + pos
      modifies `pos
      ensures pos == old(pos) + 2 && n == Length(result[pos - 2], result[pos - 1])
    {
      pos := pos + 2;
      n := Length(result[pos - 2], result[pos - 1]);
    }

    // Lines 178-189
    method Header() returns (r: Step)
      requires Valid()
      modifies `pos, `serverHelloLength
      ensures r.Go? ==> Valid() && serverHelloLength >= 40
      ensures r.Go? && old(Here()).pos >= 5 ==> Here() == old(Here())
      ensures r.Go? && old(Here()).pos < 5 ==> AtHello(result, Here())
      ensures r.Wait? ==> Valid() && Parse(result, sessionId) == NeedMore(extensionList, lengths)
      ensures r.Bad? ==> Parse(result, sessionId) == Fail(r.error)
    {
      hide ParseHello, ParseRecords, ParseRest;
      if pos == 0 {
        if pos + 3 > |result| {
          return Wait;
        }
        if result[..3] != HANDSHAKE {
          return Bad(NonTls);
        }
        pos := pos + 3;
      }
      if pos == 3 {
        assert AtLength(result, Here());
        if pos + 2 > |result| {
          return Wait;
        }
        serverHelloLength := ReadLength();
        if serverHelloLength <= 39 {
          return Bad(ShortHello);
        }
        assert AtHello(result, Here());
      }
      r := Go;
    }

    // Lines 194-227: the message is in the buffer; the parser moves past it or reports what is wrong with it.
    method Hello() returns (error: Option<Error>)
      requires |sessionId| == 32 && AtHello(result, Here()) && 5 + serverHelloLength <= |result|
      modifies `pos, `extensionList
      ensures match ParseHello(result[5..5 + serverHelloLength], sessionId)
              case HelloBad(e) => error == Some(e)
              case HelloOk(x) => error == None && extensionList == x && pos == 5 + serverHelloLength
    {
      hide ParseExtensions, Length;
      ghost var h := result[5..5 + serverHelloLength];
      HelloSlices(result, serverHelloLength);
      if result[5..7] != [0x02, 0x00] {
        return Some(NonTls2);
      }
      if result[9..11] != [0x03, 0x03] {
        return Some(NonTls3);
      }
      if result[11..43] == RETRY_RANDOM {
        return Some(HelloRetryRequest);
      }
      if result[43] == 0x00 {
        return Some(EmptySessionId);
      }
      if result[43] != 0x20 {
        return Some(NonTls4);
      }
      if serverHelloLength <= 75 {
        return Some(ShortHello2);
      }
      if result[44..76] != sessionId {
        return Some(OtherSessionId);
      }
      if result[76..79] != [0x13, 0x01, 0x00] {
        return Some(OtherCipher);
      }
      pos := pos + 74;
      var extensionsLength := ReadLength();
      if extensionsLength + 76 != serverHelloLength {
        return Some(WrongExtensionsLength);
      }
      error := Extensions();
    }

    // Lines 217-227
    method Extensions() returns (error: Option<Error>)
      requires pos == 81 <= 5 + serverHelloLength <= |result| && extensionList == []
      modifies `pos, `extensionList
      ensures match ParseExtensions(result[81..5 + serverHelloLength])
              case HelloBad(e) => error == Some(e)
              case HelloOk(x) => error == None && extensionList == x && pos == 5 + serverHelloLength
    {
      hide ParseExtensions, Joined, Length;
      var end := 5 + serverHelloLength;
      ghost var all := ParseExtensions(result[81..end]);
      JoinedEmpty(all);
      while pos < end - 4
        invariant 81 <= pos <= end
        invariant Joined(extensionList, ParseExtensions(result[pos..end])) == all
      {
        ghost var left, was := result[pos..end], extensionList;
        ExtensionStep(left, was);
        var extension := ReadLength();
        extensionList := extensionList + [extension];
        var extensionLength := ReadLength();
        if pos + extensionLength > end {
          return Some(WrongExtensionLength);
        }
        pos := pos + extensionLength;
        assert left[4 + extensionLength..] == result[pos..end];
      }
      ExtensionsEnd(result[pos..end], extensionList);
      if pos != end {
        return Some(WrongExtensionsList);
      }
      error := None;
    }

    // Lines 190-228
    method HelloPart() returns (r: Step)
      requires Valid() && serverHelloLength >= 40
      modifies `pos, `extensionList
      ensures r.Go? ==> Valid() && (if old(pos) == 5 then AtCipherSpec(result, Here(), sessionId) else Here() == old(Here()))
      ensures r.Wait? ==> Valid() && Parse(result, sessionId) == NeedMore(extensionList, lengths)
      ensures r.Bad? ==> Parse(result, sessionId) == Fail(r.error)
    {
      hide ParseHello, ParseRecords, ParseRest, RecordsRead;
      if pos == 5 {
        assert AtHello(result, Here());
        if pos + serverHelloLength > |result| {
          return Wait;
        }
        var error := Hello();
        if error.Some? {
          return Bad(error.value);
        }
        assert AtCipherSpec(result, Here(), sessionId);
      }
      r := Go;
    }

    // Lines 229-233
    method CipherSpecPart() returns (r: Step)
      requires Valid() && serverHelloLength >= 40 && pos != 5
      modifies `pos
      ensures r.Go? ==> Valid() && (if old(pos) == 5 + serverHelloLength then AtRecord(result, Here(), sessionId) else Here() == old(Here()))
      ensures r.Wait? ==> Valid() && Parse(result, sessionId) == NeedMore(extensionList, lengths)
      ensures r.Bad? ==> Parse(result, sessionId) == Fail(r.error)
    {
      hide ParseHello, ParseRecords, RecordsRead, HelloRead;
      if pos == 5 + serverHelloLength {
        ghost var n, x := serverHelloLength, extensionList;
        OnlyCipherSpec(result, Here(), sessionId);
        HelloFits(result, n, x, sessionId);
        ParseFromCipherSpec(result, n, x, sessionId);
        assert |result| >= 11 + n ==> result[5 + n..][..6] == result[5 + n..11 + n];
        if pos + 6 > |result| {
          return Wait;
        }
        if result[pos..pos + 6] != CHANGE_CIPHER_SPEC {
          return Bad(NoChangeCipherSpec);
        }
        pos := pos + 6;
        NoRecordsYet(result, n, x, sessionId);
      }
      r := Go;
    }

    // Lines 234-255: up to one record. Done says that the bytes end right before it.
    method RecordPart() returns (r: Step, done: bool)
      requires Valid() && pos > 5 + serverHelloLength >= 45
      modifies `pos, `sum, `lengths
      ensures r.Go? ==> Valid() && pos >= old(pos)
      ensures r.Go? && !done ==> AtRecord(result, Here(), sessionId) && pos > old(pos)
      ensures r.Go? && done ==> Parse(result, sessionId) == Complete(extensionList, lengths)
      ensures r.Wait? ==> Valid() && Parse(result, sessionId) == NeedMore(extensionList, lengths)
      ensures r.Bad? ==> Parse(result, sessionId) == Fail(r.error)
    {
      hide ParseHello, HelloRead, RecordsRead, Parse;
      ghost var n, x := serverHelloLength, extensionList;
      done := false;
      if pos == 11 + serverHelloLength + sum {
        OnlyRecord(result, Here(), sessionId);
        ParseFromRecord(result, n, x, lengths, pos, sessionId);
        if pos == |result| {
          EndOfRecords(result[pos..], x, lengths);
          return Go, true;
        }
        ShortRecord(result[pos..], x, lengths);
        if pos + 3 > |result| {
          return Wait, false;
        }
        assert result[pos..][..3] == result[pos..pos + 3];
        if result[pos..pos + 3] != APPLICATION_DATA {
          return Bad(NoApplicationData), false;
        }
        pos := pos + 3;
        assert AtRecordLength(result, Here(), sessionId);
      }
      r := RecordBody();
    }

    // Lines 243-255
    method RecordBody() returns (r: Step)
      requires |sessionId| == 32 && serverHelloLength >= 40
      requires AtRecordLength(result, Here(), sessionId) || AtRecordBody(result, Here(), sessionId)
      modifies `pos, `sum, `lengths
      ensures r.Go? ==> AtRecord(result, Here(), sessionId) && pos > old(pos)
      ensures r.Wait? ==> Valid() && Parse(result, sessionId) == NeedMore(extensionList, lengths)
      ensures r.Bad? ==> Parse(result, sessionId) == Fail(r.error)
    {
      hide ParseHello, HelloRead, RecordsRead, Parse, ParseRecords;
      if pos == 14 + serverHelloLength + sum {
        ghost var start := pos - 3;
        ParseFromRecord(result, serverHelloLength, extensionList, lengths, start, sessionId);
        ghost var b := result[start..];
        assert b[..3] == result[start..pos];
        ShortRecord(b, extensionList, lengths);
        if pos + 2 > |result| {
          return Wait;
        }
        var n := ReadLength();
        lengths := lengths + [n];
        assert b[3] == result[pos - 2] && b[4] == result[pos - 1];
        if n == 0 {
          return Bad(EmptyApplicationData);
        }
        assert lengths[..|lengths| - 1] == old(lengths);
        assert AtRecordBody(result, Here(), sessionId);
      }
      if pos == 16 + serverHelloLength + sum {
        var n := lengths[|lengths| - 1];
        if pos + n > |result| {
          BodyMissing(result, Here(), sessionId);
          return Wait;
        }
        RecordRead(result, Here(), sessionId);
        pos := pos + n;
        sum := sum + n + 5;
      }
      r := Go;
    }

    // Lines 167-257: what one read of the socket leads to is what the reference parser says of all bytes so far.
    method Receive(buf: seq<Byte>) returns (o: Outcome)
      requires Valid()
      modifies this
      ensures result == old(result) + buf
      ensures o == Parse(result, sessionId)
      ensures o.NeedMore? ==> Valid() && o == NeedMore(extensionList, lengths)
    {
      hide Parse, Inv;
      InvStays(result, buf, Here(), sessionId);
      result := result + buf;
      while true
        invariant Valid() && result == old(result) + buf
        decreases |result| - pos
      {
        ghost var before := pos;
        var r := Header();
        if r.Go? {
          r := HelloPart();
        }
        if r.Go? {
          PlaceAfterHello(result, Here(), sessionId);
          r := CipherSpecPart();
        }
        var done := false;
        if r.Go? {
          PlaceAfterHello(result, Here(), sessionId);
          r, done := RecordPart();
        }
        if r.Bad? {
          return Fail(r.error);
        }
        if r.Wait? {
          return NeedMore(extensionList, lengths);
        }
        if done {
          return Complete(extensionList, lengths);
        }
      }
    }
  }

  lemma BodyMissing(b: seq<Byte>, p: Place, sessionId: seq<Byte>)
    requires AtRecordBody(b, p, sessionId) && p.pos + p.lengths[|p.lengths| - 1] > |b|
    ensures Parse(b, sessionId) == NeedMore(p.extensions, p.lengths)
  {
    hide ParseHello, HelloRead, RecordsRead, Parse, ParseRecords;
    var last, start := |p.lengths| - 1, p.pos - 5;
    ParseFromRecord(b, p.helloLength, p.extensions, p.lengths[..last], start, sessionId);
    assert b[start..][..3] == b[start..start + 3];
    assert b[start..][3] == b[p.pos - 2] && b[start..][4] == b[p.pos - 1];
    ShortRecord(b[start..], p.extensions, p.lengths[..last]);
    assert p.lengths[..last] + [p.lengths[last]] == p.lengths;
  }

  // Past the first record, the parser is at ChangeCipherSpec or at one of the three places in a record.
  lemma PlaceAfterHello(b: seq<Byte>, p: Place, sessionId: seq<Byte>)
    requires Inv(b, p, sessionId) && p.helloLength >= 40 && p.pos != 5
    ensures 5 + p.helloLength <= p.pos <= |b|
    ensures p.pos > 5 + p.helloLength ==> AtRecord(b, p, sessionId) || AtRecordLength(b, p, sessionId) || AtRecordBody(b, p, sessionId)
  {
    hide ParseHello, ParseRecords;
  }

  // The parts of the message, by their place in it and in the buffer.
  lemma HelloSlices(b: seq<Byte>, n: nat)
    requires n >= 40 && |b| >= 5 + n
    ensures var h := b[5..5 + n];
            && h[..2] == b[5..7] && h[4..6] == b[9..11] && h[6..38] == b[11..43] && h[38] == b[43]
            && (n > 75 ==>
                && h[39..71] == b[44..76] && h[71..74] == b[76..79] && h[74] == b[79] && h[75] == b[80]
                && h[76..] == b[81..5 + n])
  {
    Slices(b, 5, 5 + n, 0, 2);
    Slices(b, 5, 5 + n, 4, 6);
    Slices(b, 5, 5 + n, 6, 38);
    if n > 75 {
      Slices(b, 5, 5 + n, 39, 71);
      Slices(b, 5, 5 + n, 71, 74);
      Slices(b, 5, 5 + n, 76, n);
    }
  }

  lemma Slices(b: seq<Byte>, from: nat, to: nat, i: nat, j: nat)
    requires from <= to <= |b| && i <= j <= to - from
    ensures b[from..to][i..j] == b[from + i..from + j]
  {
    var inner, outer := b[from..to][i..j], b[from + i..from + j];
    assert |inner| == |outer| && forall k | 0 <= k < |inner| :: inner[k] == outer[k];
  }

  lemma ExtensionsEnd(e: seq<Byte>, before: seq<nat>)
    requires |e| <= 4
    ensures Joined(before, ParseExtensions(e)) == if e == [] then HelloOk(before) else HelloBad(WrongExtensionsList)
  {
    assert before + [] == before;
  }

  lemma JoinedEmpty(h: Hello)
    ensures Joined([], h) == h
  {
    if h.HelloOk? { assert [] + h.extensions == h.extensions; }
  }

  lemma ExtensionStep(e: seq<Byte>, before: seq<nat>)
    requires |e| > 4
    ensures var n := 4 + Length(e[2], e[3]);
            Joined(before, ParseExtensions(e)) ==
            if n > |e| then HelloBad(WrongExtensionLength)
            else Joined(before + [Length(e[0], e[1])], ParseExtensions(e[n..]))
  {
    var n := 4 + Length(e[2], e[3]);
    if n <= |e| {
      var rest := ParseExtensions(e[n..]);
      if rest.HelloOk? {
        assert before + ([Length(e[0], e[1])] + rest.extensions) == (before + [Length(e[0], e[1])]) + rest.extensions;
      }
    }
  }

  lemma OnlyCipherSpec(b: seq<Byte>, p: Place, sessionId: seq<Byte>)
    requires Inv(b, p, sessionId) && p.helloLength >= 40 && p.pos == 5 + p.helloLength
    ensures AtCipherSpec(b, p, sessionId)
  {
    hide HelloRead, ParseRecords, ParseHello;
  }

  lemma NoRecordsYet(b: seq<Byte>, n: nat, extensions: seq<nat>, sessionId: seq<Byte>)
    requires HelloRead(b, n, extensions, sessionId) && |b| >= 11 + n && b[5 + n..11 + n] == CHANGE_CIPHER_SPEC
    ensures AtRecord(b, Place(11 + n, n, 0, extensions, []), sessionId)
  {
    hide HelloRead, ParseHello;
    assert b[11 + n..11 + n] == [];
  }

  lemma OnlyRecord(b: seq<Byte>, p: Place, sessionId: seq<Byte>)
    requires Inv(b, p, sessionId) && p.helloLength >= 40 && p.pos == 11 + p.helloLength + p.sum
    ensures AtRecord(b, p, sessionId) && p.pos <= |b|
  {
    hide HelloRead, ParseRecords, ParseHello;
  }

  lemma EndOfRecords(b: seq<Byte>, extensions: seq<nat>, lengths: seq<nat>)
    requires b == []
    ensures Prepend(lengths, ParseRecords(b, extensions)) == Complete(extensions, lengths)
  {
    assert lengths + [] == lengths;
  }

  // The outcomes of a record that is cut off or wrong.
  lemma ShortRecord(b: seq<Byte>, extensions: seq<nat>, lengths: seq<nat>)
    requires b != []
    ensures var o := Prepend(lengths, ParseRecords(b, extensions));
            && (|b| < 3 ==> o == NeedMore(extensions, lengths))
            && (|b| >= 3 && b[..3] != APPLICATION_DATA ==> o == Fail(NoApplicationData))
            && (3 <= |b| < 5 && b[..3] == APPLICATION_DATA ==> o == NeedMore(extensions, lengths))
            && (|b| >= 5 && b[..3] == APPLICATION_DATA ==>
                  var n := Length(b[3], b[4]);
                  && (n == 0 ==> o == Fail(EmptyApplicationData))
                  && (0 < n && |b| < 5 + n ==> o == NeedMore(extensions, lengths + [n])))
  {
    assert lengths + [] == lengths;
  }
}
