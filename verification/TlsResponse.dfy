/** What a server's answer means to the TLS probe (check_tls.cpp, lines 151-256), as a parser of the bytes
    received so far that never looks back. */
module TlsResponse {
  import opened Basics

  datatype Error =
    | NonTls | ShortHello | NonTls2 | NonTls3 | HelloRetryRequest | EmptySessionId | NonTls4 | ShortHello2
    | OtherSessionId | OtherCipher | WrongExtensionsLength | WrongExtensionLength | WrongExtensionsList
    | NoChangeCipherSpec | NoApplicationData | EmptyApplicationData

  // The extension types and the lengths of the encrypted records found so far, and whether the bytes end
  // exactly after a record.
  datatype Outcome =
    | NeedMore(extensions: seq<nat>, lengths: seq<nat>)
    | Complete(extensions: seq<nat>, lengths: seq<nat>)
    | Fail(error: Error)

  datatype Hello = HelloOk(extensions: seq<nat>) | HelloBad(error: Error)

  const HANDSHAKE: seq<Byte> := [0x16, 0x03, 0x03]
  const CHANGE_CIPHER_SPEC: seq<Byte> := [0x14, 0x03, 0x03, 0x00, 0x01, 0x01]
  const APPLICATION_DATA: seq<Byte> := [0x17, 0x03, 0x03]
  // The random value that marks a HelloRetryRequest (section 4.1.3 of RFC 8446)
  const RETRY_RANDOM: seq<Byte> :=
    [0xcf, 0x21, 0xad, 0x74, 0xe5, 0x9a, 0x61, 0x11, 0xbe, 0x1d, 0x8c, 0x02, 0x1e, 0x65, 0xb8, 0x91,
     0xc2, 0xa2, 0x11, 0x16, 0x7a, 0xbb, 0x8c, 0x5e, 0x07, 0x9e, 0x09, 0xe2, 0xc8, 0xa8, 0x33, 0x9c]

  function Length(hi: Byte, lo: Byte): (n: nat)
    ensures n < 0x1_0000
  {
    hi * 256 + lo
  }

  // add_length
  function LengthBytes(n: nat): (b: seq<Byte>)
    ensures |b| == 2
    ensures n < 0x1_0000 ==> Length(b[0], b[1]) == n
  {
    [(n / 256) % 256, n % 256]
  }

  // ---------- the reference parser ----------

  // The list of extensions. An extension is read only while more than four bytes are left.
  function ParseExtensions(e: seq<Byte>): Hello {
    if e == [] then HelloOk([])
    else if |e| <= 4 then HelloBad(WrongExtensionsList)
    else
      var n := 4 + Length(e[2], e[3]);
      if n > |e| then HelloBad(WrongExtensionLength)
      else match ParseExtensions(e[n..])
        case HelloOk(rest) => HelloOk([Length(e[0], e[1])] + rest)
        case HelloBad(error) => HelloBad(error)
  }

  // The handshake message of the first record.
  function ParseHello(h: seq<Byte>, sessionId: seq<Byte>): Hello
    requires |h| >= 40
  {
    if h[..2] != [0x02, 0x00] then HelloBad(NonTls2)
    else if h[4..6] != [0x03, 0x03] then HelloBad(NonTls3)
    else if h[6..38] == RETRY_RANDOM then HelloBad(HelloRetryRequest)
    else if h[38] == 0x00 then HelloBad(EmptySessionId)
    else if h[38] != 0x20 then HelloBad(NonTls4)
    else if |h| <= 75 then HelloBad(ShortHello2)
    else if h[39..71] != sessionId then HelloBad(OtherSessionId)
    else if h[71..74] != [0x13, 0x01, 0x00] then HelloBad(OtherCipher)
    else if Length(h[74], h[75]) + 76 != |h| then HelloBad(WrongExtensionsLength)
    else ParseExtensions(h[76..])
  }

  function Prepend(lengths: seq<nat>, o: Outcome): Outcome {
    match o
    case NeedMore(x, l) => NeedMore(x, lengths + l)
    case Complete(x, l) => Complete(x, lengths + l)
    case Fail(e) => Fail(e)
  }

  // Encrypted records up to the end of what was received.
  function ParseRecords(b: seq<Byte>, extensions: seq<nat>): Outcome {
    if b == [] then Complete(extensions, [])
    else if |b| < 3 then NeedMore(extensions, [])
    else if b[..3] != APPLICATION_DATA then Fail(NoApplicationData)
    else if |b| < 5 then NeedMore(extensions, [])
    else
      var n := Length(b[3], b[4]);
      if n == 0 then Fail(EmptyApplicationData)
      else if |b| < 5 + n then NeedMore(extensions, [n])
      else Prepend([n], ParseRecords(b[5 + n..], extensions))
  }

  // What follows the first record.
  function ParseRest(b: seq<Byte>, extensions: seq<nat>): Outcome {
    if |b| < 6 then NeedMore(extensions, [])
    else if b[..6] != CHANGE_CIPHER_SPEC then Fail(NoChangeCipherSpec)
    else ParseRecords(b[6..], extensions)
  }

  function Parse(b: seq<Byte>, sessionId: seq<Byte>): Outcome {
    if |b| < 3 then NeedMore([], [])
    else if b[..3] != HANDSHAKE then Fail(NonTls)
    else if |b| < 5 then NeedMore([], [])
    else
      var n := Length(b[3], b[4]);
      if n <= 39 then Fail(ShortHello)
      else if |b| < 5 + n then NeedMore([], [])
      else match ParseHello(b[5..5 + n], sessionId)
        case HelloBad(error) => Fail(error)
        case HelloOk(extensions) => ParseRest(b[5 + n..], extensions)
  }

  // ---------- more bytes ----------

  // Later is what earlier can become when more bytes arrive: an error stays, extensions once read stay, and
  // record lengths are only added.
  ghost predicate Extends(earlier: Outcome, later: Outcome) {
    match earlier
    case Fail(e) => later == earlier
    case _ =>
      later.Fail?
      || (earlier.lengths <= later.lengths && (earlier.Complete? ==> earlier.extensions == later.extensions)
          && (earlier.extensions != [] || earlier.lengths != [] ==> later.extensions == earlier.extensions))
  }

  lemma {:induction false} MoreRecords(b: seq<Byte>, c: seq<Byte>, extensions: seq<nat>)
    ensures Extends(ParseRecords(b, extensions), ParseRecords(b + c, extensions))
    ensures var o := ParseRecords(b + c, extensions); !o.Fail? ==> o.extensions == extensions
  {
    var bc := b + c;
    RecordsKeepExtensions(bc, extensions);
    if |b| >= 3 {
      assert bc[..3] == b[..3];
      if |b| >= 5 && b[..3] == APPLICATION_DATA {
        var n := Length(b[3], b[4]);
        if n > 0 && |b| >= 5 + n {
          assert bc[5 + n..] == b[5 + n..] + c;
          MoreRecords(b[5 + n..], c, extensions);
        }
      }
    }
  }

  lemma {:induction false} RecordsKeepExtensions(b: seq<Byte>, extensions: seq<nat>)
    ensures var o := ParseRecords(b, extensions); !o.Fail? ==> o.extensions == extensions
  {
    if |b| >= 5 && b[..3] == APPLICATION_DATA && Length(b[3], b[4]) > 0 && |b| >= 5 + Length(b[3], b[4]) {
      RecordsKeepExtensions(b[5 + Length(b[3], b[4])..], extensions);
    }
  }

  lemma MoreRest(b: seq<Byte>, c: seq<Byte>, extensions: seq<nat>)
    ensures Extends(ParseRest(b, extensions), ParseRest(b + c, extensions))
  {
    var bc := b + c;
    RecordsKeepExtensions(if |bc| < 6 then [] else bc[6..], extensions);
    if |b| >= 6 {
      assert bc[..6] == b[..6] && bc[6..] == b[6..] + c;
      MoreRecords(b[6..], c, extensions);
    }
  }

  lemma MoreBytes(b: seq<Byte>, c: seq<Byte>, sessionId: seq<Byte>)
    ensures Extends(Parse(b, sessionId), Parse(b + c, sessionId))
  {
    var bc := b + c;
    if |b| >= 3 {
      assert bc[..3] == b[..3];
      if |b| >= 5 && b[..3] == HANDSHAKE {
        var n := Length(b[3], b[4]);
        if n > 39 && |b| >= 5 + n {
          assert bc[5..5 + n] == b[5..5 + n] && bc[5 + n..] == b[5 + n..] + c;
          var hello := ParseHello(b[5..5 + n], sessionId);
          if hello.HelloOk? { MoreRest(b[5 + n..], c, hello.extensions); }
        }
      }
    }
  }

  ghost predicate BeginsWithRecord(b: seq<Byte>, n: nat) {
    |b| >= 5 + n && b[..3] == APPLICATION_DATA && Length(b[3], b[4]) == n > 0
  }

  lemma RecordStep(b: seq<Byte>, n: nat, extensions: seq<nat>)
    requires BeginsWithRecord(b, n)
    ensures ParseRecords(b, extensions) == Prepend([n], ParseRecords(b[5 + n..], extensions))
  {
  }

  lemma CompleteBegins(b: seq<Byte>, extensions: seq<nat>, lengths: seq<nat>)
    requires ParseRecords(b, extensions) == Complete(extensions, lengths)
    ensures b == [] ==> lengths == []
    ensures b != [] ==> lengths != [] && BeginsWithRecord(b, lengths[0])
                        && ParseRecords(b[5 + lengths[0]..], extensions) == Complete(extensions, lengths[1..])
  {
  }

  lemma PrependTwice(a: seq<nat>, b: seq<nat>, o: Outcome)
    ensures Prepend(a, Prepend(b, o)) == Prepend(a + b, o)
    ensures Prepend([], o) == o
  {
    if !o.Fail? { assert a + (b + o.lengths) == (a + b) + o.lengths && [] + o.lengths == o.lengths; }
  }

  // Complete records can be taken off the front.
  lemma {:induction false} RecordsSplit(b: seq<Byte>, c: seq<Byte>, extensions: seq<nat>, lengths: seq<nat>)
    requires ParseRecords(b, extensions) == Complete(extensions, lengths)
    ensures ParseRecords(b + c, extensions) == Prepend(lengths, ParseRecords(c, extensions))
  {
    hide ParseRecords, Prepend;
    CompleteBegins(b, extensions, lengths);
    if b == [] {
      assert b + c == c;
      PrependTwice([], [], ParseRecords(c, extensions));
    } else {
      var n, bc := lengths[0], b + c;
      assert bc[..3] == b[..3] && bc[5 + n..] == b[5 + n..] + c;
      RecordStep(bc, n, extensions);
      RecordsSplit(b[5 + n..], c, extensions, lengths[1..]);
      PrependTwice([n], lengths[1..], ParseRecords(c, extensions));
      assert [n] + lengths[1..] == lengths;
    }
  }
}
