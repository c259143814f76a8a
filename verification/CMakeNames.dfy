/** Renaming a source file to its parts in CMakeLists.txt and back (SplitSource.php, lines 28-66). */
module CMakeNames {
  import opened Basics

  // str_replace($x, $y, $t): occurrences are taken from the left and do not overlap.
  function Replace(t: string, x: string, y: string): string
    requires x != ""
  {
    if |t| < |x| then t
    else if x <= t then y + Replace(t[|x|..], x, y)
    else [t[0]] + Replace(t[1..], x, y)
  }

  function Split(cmake: string, cppName: string, parts: string): string
    requires cppName != ""
  {
    if Contains(cmake, cppName) then Replace(cmake, cppName, parts) else cmake
  }

  function Undo(cmake: string, cppName: string, parts: string): string
    requires parts != ""
  {
    if !Contains(cmake, cppName) then Replace(cmake, parts, cppName) else cmake
  }

  // ---------- names that cannot run into each other ----------

  // No end of a is a beginning of b (a proper one, if a and b are the same).
  ghost predicate NoOverlap(a: string, b: string) {
    forall k | 0 < k < |a| && k < |b| :: a[|a| - k..] != b[..k]
  }

  ghost predicate Distinct(o: string, j: string) {
    && 0 < |o| < |j|
    && NoOverlap(j, j) && NoOverlap(o, j) && NoOverlap(j, o)
    && !Contains(j, o)
  }

  // ---------- occurrences ----------

  lemma ContainsShift(t: string, n: nat, x: string)
    requires n <= |t| && Contains(t[n..], x)
    ensures Contains(t, x)
  {
    var i :| 0 <= i <= |t[n..]| && At(t[n..], x, i);
    assert At(t, x, i + n);
  }

  lemma ContainsTail(t: string, n: nat, x: string, i: nat)
    requires n <= i <= |t| && At(t, x, i)
    ensures Contains(t[n..], x)
  {
    assert At(t[n..], x, i - n);
  }

  lemma {:induction false} ReplaceNothing(t: string, x: string, y: string)
    requires x != "" && !Contains(t, x)
    ensures Replace(t, x, y) == t
  {
    if |t| >= |x| {
      assert x <= t ==> At(t, x, 0);
      if Contains(t[1..], x) { ContainsShift(t, 1, x); }
      ReplaceNothing(t[1..], x, y);
    }
  }

  lemma ReplaceDefinition(t: string, x: string, y: string)
    requires x != ""
    ensures |t| < |x| ==> Replace(t, x, y) == t
    ensures x <= t ==> Replace(t, x, y) == y + Replace(t[|x|..], x, y)
    ensures |t| >= |x| && !(x <= t) ==> Replace(t, x, y) == [t[0]] + Replace(t[1..], x, y)
  {
  }

  // Up to the first replacement, at q, the text is unchanged; there the inserted text begins.
  lemma {:induction false} FirstReplacement(t: string, o: string, j: string) returns (q: nat)
    requires o != ""
    ensures q <= |t| && q <= |Replace(t, o, j)| && t[..q] == Replace(t, o, j)[..q]
    ensures (Replace(t, o, j) == t && q == |t|) || At(Replace(t, o, j), j, q)
    ensures q == 0 ==> o <= t || t == ""
  {
    hide Replace;
    ReplaceDefinition(t, o, j);
    if |t| < |o| {
      q := |t|;
    } else if o <= t {
      q := 0;
    } else {
      var r, r1 := Replace(t, o, j), Replace(t[1..], o, j);
      var p := FirstReplacement(t[1..], o, j);
      q := p + 1;
      assert r[..q] == [t[0]] + r1[..p] && t[..q] == [t[0]] + t[1..][..p];
      if At(r1, j, p) { assert r[q..q + |j|] == r1[p..p + |j|]; }
      assert t == [t[0]] + t[1..];
    }
  }

  // Two words that overlap in a text, a first, share an end of a and a beginning of b.
  lemma Meet(r: string, a: string, p: nat, b: string, q: nat)
    requires At(r, a, p) && At(r, b, q) && p < q < p + |a| < q + |b|
    ensures !NoOverlap(a, b)
  {
    var k := p + |a| - q;
    assert a[|a| - k..] == r[p..p + |a|][q - p..] == r[q..p + |a|];
    assert b[..k] == r[q..q + |b|][..k] == r[q..p + |a|];
  }

  // In a text that begins with j, o occurs only after j.
  lemma NotAcross(r: string, j: string, o: string, p: nat)
    requires Distinct(o, j) && j <= r && At(r, o, p)
    ensures p >= |j|
  {
    hide NoOverlap, Contains;
    if p + |o| <= |j| {
      Within(r, j, o, p);
    } else if p < |j| {
      if p == 0 {
        assert false;
      } else {
        Meet(r, j, 0, o, p);
      }
    }
  }

  lemma AtPrefix(r: string, j: string, o: string, p: nat)
    requires j <= r && At(r, o, p) && p + |o| <= |j|
    ensures At(j, o, p)
  {
    assert r[p..p + |o|] == j[p..p + |o|];
  }

  lemma Within(r: string, j: string, o: string, p: nat)
    requires j <= r && At(r, o, p) && p + |o| <= |j|
    ensures Contains(j, o)
  {
    AtPrefix(r, j, o, p);
  }

  lemma BeginsBefore(t: string, o: string, j: string, w: string)
    requires 0 < |o| < |j| && NoOverlap(w, j) && 0 < |w| <= |j| && w <= Replace(t, o, j) && !(o <= t)
    ensures w <= t
  {
    hide NoOverlap, Replace;
    ReplaceDefinition(t, o, j);
    var r := Replace(t, o, j);
    var q := FirstReplacement(t, o, j);
    if q >= |w| {
      assert w == r[..q][..|w|] == t[..q][..|w|];
    } else {
      assert At(r, w, 0);
      Meet(r, w, 0, j, q);
    }
  }

  // Replacing o by j leaves no o behind.
  lemma {:induction false} NoneLeft(t: string, o: string, j: string)
    requires Distinct(o, j)
    ensures !Contains(Replace(t, o, j), o)
  {
    hide NoOverlap, Replace;
    ReplaceDefinition(t, o, j);
    var r := Replace(t, o, j);
    if |t| < |o| {
    } else if o <= t {
      NoneLeft(t[|o|..], o, j);
      assert r[|j|..] == Replace(t[|o|..], o, j);
      forall p | 0 <= p <= |r| ensures !At(r, o, p) {
        if At(r, o, p) {
          NotAcross(r, j, o, p);
          ContainsTail(r, |j|, o, p);
        }
      }
    } else {
      NoneLeft(t[1..], o, j);
      assert r[1..] == Replace(t[1..], o, j);
      forall p | 0 <= p <= |r| ensures !At(r, o, p) {
        if At(r, o, p) {
          if p > 0 {
            ContainsTail(r, 1, o, p);
          } else {
            BeginsBefore(t, o, j, o);
          }
        }
      }
    }
  }

  // ---------- there and back ----------

  function Back(t: string, o: string, j: string): string
    requires o != "" && j != ""
  {
    Replace(Replace(t, o, j), j, o)
  }

  // Within j nothing is replaced.
  lemma {:induction false} PassOver(j: string, i: nat, rest: string, o: string)
    requires Distinct(o, j) && i <= |j|
    ensures Replace(j[i..] + rest, o, j) == j[i..] + Replace(rest, o, j)
    decreases |j| - i
  {
    hide NoOverlap, Contains, Replace;
    var u := j[i..];
    var t := u + rest;
    ReplaceDefinition(t, o, j);
    if i == |j| {
      assert t == rest;
    } else {
      if o <= t { NotInside(j, i, rest, o); }
      PassOver(j, i + 1, rest, o);
      assert t[1..] == j[i + 1..] + rest;
      assert [u[0]] + j[i + 1..] == u;
      ReplaceDefinition(rest, o, j);
    }
  }

  lemma NotInside(j: string, i: nat, rest: string, o: string)
    requires Distinct(o, j) && i < |j|
    ensures !(o <= j[i..] + rest)
  {
    hide NoOverlap, Contains;
    if o <= j[i..] + rest {
      var r := j + rest;
      assert r[i..] == j[i..] + rest;
      assert At(r, o, i);
      NotAcross(r, j, o, i);
    }
  }

  // The way back never makes the text longer than it was, and shorter if j was there already.
  lemma {:induction false} BackShrinks(t: string, o: string, j: string)
    requires Distinct(o, j)
    ensures |Back(t, o, j)| <= |t|
    ensures Contains(t, j) ==> |Back(t, o, j)| < |t|
    ensures !Contains(t, j) ==> Back(t, o, j) == t
  {
    hide NoOverlap, Contains, Replace;
    ReplaceDefinition(t, o, j);
    var r := Replace(t, o, j);
    ReplaceDefinition(r, j, o);
    if |t| < |o| {
      ShortHasNone(t, j);
    } else if o <= t {
      BackShrinks(t[|o|..], o, j);
      assert r[|j|..] == Replace(t[|o|..], o, j);
      LaterOnly(t, o, j);
      assert t == o + t[|o|..];
    } else if j <= t {
      var rest := t[|j|..];
      assert t == j[0..] + rest;
      PassOver(j, 0, rest, o);
      assert r == j + Replace(rest, o, j) && r[|j|..] == Replace(rest, o, j);
      BackShrinks(rest, o, j);
      FoundFirst(t, j);
    } else {
      if j <= r { BeginsBefore(t, o, j, j); }
      assert r[1..] == Replace(t[1..], o, j);
      BackShrinks(t[1..], o, j);
      NotFoundFirst(t, j);
      ReplaceDefinition(r[1..], j, o);
      assert t == [t[0]] + t[1..];
    }
  }

  lemma ShortHasNone(t: string, j: string)
    requires |t| < |j|
    ensures !Contains(t, j)
  {
  }

  lemma FoundFirst(t: string, j: string)
    requires j <= t
    ensures Contains(t, j)
  {
    assert At(t, j, 0);
  }

  lemma NotFoundFirst(t: string, j: string)
    requires t != "" && !(j <= t)
    ensures Contains(t, j) <==> Contains(t[1..], j)
  {
    if Contains(t, j) {
      var i :| 0 <= i <= |t| && At(t, j, i);
      ContainsTail(t, 1, j, i);
    }
    if Contains(t[1..], j) { ContainsShift(t, 1, j); }
  }

  // After an o that begins the text, j occurs only behind it.
  lemma LaterOnly(t: string, o: string, j: string)
    requires Distinct(o, j) && o <= t
    ensures Contains(t, j) <==> Contains(t[|o|..], j)
  {
    hide NoOverlap;
    if Contains(t, j) {
      var i :| 0 <= i <= |t| && At(t, j, i);
      assert At(t, o, 0);
      if i == 0 {
        Within(t, j, o, 0);
      } else if i < |o| {
        Meet(t, o, 0, j, i);
      } else {
        ContainsTail(t, |o|, j, i);
      }
    }
    if Contains(t[|o|..], j) { ContainsShift(t, |o|, j); }
  }

  // Splitting and undoing restores the file exactly when it did not list the parts already.
  lemma UndoRestores(cmake: string, o: string, j: string)
    requires Distinct(o, j)
    ensures Undo(Split(cmake, o, j), o, j) == cmake <==> !Contains(cmake, j)
  {
    hide NoOverlap, Contains;
    if !Contains(cmake, o) { ReplaceNothing(cmake, o, j); }
    NoneLeft(cmake, o, j);
    BackShrinks(cmake, o, j);
  }

  // ---------- the names the splitter makes ----------

  function Decimal(n: nat): string {
    if n < 10 then [('0' as int + n) as char] else Decimal(n / 10) + [('0' as int + n % 10) as char]
  }

  // The number a text of digits stands for
  function Value(digits: string): int {
    if digits == "" then 0 else Value(digits[..|digits| - 1]) * 10 + (digits[|digits| - 1] as int - '0' as int)
  }

  // The numeral of n is digits, without a leading zero, and stands for n.
  lemma {:induction false} DecimalReads(n: nat)
    ensures Decimal(n) != "" && Value(Decimal(n)) == n && forall k | 0 <= k < |Decimal(n)| :: '0' <= Decimal(n)[k] <= '9'
    ensures n > 0 ==> Decimal(n)[0] != '0'
  {
    if n >= 10 {
      DecimalReads(n / 10);
      var d := Decimal(n / 10);
      assert Decimal(n)[..|d|] == d;
    }
  }

  function CppName(file: string): string {
    file + ".cpp"
  }

  // What follows the base name in the list of parts up to the next base name.
  function Between(i: nat, n: nat): string
    requires i < n
  {
    Decimal(i) + ".cpp" + if i + 1 < n then "\n  " else ""
  }

  // implode(PHP_EOL.'  ', ...) of the names of parts i to n - 1
  function Parts(file: string, i: nat, n: nat): string
    requires i < n
    decreases n - i
  {
    file + Between(i, n) + if i + 1 < n then Parts(file, i + 1, n) else ""
  }

  predicate IsFiller(c: char) {
    '0' <= c <= '9' || c in {'.', 'c', 'p', '\n', ' '}
  }

  // The base name begins with a word that occurs nowhere else in it and uses no filler characters, as
  // "td/" in td/telegram/Td and "$" in ${CMAKE_CURRENT_SOURCE_DIR}/auto/td/telegram/td_api.
  ghost predicate Marked(file: string, word: string) {
    && word != "" && word <= file
    && (forall k | 0 <= k < |word| :: !IsFiller(word[k]))
    && (forall p | 0 < p <= |file| :: !At(file, word, p))
  }

  lemma {:induction false} DecimalIsFiller(n: nat)
    ensures Decimal(n) != "" && forall k | 0 <= k < |Decimal(n)| :: IsFiller(Decimal(n)[k])
    ensures Decimal(n)[0] != '.' && (Decimal(n)[0] == '0' <==> n == 0)
  {
    if n >= 10 { DecimalIsFiller(n / 10); }
  }

  lemma BetweenIsFiller(i: nat, n: nat)
    requires i < n
    ensures |Between(i, n)| > 4 && forall k | 0 <= k < |Between(i, n)| :: IsFiller(Between(i, n)[k])
    ensures Between(i, n)[0] == Decimal(i)[0]
  {
    DecimalIsFiller(i);
  }

  lemma FillerIsNotInWord(t: string, word: string, p: nat, c: nat)
    requires At(t, word, p) && p <= c < p + |word| && forall k | 0 <= k < |word| :: !IsFiller(word[k])
    ensures !IsFiller(t[c])
  {
    assert t[c] == t[p..p + |word|][c - p];
  }

  lemma PartsRest(file: string, i: nat, n: nat)
    requires i < n
    ensures var e := |file| + |Between(i, n)|;
            e <= |Parts(file, i, n)| && Parts(file, i, n)[e..] == if i + 1 < n then Parts(file, i + 1, n) else ""
  {
    hide Between;
  }

  lemma AtRest(all: string, e: nat, rest: string, word: string, p: nat)
    requires e <= p && e <= |all| && all[e..] == rest && At(all, word, p) && word != ""
    ensures At(rest, word, p - e) && all[p..] == rest[p - e..] && rest != ""
  {
    assert rest[p - e..p - e + |word|] == all[p..p + |word|];
  }

  // The word occurs in the list of parts only where a part begins.
  lemma {:induction false} WordBeginsPart(file: string, word: string, i: nat, n: nat, p: nat) returns (k: nat)
    requires i < n && Marked(file, word) && At(Parts(file, i, n), word, p)
    ensures i <= k < n && Parts(file, i, n)[p..] == Parts(file, k, n)
    decreases n - i
  {
    hide Between, Marked, Parts, At;
    var all, e := Parts(file, i, n), |file| + |Between(i, n)|;
    if p == 0 {
      k := i;
      assert all[0..] == all;
    } else if p < e {
      WordNotInPart(file, word, i, n, p);
      k := i;
    } else {
      MarkedIsWord(file, word);
      BetweenIsFiller(i, n);
      var rest := if i + 1 < n then Parts(file, i + 1, n) else "";
      PartsRest(file, i, n);
      AtRest(all, e, rest, word, p);
      k := WordBeginsPart(file, word, i + 1, n, p - e);
    }
  }

  lemma MarkedIsWord(file: string, word: string)
    requires Marked(file, word)
    ensures word != "" && word <= file && forall k | 0 <= k < |word| :: !IsFiller(word[k])
  {
  }

  lemma WordNotInPart(file: string, word: string, i: nat, n: nat, p: nat)
    requires i < n && Marked(file, word) && 0 < p < |file| + |Between(i, n)|
    ensures !At(Parts(file, i, n), word, p)
  {
    hide Between;
    BetweenIsFiller(i, n);
    WordNotInFilled(file, word, Between(i, n), if i + 1 < n then Parts(file, i + 1, n) else "", p);
  }

  // After its beginning, a marked name followed by filler has no occurrence of the word that begins before the filler ends.
  lemma WordNotInFilled(file: string, word: string, fill: string, rest: string, p: nat)
    requires Marked(file, word) && fill != "" && (forall k | 0 <= k < |fill| :: IsFiller(fill[k])) && 0 < p < |file| + |fill|
    ensures !At(file + fill + rest, word, p)
  {
    var t := file + fill + rest;
    var c := if p < |file| then |file| else p;
    if At(t, word, p) {
      if p + |word| <= |file| {
        AtPrefix(t, file, word, p);
      } else {
        assert c < |file| + |fill| ==> t[c] == fill[c - |file|];
        FillerIsNotInWord(t, word, p, c);
      }
    }
  }

  lemma {:induction false} PartsEnd(file: string, i: nat, n: nat)
    requires i < n
    ensures |Parts(file, i, n)| > |CppName(file)| && Parts(file, i, n)[|Parts(file, i, n)| - 1] == 'p'
    decreases n - i
  {
    BetweenIsFiller(i, n);
    if i + 1 < n { PartsEnd(file, i + 1, n); }
  }

  // An end of a, which ends in p, that begins like b contains the word b begins with.
  lemma OverlapHasWord(a: string, b: string, word: string, k: nat)
    requires 0 < k <= |a| && k <= |b| && a[|a| - k..] == b[..k] && a[|a| - 1] == 'p'
    requires word != "" && word <= b && forall c | 0 <= c < |word| :: !IsFiller(word[c])
    ensures At(a, word, |a| - k)
  {
    var e := |a| - k;
    assert a[|a| - 1] == a[e..][k - 1] == b[k - 1] && IsFiller(b[k - 1]);
    assert k >= |word|;
    assert a[e..e + |word|] == a[e..][..|word|] == b[..k][..|word|] == word;
  }

  lemma PartBegins(file: string, i: nat, n: nat)
    requires i < n
    ensures |Parts(file, i, n)| > |file| && Parts(file, i, n)[|file|] == Decimal(i)[0]
  {
    hide Decimal;
    BetweenIsFiller(i, n);
  }

  lemma AtShorter(t: string, o: string, word: string, p: nat)
    requires At(t, o, p) && word <= o
    ensures At(t, word, p)
  {
    assert t[p..p + |word|] == t[p..p + |o|][..|word|];
  }

  lemma PartsDoNotRepeat(file: string, word: string, n: nat, k: nat)
    requires n >= 1 && Marked(file, word) && 0 < k < |Parts(file, 0, n)|
    ensures var j := Parts(file, 0, n); j[|j| - k..] != j[..k]
  {
    hide Parts, Decimal, Marked, At;
    var j := Parts(file, 0, n);
    MarkedIsWord(file, word);
    PartsBegin(file, 0, n);
    PartsEnd(file, 0, n);
    PartBegins(file, 0, n);
    DecimalIsFiller(0);
    assert k > |file| ==> j[..k][|file|] == '0';
    if j[|j| - k..] == j[..k] {
      OverlapHasWord(j, j, word, k);
      var i := WordBeginsPart(file, word, 0, n, |j| - k);
      PartBegins(file, i, n);
      DecimalIsFiller(i);
    }
  }

  lemma PartsBegin(file: string, i: nat, n: nat)
    requires i < n
    ensures file <= Parts(file, i, n)
  {
  }

  lemma NameDoesNotReachParts(file: string, word: string, n: nat, k: nat)
    requires n >= 1 && Marked(file, word) && 0 < k < |CppName(file)|
    ensures k < |Parts(file, 0, n)| && CppName(file)[|CppName(file)| - k..] != Parts(file, 0, n)[..k]
  {
    hide Parts, Marked, At;
    var o, j := CppName(file), Parts(file, 0, n);
    MarkedIsWord(file, word);
    PartsBegin(file, 0, n);
    PartsEnd(file, 0, n);
    assert file + ".cpp" + "" == o;
    WordNotInFilled(file, word, ".cpp", "", |o| - k);
    if o[|o| - k..] == j[..k] { OverlapHasWord(o, j, word, k); }
  }

  lemma PartsDoNotReachName(file: string, word: string, n: nat, k: nat)
    requires n >= 1 && Marked(file, word) && 0 < k < |CppName(file)| && k < |Parts(file, 0, n)|
    ensures var j := Parts(file, 0, n); j[|j| - k..] != CppName(file)[..k]
  {
    hide Parts, Marked, At;
    var o, j := CppName(file), Parts(file, 0, n);
    MarkedIsWord(file, word);
    PartsEnd(file, 0, n);
    if j[|j| - k..] == o[..k] {
      OverlapHasWord(j, o, word, k);
      var i := WordBeginsPart(file, word, 0, n, |j| - k);
      PartsEnd(file, i, n);
    }
  }

  lemma NameIsNoPart(file: string, word: string, n: nat, p: nat)
    requires n >= 1 && Marked(file, word)
    ensures !At(Parts(file, 0, n), CppName(file), p)
  {
    hide Parts, Marked, Decimal;
    var o, j := CppName(file), Parts(file, 0, n);
    MarkedIsWord(file, word);
    if At(j, o, p) {
      AtShorter(j, o, word, p);
      var i := WordBeginsPart(file, word, 0, n, p);
      assert o == j[p..][..|o|];
      PartBegins(file, i, n);
      DecimalIsFiller(i);
    }
  }

  // The names of every marked file are distinct enough for the round trip.
  lemma PartNamesAreDistinct(file: string, word: string, n: nat)
    requires n >= 1 && Marked(file, word)
    ensures Distinct(CppName(file), Parts(file, 0, n))
  {
    hide Parts, Marked, CppName, At;
    var o, j := CppName(file), Parts(file, 0, n);
    PartsEnd(file, 0, n);
    assert |o| > 0 by { NameIsNotEmpty(file); }
    forall k | 0 < k < |j| && k < |j| ensures j[|j| - k..] != j[..k] { PartsDoNotRepeat(file, word, n, k); }
    forall k | 0 < k < |o| && k < |j| ensures o[|o| - k..] != j[..k] { NameDoesNotReachParts(file, word, n, k); }
    forall k | 0 < k < |j| && k < |o| ensures j[|j| - k..] != o[..k] { PartsDoNotReachName(file, word, n, k); }
    forall p | 0 <= p <= |j| ensures !At(j, o, p) { NameIsNoPart(file, word, n, p); }
  }

  lemma NameIsNotEmpty(file: string)
    ensures CppName(file) != ""
  {
  }

  // The round trip for the files of the repository.
  lemma UndoRestoresMarked(cmake: string, file: string, word: string, n: nat)
    requires n >= 1 && Marked(file, word)
    ensures var o, j := CppName(file), Parts(file, 0, n);
            |j| > 0 && |o| > 0 && (Undo(Split(cmake, o, j), o, j) == cmake <==> !Contains(cmake, j))
  {
    hide Parts, Marked, NoOverlap, Contains;
    PartNamesAreDistinct(file, word, n);
    UndoRestores(cmake, CppName(file), Parts(file, 0, n));
  }
}
