/** Splitting a list of files and undoing it, in the same order (SplitSource.php, lines 28-66 and 338-340): each file
    is renamed to its parts in CMakeLists.txt, one after the other, and renamed back, one after the other. */
module CMakeRoundTrip {
  import opened Basics
  import opened CMakeNames

  // ---------- replacements that do not meddle with each other ----------

  // Neither of two names is in the other or runs into it.
  ghost predicate Clear(a: string, b: string) {
    a != "" && b != "" && NoOverlap(a, b) && NoOverlap(b, a) && !Contains(a, b) && !Contains(b, a)
  }

  // Where a is, b cannot begin.
  lemma NotAtOnce(r: string, a: string, p: nat, b: string, q: nat)
    requires Clear(a, b) && At(r, a, p) && At(r, b, q)
    ensures q >= p + |a| || p >= q + |b|
  {
    hide Contains, NoOverlap;
    if p <= q < p + |a| {
      if q + |b| <= p + |a| {
        Inside(r, a, p, b, q);
      } else if p < q {
        Meet(r, a, p, b, q);
      } else {
        Inside(r, b, q, a, p);
      }
    } else if q < p < q + |b| {
      if p + |a| <= q + |b| {
        Inside(r, b, q, a, p);
      } else {
        Meet(r, b, q, a, p);
      }
    }
  }

  lemma Inside(r: string, a: string, p: nat, b: string, q: nat)
    requires At(r, a, p) && At(r, b, q) && p <= q && q + |b| <= p + |a|
    ensures Contains(a, b)
  {
    var i, part := q - p, a[q - p..q - p + |b|];
    forall k | 0 <= k < |b| ensures part[k] == b[k] {
      assert part[k] == a[i + k] == r[p..p + |a|][i + k] == r[q + k];
      assert b[k] == r[q..q + |b|][k] == r[q + k];
    }
    assert part == b;
    assert At(a, b, i);
  }

  // Replacing c passes over a name that is clear of it.
  lemma {:induction false} PassClear(a: string, i: nat, rest: string, c: string, d: string)
    requires Clear(a, c) && i <= |a|
    ensures Replace(a[i..] + rest, c, d) == a[i..] + Replace(rest, c, d)
    decreases |a| - i
  {
    hide NoOverlap, Contains, Replace;
    var t := a[i..] + rest;
    ReplaceDefinition(t, c, d);
    if i == |a| {
      assert t == rest;
    } else {
      NotBegunInside(a, i, rest, c);
      PassClear(a, i + 1, rest, c, d);
      assert t[1..] == a[i + 1..] + rest && [t[0]] + a[i + 1..] == a[i..];
      ReplaceDefinition(t[1..], c, d);
    }
  }

  lemma NotBegunInside(a: string, i: nat, rest: string, c: string)
    requires Clear(a, c) && i < |a|
    ensures !(c <= a[i..] + rest)
  {
    hide NoOverlap, Contains, Clear;
    var r := a + rest;
    assert r[i..] == a[i..] + rest && At(r, a, 0);
    ClearIsSome(a, c);
    if c <= a[i..] + rest {
      assert At(r, c, i);
      NotAtOnce(r, a, 0, c, i);
    }
  }

  // If c begins the text after a was replaced by b, it began it before.
  lemma BegunBefore(t: string, a: string, b: string, c: string)
    requires a != "" && Clear(b, c) && c <= Replace(t, a, b) && !(a <= t)
    ensures c <= t
  {
    hide NoOverlap, Contains, Replace, Clear;
    ReplaceDefinition(t, a, b);
    var r := Replace(t, a, b);
    var q := FirstReplacement(t, a, b);
    assert At(r, c, 0);
    if r != t {
      NotAtOnce(r, b, q, c, 0);
      ClearIsSome(b, c);
      assert c == r[..q][..|c|] == t[..q][..|c|];
    }
  }

  lemma ClearIsSome(a: string, b: string)
    requires Clear(a, b)
    ensures a != "" && b != "" && Clear(b, a)
  {
  }

  lemma FirstStays(t: string, a: string, b: string)
    requires a != "" && t != "" && !(a <= t)
    ensures Replace(t, a, b) == [t[0]] + Replace(t[1..], a, b)
  {
    assert t == [t[0]] + t[1..];
  }

  lemma ReplaceFirst(a: string, rest: string, b: string)
    requires a != ""
    ensures Replace(a + rest, a, b) == b + Replace(rest, a, b)
  {
    assert (a + rest)[|a|..] == rest;
  }

  // Replacing a by b and c by d, in either order, is the same.
  lemma {:induction false} Commute(t: string, a: string, b: string, c: string, d: string)
    requires Clear(a, c) && Clear(a, d) && Clear(b, c) && Clear(b, d)
    ensures Replace(Replace(t, a, b), c, d) == Replace(Replace(t, c, d), a, b)
    decreases |t|
  {
    hide Replace, Clear;
    ClearIsSome(a, c);
    ClearIsSome(a, d);
    ClearIsSome(b, c);
    ClearIsSome(b, d);
    if a <= t {
      var rest := t[|a|..];
      assert t == a + rest && a[0..] == a && b[0..] == b;
      Commute(rest, a, b, c, d);
      ReplaceFirst(a, rest, b);
      PassClear(b, 0, Replace(rest, a, b), c, d);
      PassClear(a, 0, rest, c, d);
      ReplaceFirst(a, Replace(rest, c, d), b);
    } else if c <= t {
      var rest := t[|c|..];
      assert t == c + rest && c[0..] == c && d[0..] == d;
      Commute(rest, a, b, c, d);
      PassClear(c, 0, rest, a, b);
      ReplaceFirst(c, Replace(rest, a, b), d);
      ReplaceFirst(c, rest, d);
      PassClear(d, 0, Replace(rest, c, d), a, b);
    } else if t == "" {
      ReplaceDefinition(t, a, b);
      ReplaceDefinition(t, c, d);
    } else {
      Commute(t[1..], a, b, c, d);
      CommuteFirst(t, a, b, c, d);
      CommuteFirst(t, c, d, a, b);
    }
  }

  lemma CommuteFirst(t: string, a: string, b: string, c: string, d: string)
    requires a != "" && Clear(b, c) && t != "" && !(a <= t) && !(c <= t)
    ensures Replace(Replace(t, a, b), c, d) == [t[0]] + Replace(Replace(t[1..], a, b), c, d)
  {
    hide Replace, Clear;
    ClearIsSome(b, c);
    FirstStays(t, a, b);
    var r := Replace(t, a, b);
    if c <= r { BegunBefore(t, a, b, c); }
    assert r[1..] == Replace(t[1..], a, b);
    FirstStays(r, c, d);
  }

  lemma {:induction false} ReplaceGrows(t: string, o: string, j: string)
    requires 0 < |o| < |j|
    ensures |Replace(t, o, j)| >= |t| && (Contains(t, o) ==> |Replace(t, o, j)| > |t|)
  {
    hide Replace, Contains;
    ReplaceDefinition(t, o, j);
    if |t| < |o| {
      ShortHasNone(t, o);
    } else if o <= t {
      ReplaceGrows(t[|o|..], o, j);
    } else {
      ReplaceGrows(t[1..], o, j);
      NotFoundFirst(t, o);
    }
  }

  // ---------- a list of files ----------

  // A file's name and the joined names of its parts
  datatype Names = Names(name: string, parts: string)

  ghost predicate Apart(x: Names, y: Names) {
    Clear(x.name, y.name) && Clear(x.name, y.parts) && Clear(x.parts, y.name) && Clear(x.parts, y.parts)
  }

  ghost predicate AllApart(files: seq<Names>) {
    && (forall i | 0 <= i < |files| :: Distinct(files[i].name, files[i].parts))
    && (forall i, k | 0 <= i < |files| && 0 <= k < |files| && i != k :: Apart(files[i], files[k]))
  }

  predicate Named(files: seq<Names>) {
    forall i | 0 <= i < |files| :: files[i].name != "" && files[i].parts != ""
  }

  function SplitAll(cmake: string, files: seq<Names>): string
    requires Named(files)
    decreases |files|
  {
    if files == [] then cmake
    else
      assert Named(files[1..]) by { NamedRest(files); }
      SplitAll(Split(cmake, files[0].name, files[0].parts), files[1..])
  }

  function UndoAll(cmake: string, files: seq<Names>): string
    requires Named(files)
    decreases |files|
  {
    if files == [] then cmake
    else
      assert Named(files[1..]) by { NamedRest(files); }
      UndoAll(Undo(cmake, files[0].name, files[0].parts), files[1..])
  }

  lemma NamedRest(files: seq<Names>)
    requires Named(files) && files != []
    ensures Named(files[1..])
  {
  }

  lemma RestApart(files: seq<Names>)
    requires AllApart(files) && files != []
    ensures AllApart(files[1..]) && Distinct(files[0].name, files[0].parts)
    ensures forall k | 0 <= k < |files| - 1 :: Apart(files[0], files[1..][k])
  {
    var rest := files[1..];
    assert forall k | 0 <= k < |rest| :: rest[k] == files[k + 1];
  }

  lemma ApartIsNamed(files: seq<Names>)
    requires AllApart(files)
    ensures Named(files)
  {
    hide NoOverlap, Contains, Apart;
    forall i | 0 <= i < |files| ensures files[i].name != "" && files[i].parts != "" {
      assert Distinct(files[i].name, files[i].parts);
    }
  }

  lemma SplitIsReplace(t: string, x: Names)
    requires Distinct(x.name, x.parts)
    ensures Split(t, x.name, x.parts) == Replace(t, x.name, x.parts)
  {
    hide NoOverlap, Contains, Replace;
    if !Contains(t, x.name) { ReplaceNothing(t, x.name, x.parts); }
  }

  // Replacing in another file's name first or last makes no difference to splitting the list.
  lemma {:induction false} SplitAllCommutes(t: string, files: seq<Names>, a: string, b: string)
    requires AllApart(files) && Named(files)
    requires forall k | 0 <= k < |files| :: Apart(Names(a, b), files[k])
    ensures a != "" || files == []
    ensures files != [] ==> SplitAll(Replace(t, a, b), files) == Replace(SplitAll(t, files), a, b)
    decreases |files|
  {
    hide Distinct, Replace, Split, Clear;
    if files != [] {
      var x := files[0];
      RestApart(files);
      NamedRest(files);
      assert Apart(Names(a, b), x);
      ClearIsSome(a, x.name);
      Commute(t, a, b, x.name, x.parts);
      SplitIsReplace(t, x);
      SplitIsReplace(Replace(t, a, b), x);
      if |files| > 1 {
        assert forall k | 0 <= k < |files[1..]| :: files[1..][k] == files[k + 1];
        SplitAllCommutes(Split(t, x.name, x.parts), files[1..], a, b);
      }
    }
  }

  lemma SplitAllOther(t: string, files: seq<Names>, a: string, b: string)
    requires AllApart(files) && Named(files) && a != ""
    requires forall k | 0 <= k < |files| :: Apart(Names(a, b), files[k])
    ensures SplitAll(Replace(t, a, b), files) == Replace(SplitAll(t, files), a, b)
  {
    hide Distinct, Replace, Split, Apart;
    SplitAllCommutes(t, files, a, b);
  }

  lemma ApartBack(x: Names, y: Names)
    requires Apart(x, y)
    ensures Apart(Names(x.parts, x.name), y)
  {
  }

  // The name of a file that was split stays away while the others are split.
  lemma StaysAway(t: string, x: Names, files: seq<Names>)
    requires AllApart(files) && Named(files) && Distinct(x.name, x.parts)
    requires forall k | 0 <= k < |files| :: Apart(x, files[k])
    ensures !Contains(SplitAll(Replace(t, x.name, x.parts), files), x.name)
  {
    hide NoOverlap, Contains, Replace, Split, Apart, SplitAll;
    var r := Replace(t, x.name, x.parts);
    NoneLeft(t, x.name, x.parts);
    ReplaceNothing(r, x.name, x.parts);
    SplitAllOther(r, files, x.name, x.parts);
    ReplaceGrows(SplitAll(r, files), x.name, x.parts);
  }

  // Undoing the first file is as if it had been split and undone before the others.
  lemma UndoFirst(t: string, files: seq<Names>)
    requires AllApart(files) && Named(files) && files != []
    ensures Named(files[1..])
    ensures var x := files[0];
            Undo(SplitAll(t, files), x.name, x.parts) == SplitAll(Back(t, x.name, x.parts), files[1..])
  {
    hide NoOverlap, Contains, Replace, Split, Apart;
    var x, rest := files[0], files[1..];
    RestApart(files);
    NamedRest(files);
    assert forall k | 0 <= k < |rest| :: Apart(x, rest[k]);
    SplitIsReplace(t, x);
    StaysAway(t, x, rest);
    forall k | 0 <= k < |rest| ensures Apart(Names(x.parts, x.name), rest[k]) { ApartBack(x, rest[k]); }
    SplitAllOther(Replace(t, x.name, x.parts), rest, x.parts, x.name);
  }

  // Splitting and undoing the whole list restores the text exactly when it listed none of the parts before.
  lemma {:induction false} AllComeBack(t: string, files: seq<Names>)
    requires AllApart(files)
    ensures Named(files) && |UndoAll(SplitAll(t, files), files)| <= |t|
    ensures UndoAll(SplitAll(t, files), files) == t <==> forall i | 0 <= i < |files| :: !Contains(t, files[i].parts)
    decreases |files|
  {
    hide Distinct, Contains, Replace, Split, Undo, Apart, Back;
    ApartIsNamed(files);
    if files != [] {
      var x, rest := files[0], files[1..];
      RestApart(files);
      UndoFirst(t, files);
      BackShrinks(t, x.name, x.parts);
      AllComeBack(Back(t, x.name, x.parts), rest);
      assert forall i | 0 <= i < |rest| :: rest[i] == files[i + 1];
      assert (forall i | 0 <= i < |files| :: !Contains(t, files[i].parts))
        <==> !Contains(t, x.parts) && (forall i | 0 <= i < |rest| :: !Contains(t, rest[i].parts)) by {
        assert forall i | 0 < i < |files| :: files[i] == rest[i - 1];
      }
    }
  }

  // ---------- the names the splitter makes ----------

  // No base name is another one with a digit, a dot or another filler character after it.
  ghost predicate Unlike(f: string, g: string) {
    !(f <= g && (|f| == |g| || IsFiller(g[|f|]))) && !(g <= f && IsFiller(f[|g|]))
  }

  // A text that begins with the base name and a filler character
  ghost predicate Begins(t: string, f: string) {
    f <= t && |t| > |f| && IsFiller(t[|f|])
  }

  lemma Alike(s: string, f: string, t: string, g: string)
    requires Begins(s, f) && Begins(t, g) && s <= t
    ensures !Unlike(f, g)
  {
    assert |f| < |g| ==> f == s[..|f|] == t[..|f|] == g[..|f|];
    assert |f| >= |g| ==> g == t[..|g|] == s[..|g|] == f[..|g|];
  }

  lemma UnlikeDiffer(s: string, f: string, t: string, g: string)
    requires Begins(s, f) && Begins(t, g) && Unlike(f, g)
    ensures !(s <= t) && !(t <= s)
  {
    hide Unlike, Begins;
    UnlikeBack(f, g);
    if s <= t { Alike(s, f, t, g); }
    if t <= s { Alike(t, g, s, f); }
  }

  // Every occurrence of the word in a begins the base name f with a filler character after it, and a ends in one.
  ghost predicate MadeOf(a: string, f: string, word: string) {
    && a != "" && a[|a| - 1] == 'p' && Begins(a, f)
    && forall p | 0 <= p <= |a| && At(a, word, p) :: Begins(a[p..], f)
  }

  lemma NameIsMadeOf(file: string, word: string)
    requires Marked(file, word)
    ensures MadeOf(CppName(file), file, word)
  {
    hide Marked;
    var o := CppName(file);
    MarkedIsWord(file, word);
    assert file + ".cpp" + "" == o && o[|file|] == '.';
    forall p | 0 <= p <= |o| && At(o, word, p) ensures Begins(o[p..], file) {
      if 0 < p < |o| { WordNotInFilled(file, word, ".cpp", "", p); }
      assert o[0..] == o;
    }
  }

  lemma PartsAreMadeOf(file: string, word: string, n: nat)
    requires n >= 1 && Marked(file, word)
    ensures MadeOf(Parts(file, 0, n), file, word)
  {
    hide Marked, Parts, At, IsFiller;
    var j := Parts(file, 0, n);
    PartsEnd(file, 0, n);
    PartBeginsFilled(file, 0, n);
    forall p | 0 <= p <= |j| && At(j, word, p) ensures Begins(j[p..], file) {
      var k := WordBeginsPart(file, word, 0, n, p);
      PartBeginsFilled(file, k, n);
    }
  }

  lemma PartBeginsFilled(file: string, i: nat, n: nat)
    requires i < n
    ensures Begins(Parts(file, i, n), file)
  {
    hide Decimal;
    PartsBegin(file, i, n);
    PartBegins(file, i, n);
    DecimalIsFiller(i);
  }

  lemma AtBegins(a: string, b: string, p: nat)
    requires At(a, b, p)
    ensures b <= a[p..]
  {
    assert a[p..][..|b|] == a[p..p + |b|];
  }

  lemma MadeOfIsApart(a: string, f: string, b: string, g: string, word: string)
    requires MadeOf(a, f, word) && MadeOf(b, g, word) && Unlike(f, g)
    requires word != "" && word <= g && forall k | 0 <= k < |word| :: !IsFiller(word[k])
    ensures !Contains(a, b) && NoOverlap(a, b)
  {
    hide IsFiller, Unlike;
    assert word <= b;
    forall p | 0 <= p <= |a| ensures !At(a, b, p) {
      if At(a, b, p) {
        AtShorter(a, b, word, p);
        AtBegins(a, b, p);
        UnlikeDiffer(a[p..], f, b, g);
      }
    }
    forall k | 0 < k < |a| && k < |b| ensures a[|a| - k..] != b[..k] {
      if a[|a| - k..] == b[..k] {
        OverlapHasWord(a, b, word, k);
        UnlikeDiffer(a[|a| - k..], f, b, g);
      }
    }
  }

  lemma UnlikeBack(f: string, g: string)
    requires Unlike(f, g)
    ensures Unlike(g, f)
  {
    assert |f| == |g| && f <= g ==> f == g;
  }

  lemma MadeOfAreClear(a: string, f: string, b: string, g: string, word: string)
    requires MadeOf(a, f, word) && MadeOf(b, g, word) && Unlike(f, g)
    requires word != "" && word <= f && word <= g && forall k | 0 <= k < |word| :: !IsFiller(word[k])
    ensures Clear(a, b)
  {
    hide IsFiller, Unlike, NoOverlap, Contains;
    MadeOfIsApart(a, f, b, g, word);
    UnlikeBack(f, g);
    MadeOfIsApart(b, g, a, f, word);
  }

  // A base name and how many parts it gets
  datatype File = File(base: string, chunks: nat)

  ghost predicate Listed(list: seq<File>, word: string) {
    && (forall i | 0 <= i < |list| :: Marked(list[i].base, word) && list[i].chunks >= 1)
    && (forall i, k | 0 <= i < |list| && 0 <= k < |list| && i != k :: Unlike(list[i].base, list[k].base))
  }

  ghost function NamesOf(list: seq<File>): seq<Names>
    requires forall i | 0 <= i < |list| :: list[i].chunks >= 1
  {
    seq(|list|, i requires 0 <= i < |list| => Names(CppName(list[i].base), Parts(list[i].base, 0, list[i].chunks)))
  }

  lemma ListIsApart(list: seq<File>, word: string)
    requires Listed(list, word)
    ensures AllApart(NamesOf(list))
  {
    hide Marked, Parts, CppName, NoOverlap, Contains, Clear, MadeOf, Unlike, IsFiller, Distinct;
    var files := NamesOf(list);
    forall i | 0 <= i < |files| ensures Distinct(files[i].name, files[i].parts) {
      PartNamesAreDistinct(list[i].base, word, list[i].chunks);
    }
    forall i, k | 0 <= i < |files| && 0 <= k < |files| && i != k ensures Apart(files[i], files[k]) {
      PairIsApart(list[i], list[k], word);
    }
  }

  lemma PairIsApart(x: File, y: File, word: string)
    requires Marked(x.base, word) && Marked(y.base, word) && x.chunks >= 1 && y.chunks >= 1 && Unlike(x.base, y.base)
    ensures Apart(Names(CppName(x.base), Parts(x.base, 0, x.chunks)), Names(CppName(y.base), Parts(y.base, 0, y.chunks)))
  {
    hide Marked, Parts, CppName, NoOverlap, Contains, Clear, MadeOf, Unlike, IsFiller;
    MarkedIsWord(x.base, word);
    MarkedIsWord(y.base, word);
    NameIsMadeOf(x.base, word);
    NameIsMadeOf(y.base, word);
    PartsAreMadeOf(x.base, word, x.chunks);
    PartsAreMadeOf(y.base, word, y.chunks);
    var o, j, o', j' := CppName(x.base), Parts(x.base, 0, x.chunks), CppName(y.base), Parts(y.base, 0, y.chunks);
    MadeOfAreClear(o, x.base, o', y.base, word);
    MadeOfAreClear(o, x.base, j', y.base, word);
    MadeOfAreClear(j, x.base, o', y.base, word);
    MadeOfAreClear(j, x.base, j', y.base, word);
  }

  // The round trip for lists of files such as those of the repository
  lemma ListComesBack(cmake: string, list: seq<File>, word: string)
    requires Listed(list, word)
    ensures var files := NamesOf(list);
            && Named(files)
            && (UndoAll(SplitAll(cmake, files), files) == cmake <==>
                forall i | 0 <= i < |list| :: !Contains(cmake, files[i].parts))
  {
    hide AllApart, Contains, SplitAll, UndoAll, Marked, Unlike;
    ListIsApart(list, word);
    AllComeBack(cmake, NamesOf(list));
  }
}
