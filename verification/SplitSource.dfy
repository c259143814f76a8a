/** Splitting one source file (SplitSource.php, lines 73-205): from its lines to the text of the output files, as
    they are before unneeded includes are dropped. */
module SplitSource {
  import opened Basics
  import opened SourceLines
  import opened LineSplitter
  import opened OutputNesting
  import opened OutputText
  import opened DisjointSets
  import opened GreedyAssignment
  import opened FunctionGroups

  datatype Result =
    | LeftOver(text: string)        // "ERROR: $current"
    | TooSmall                      // "ERROR: file is too small to be splitted more"
    | Files(contents: seq<string>)

  function Target(isGenerated: bool): nat {
    if isGenerated then 2 else 1
  }

  // The lines of the functions with the given numbers.
  ghost function BodyLines(lines: seq<string>, places: seq<Place>, ids: seq<nat>): seq<string>
    requires |lines| == |places|
  {
    if ids == [] then []
    else BodyLines(lines, places, ids[..|ids| - 1]) + Select(lines, places, Function(ids[|ids| - 1]))
  }

  // The lines of one output file: the common part, the namespaces opened, some functions, the namespaces closed.
  ghost function FileLines(lines: seq<string>, places: seq<Place>, target: nat, ids: seq<nat>): seq<string>
    requires |lines| == |places|
  {
    Output(lines, places, target, BodyLines(lines, places, ids))
  }

  // The numbers of the source lines with place d, and of those of the functions with the given numbers.
  ghost function Indices(places: seq<Place>, d: Place): seq<nat> {
    if places == [] then []
    else
      var n := |places| - 1;
      Indices(places[..n], d) + if places[n] == d then [n] else []
  }

  ghost function BodyIndices(places: seq<Place>, ids: seq<nat>): seq<nat> {
    if ids == [] then [] else BodyIndices(places, ids[..|ids| - 1]) + Indices(places, Function(ids[|ids| - 1]))
  }

  lemma SelectIsStep(lines: seq<string>, places: seq<Place>, d: Place)
    requires |lines| == |places|
    ensures places == [] ==> Indices(places, d) == [] && Select(lines, places, d) == []
    ensures places != [] ==>
              var n := |places| - 1;
              var more, line := if places[n] == d then [n] else [], if places[n] == d then [lines[n]] else [];
              && Indices(places, d) == Indices(places[..n], d) + more
              && Select(lines, places, d) == Select(lines[..n], places[..n], d) + line
  {
  }

  lemma {:induction false} SelectIs(lines: seq<string>, places: seq<Place>, d: Place)
    requires |lines| == |places|
    ensures |Indices(places, d)| == |Select(lines, places, d)|
    ensures forall b | 0 <= b < |Indices(places, d)| ::
              var j := Indices(places, d)[b];
              j < |lines| && places[j] == d && Select(lines, places, d)[b] == lines[j]
  {
    hide Select, Indices;
    SelectIsStep(lines, places, d);
    if places != [] {
      var n := |places| - 1;
      SelectIs(lines[..n], places[..n], d);
    }
  }

  lemma {:induction false} BodyIs(lines: seq<string>, places: seq<Place>, ids: seq<nat>)
    requires |lines| == |places|
    ensures |BodyIndices(places, ids)| == |BodyLines(lines, places, ids)|
    ensures forall b | 0 <= b < |BodyIndices(places, ids)| ::
              var j := BodyIndices(places, ids)[b];
              j < |lines| && places[j].Function? && places[j].k in ids && BodyLines(lines, places, ids)[b] == lines[j]
  {
    hide Indices, Select;
    if ids != [] {
      var n := |ids| - 1;
      BodyIs(lines, places, ids[..n]);
      SelectIs(lines, places, Function(ids[n]));
    }
  }

  lemma {:induction false} BodyText(lines: seq<string>, places: seq<Place>, common: string, current: string,
                                    functions: seq<string>, ids: seq<nat>)
    requires |lines| == |places| && Texts(lines, places, common, current, functions) && InBounds(ids, |functions|)
    ensures Render(functions, ids) == Concat(BodyLines(lines, places, ids))
  {
    hide Select;
    if ids != [] {
      var n := |ids| - 1;
      BodyText(lines, places, common, current, functions, ids[..n]);
      ConcatAppend(BodyLines(lines, places, ids[..n]), Select(lines, places, Function(ids[n])));
    }
  }

  lemma {:induction false} BodyHasNoNamespaceLines(lines: seq<string>, places: seq<Place>, functions: nat, target: nat, ids: seq<nat>)
    requires |lines| == |places| && AllWellPlaced(lines, places, functions, target)
    ensures NoNamespaceLines(BodyLines(lines, places, ids))
  {
    hide AllWellPlaced, Select;
    if ids != [] {
      var n := |ids| - 1;
      BodyHasNoNamespaceLines(lines, places, functions, target, ids[..n]);
      FunctionsHaveNoNamespaceLines(lines, places, functions, target, ids[n]);
    }
  }

  lemma FileText(lines: seq<string>, places: seq<Place>, target: nat, common: string, current: string,
                 functions: seq<string>, ids: seq<nat>)
    requires |lines| == |places| && Texts(lines, places, common, current, functions) && InBounds(ids, |functions|)
    ensures common + Concat(Opened(lines, target)) + Render(functions, ids) + Concat(Closed(lines, target))
         == Concat(FileLines(lines, places, target, ids))
  {
    hide Select, Opened, Closed, BodyLines, Concat, Render;
    var a, b, c, d := Select(lines, places, Common), Opened(lines, target), BodyLines(lines, places, ids), Closed(lines, target);
    BodyText(lines, places, common, current, functions, ids);
    ConcatAppend(a, b);
    ConcatAppend(a + b, c);
    ConcatAppend(a + b + c, d);
  }

  // Every output file is put together from lines of the source: the common ones and those of its own functions. Each
  // function is in one file. For a well-nested source the files are as FileOk says.
  ghost predicate SplitOk(lines: seq<string>, target: nat, files: seq<string>,
                          places: seq<Place>, home: seq<nat>, ids: seq<seq<nat>>)
  {
    && |places| == |lines| && AllWellPlaced(lines, places, |home|, target)
    && Blank(Concat(Select(lines, places, Pending)))
    && |ids| == |files| && EachOnce(ids, home)
    && (forall f | 0 <= f < |files| :: FileOk(lines, target, files[f], places, ids[f]))
  }

  // Read back, the file has the lines it was put together from, and is well nested, exactly if the source is terminated.
  ghost predicate FileOk(lines: seq<string>, target: nat, file: string, places: seq<Place>, ids: seq<nat>)
    requires |places| == |lines|
  {
    && file == Concat(FileLines(lines, places, target, ids))
    && (WellNested(lines) ==>
          && (LinesOf(file) == FileLines(lines, places, target, ids) <==> Terminated(lines))
          && (WellNested(LinesOf(file)) <==> Terminated(lines))
          && NamespacesKept(lines, target, places, LinesOf(file), ids))
  }

  ghost predicate NamespacesKept(lines: seq<string>, target: nat, places: seq<Place>, read: seq<string>, ids: seq<nat>)
    requires |places| == |lines|
  {
    var start := |Select(lines, places, Common)| + |Opened(lines, target)| - if Terminated(lines) then 0 else 1;
    && start >= 0 && |BodyIndices(places, ids)| == |BodyLines(lines, places, ids)|
    && forall b | 0 <= b < |BodyIndices(places, ids)| ::
         LineKept(lines, target, places, read, start + b, BodyIndices(places, ids)[b])
  }

  // Line q of the file as read is line j of the source, a function's. It is in the namespaces the source opens at the
  // outer levels, without the first one if the source is not terminated. These are the namespaces it was in, for a
  // terminated source, exactly if the source opens just target of them.
  ghost predicate LineKept(lines: seq<string>, target: nat, places: seq<Place>, read: seq<string>, q: nat, j: nat)
    requires |places| == |lines|
  {
    var up := Opened(lines, target);
    && q < |read| && j < |lines| && places[j].Function? && read[q] == lines[j]
    && up != [] && Enclosing(read[..q]) == (if Terminated(lines) then up else up[1..])
    && (Terminated(lines) ==> (Enclosing(read[..q]) == Enclosing(lines[..j]) <==> |up| == target))
    && (!Terminated(lines) && |up| == target ==> Enclosing(read[..q]) != Enclosing(lines[..j]))
  }

  lemma {:induction false} BodyIsWholeLines(lines: seq<string>, places: seq<Place>, ids: seq<nat>)
    requires |lines| == |places| && forall j | 0 <= j < |lines| && places[j].Function? :: Whole(lines[j])
    ensures AllWhole(BodyLines(lines, places, ids))
  {
    hide Whole, Select;
    if ids != [] {
      BodyIsWholeLines(lines, places, ids[..|ids| - 1]);
      SelectWhole(lines, places, Function(ids[|ids| - 1]));
    }
  }

  lemma SplitsInto(lines: seq<string>, target: nat, ids: seq<nat>)
    requires AreLines(lines) && WellNested(lines) && target >= 1 && PlanOf(lines, target).functions >= 1
    requires AllWellPlaced(lines, PlanOf(lines, target).places, PlanOf(lines, target).functions, target)
    ensures var places := PlanOf(lines, target).places; Splits(lines, places, target, BodyLines(lines, places, ids))
  {
    hide AllWellPlaced, WellNested, PlanOf, Whole, Stub, AreLines;
    var plan := PlanOf(lines, target);
    if lines != [] { LastPlace(lines, target); }
    forall j | 0 <= j < |lines| && plan.places[j].Function? ensures Whole(lines[j]) {
      EarlierLineIsWhole(lines, j);
    }
    BodyIsWholeLines(lines, plan.places, ids);
    BodyHasNoNamespaceLines(lines, plan.places, plan.functions, target, ids);
  }

  lemma NamespacesAreKept(lines: seq<string>, places: seq<Place>, target: nat, ids: seq<nat>)
    requires |lines| == |places| && Splits(lines, places, target, BodyLines(lines, places, ids))
    ensures NamespacesKept(lines, target, places, AsRead(lines, places, target, BodyLines(lines, places, ids)), ids)
  {
    hide AllWellPlaced, Select, Opened, Closed, BodyLines, BodyIndices, WellNested, NoNamespaceLines, Enclosing, Walk;
    hide AsRead, Terminated, PlanOf, AreLines, AllWhole;
    var up, body := Opened(lines, target), BodyLines(lines, places, ids);
    var read := AsRead(lines, places, target, body);
    var start := |Select(lines, places, Common)| + |up| - if Terminated(lines) then 0 else 1;
    BodyIs(lines, places, ids);
    TextEncloses(lines, places, target, body, 0);
    forall b | 0 <= b < |BodyIndices(places, ids)|
      ensures LineKept(lines, target, places, read, start + b, BodyIndices(places, ids)[b])
    {
      var j := BodyIndices(places, ids)[b];
      TextEncloses(lines, places, target, body, b);
      assert read[start..start + |body|][b] == read[start + b];
      FunctionKeepsItsNamespaces(lines, places, PlanOf(lines, target).functions, target, j);
      FunctionIsAtTarget(lines, places, PlanOf(lines, target).functions, target, j);
    }
  }

  lemma FunctionIsAtTarget(lines: seq<string>, places: seq<Place>, functions: nat, target: nat, j: nat)
    requires j < |lines| == |places| && AllWellPlaced(lines, places, functions, target)
    requires WellNested(lines) && places[j].Function?
    ensures |Enclosing(lines[..j])| == target
  {
    assert WellPlaced(lines, places, functions, target, j);
    WalkPrefix(lines, j);
    OpenedOnce(lines[..j], target);
  }

  lemma FileIsOk(lines: seq<string>, target: nat, common: string, current: string, functions: seq<string>, ids: seq<nat>)
    requires AreLines(lines) && target >= 1 && |functions| == PlanOf(lines, target).functions >= 1
    requires Texts(lines, PlanOf(lines, target).places, common, current, functions) && InBounds(ids, |functions|)
    requires AllWellPlaced(lines, PlanOf(lines, target).places, |functions|, target)
    ensures FileOk(lines, target,
                   common + Concat(Opened(lines, target)) + Render(functions, ids) + Concat(Closed(lines, target)),
                   PlanOf(lines, target).places, ids)
  {
    hide AllWellPlaced, Texts, Select, Opened, Closed, Concat, Render, BodyLines, WellNested, NamespacesKept;
    hide AsRead, Splits, LinesOf, Terminated, PlanOf, AreLines;
    var places := PlanOf(lines, target).places;
    var body := BodyLines(lines, places, ids);
    FileText(lines, places, target, common, current, functions, ids);
    if WellNested(lines) {
      SplitsInto(lines, target, ids);
      OutputIsRead(lines, places, target, body);
      OutputNestsExactly(lines, places, target, body);
      ReadsAsIs(lines, places, target, body);
      NamespacesAreKept(lines, places, target, ids);
    }
  }

  // The texts of the functions, and the dependency names in them
  ghost function FunctionTexts(lines: seq<string>, places: seq<Place>, functions: nat): (texts: seq<string>)
    requires |lines| == |places|
    ensures |texts| == functions
  {
    seq(functions, k requires 0 <= k => Concat(Select(lines, places, Function(k))))
  }

  ghost function UsesOf(texts: seq<string>, namesIn: string -> seq<string>, isGenerated: bool): (uses: seq<set<string>>)
    ensures |uses| == |texts|
  {
    seq(|texts|, k requires 0 <= k < |texts| => Uses(namesIn(texts[k]), isGenerated))
  }

  lemma TextsAre(lines: seq<string>, places: seq<Place>, common: string, current: string, functions: seq<string>)
    requires |lines| == |places| && Texts(lines, places, common, current, functions)
    ensures functions == FunctionTexts(lines, places, |functions|)
    ensures current == Concat(Select(lines, places, Pending))
  {
    hide Select, Concat;
  }

  lemma UsesAre(functions: seq<string>, matches: seq<seq<string>>, namesIn: string -> seq<string>, isGenerated: bool)
    requires |matches| == |functions| && forall i | 0 <= i < |functions| :: matches[i] == namesIn(functions[i])
    ensures AllUses(matches, isGenerated) == UsesOf(functions, namesIn, isGenerated)
  {
    hide Uses;
  }

  // The places of the lines decide between the outcomes: a file is refused for a tail that is not blank, left alone
  // for too few functions, and else split so that connected functions stay together and no file is much bigger than
  // it has to be. namesIn gives the dependency names found in a function, in order.
  method SplitIntoFiles(source: string, isGenerated: bool, chunks: nat, namesIn: string -> seq<string>)
    returns (result: Result, ghost home: seq<nat>, ghost ids: seq<seq<nat>>, ghost sizes: seq<nat>)
    requires chunks >= 1
    ensures var lines := LinesOf(source);
            var plan := PlanOf(lines, Target(isGenerated));
            var tail := Concat(Select(lines, plan.places, Pending));
            if !Blank(tail) then result == LeftOver(tail)
            else if plan.functions < chunks then result == TooSmall
            else result.Files? && |result.contents| == chunks
    ensures result.Files? ==>
              var lines := LinesOf(source);
              var plan := PlanOf(lines, Target(isGenerated));
              var texts := FunctionTexts(lines, plan.places, plan.functions);
              && |home| == plan.functions && |sizes| == chunks
              && SplitOk(lines, Target(isGenerated), result.contents, plan.places, home, ids)
              && Placement(UsesOf(texts, namesIn, isGenerated), home, chunks)
              && (forall f | 0 <= f < chunks :: sizes[f] == Load(Weights(texts), home, f))
              && |ids| == chunks
              && (forall f | 0 <= f < chunks ::
                    Measures(texts, ids[f], sizes[f], Concat(BodyLines(lines, plan.places, ids[f]))))
              && NearlyBest(texts, UsesOf(texts, namesIn, isGenerated), sizes)
  {
    hide Texts, AllWellPlaced, IsStatic, Depth, Opened, Closed, Concat, Select, Blank, Uses, Connected, PlanOf, NextPlan;
    hide NearlyBest, SplitOk, Load, Weights, LinesOf, AreLines, Measures, BodyLines, Render, IsTd;
    home, ids, sizes := [], [], [];
    var lines := LinesOf(source);
    LinesOfAre(source);
    var splitter, outcome := SplitLines(lines, isGenerated);
    ghost var places := splitter.places;
    TextsAre(lines, places, splitter.common, splitter.current, splitter.functions);
    if outcome.Unfinished? {
      return LeftOver(outcome.current), home, ids, sizes;
    }
    var functions := splitter.functions;
    if |functions| < chunks {
      return TooSmall, home, ids, sizes;
    }
    var matches := seq(|functions|, i requires 0 <= i < |functions| => namesIn(functions[i]));
    var bodies, fileSizes;
    bodies, fileSizes, home, ids := SplitFunctions(functions, matches, isGenerated, chunks);
    sizes := fileSizes;
    UsesAre(functions, matches, namesIn, isGenerated);
    var common, begin, end := splitter.common, splitter.namespaceBegin, splitter.namespaceEnd;
    var contents := seq(chunks, f requires 0 <= f < |bodies| => common + begin + bodies[f] + end);
    BodiesAre(lines, places, splitter.common, splitter.current, functions, bodies, ids);
    SplitIsOk(lines, splitter.targetDepth, common, splitter.current, functions, bodies, contents, home, ids);
    result := Files(contents);
  }

  lemma BodiesAre(lines: seq<string>, places: seq<Place>, common: string, current: string, functions: seq<string>,
                  bodies: seq<string>, ids: seq<seq<nat>>)
    requires |lines| == |places| && Texts(lines, places, common, current, functions) && Renders(functions, bodies, ids)
    ensures forall f | 0 <= f < |bodies| :: bodies[f] == Concat(BodyLines(lines, places, ids[f]))
  {
    hide Texts, Select, Concat, BodyLines, Render;
    forall f | 0 <= f < |bodies| ensures bodies[f] == Concat(BodyLines(lines, places, ids[f])) {
      BodyText(lines, places, common, current, functions, ids[f]);
    }
  }

  lemma SplitIsOk(lines: seq<string>, target: nat, common: string, current: string, functions: seq<string>,
                  bodies: seq<string>, contents: seq<string>, home: seq<nat>, ids: seq<seq<nat>>)
    requires AreLines(lines) && target >= 1 && |functions| == PlanOf(lines, target).functions >= 1
    requires Texts(lines, PlanOf(lines, target).places, common, current, functions) && Blank(current)
    requires AllWellPlaced(lines, PlanOf(lines, target).places, |functions|, target) && |home| == |functions|
    requires Renders(functions, bodies, ids) && EachOnce(ids, home) && |contents| == |bodies|
    requires forall f | 0 <= f < |bodies| ::
               contents[f] == common + Concat(Opened(lines, target)) + bodies[f] + Concat(Closed(lines, target))
    ensures SplitOk(lines, target, contents, PlanOf(lines, target).places, home, ids)
  {
    hide AllWellPlaced, Texts, Select, Opened, Closed, Concat, Render, FileOk, EachOnce, Blank, PlanOf, AreLines;
    var places := PlanOf(lines, target).places;
    CurrentText(lines, places, common, current, functions);
    forall f | 0 <= f < |contents| ensures FileOk(lines, target, contents[f], places, ids[f]) {
      FileIsOk(lines, target, common, current, functions, ids[f]);
    }
  }

  // ---------- a source that is not terminated ----------

  lemma NothingStatic(two: seq<string>)
    requires |two| == 2
    ensures !IsStatic(two, [Common, Function(1)])
  {
  }

  lemma ClosingLine(two: seq<string>, line: string)
    requires |two| == 2 && Change(line) == -1
    ensures NextPlan(two, Plan([Common, Function(1)], 2, false), line, 1) == Plan([Common, Function(1), Common], 3, false)
  {
    hide Blank, Concat, Select, Depth, IsStatic, EndsBlock;
    NothingStatic(two);
    assert Settle([Common, Function(1)], Function(2)) == [Common, Function(1)];
    assert [Common, Function(1)] + [Common] == [Common, Function(1), Common];
  }

  lemma LastCloses(lines: seq<string>)
    requires |lines| == 3 && PlanOf(lines[..2], 1) == Plan([Common, Function(1)], 2, false) && Change(lines[2]) == -1
    ensures PlanOf(lines, 1) == Plan([Common, Function(1), Common], 3, false)
  {
    hide NextPlan;
    ClosingLine(lines[..2], lines[2]);
  }

  lemma SelectThree(lines: seq<string>, places: seq<Place>, d: Place)
    requires |lines| == 3 && places == [Common, Function(1), Common]
    ensures Select(lines, places, d)
         == if d == Common then [lines[0], lines[2]] else if d == Function(1) then [lines[1]] else []
  {
    hide Select, SelectUpto;
    SelectOne(lines, places, 0, d);
    SelectOne(lines, places, 1, d);
    SelectOne(lines, places, 2, d);
  }

  lemma ThreeLines(lines: seq<string>)
    requires |lines| == 3 && Change(lines[0]) == 1 && Change(lines[1]) == 0 && Change(lines[2]) == -1
    ensures WellNested(lines) && Opened(lines, 1) == [lines[0]] && Closed(lines, 1) == [lines[2]]
  {
    hide Change, Upto, Walk, Depth, Opened, Closed;
    NoLine(lines, 1);
    OneLine(lines, 0, 1);
    OneLine(lines, 1, 1);
    OneLine(lines, 2, 1);
    AllLines(lines, 1);
  }

  lemma PartsOf(lines: seq<string>, places: seq<Place>)
    requires |lines| == 3 && Change(lines[0]) == 1 && Change(lines[1]) == 0 && Change(lines[2]) == -1
    requires places == [Common, Function(1), Common]
    ensures WellNested(lines)
    ensures FileLines(lines, places, 1, [1]) == [lines[0], lines[2], lines[0], lines[1], lines[2]]
  {
    hide Change, Walk, Opened, Closed, Select, WellNested;
    ThreeLines(lines);
    SelectThree(lines, places, Common);
    SelectThree(lines, places, Function(1));
    assert [1][..0] == [];
    assert BodyLines(lines, places, [1]) == [lines[1]];
  }

  // Without a line end after its last line, a well-nested source gives a file whose reopened namespace is part of a
  // comment: the statement is outside and one namespace too many is closed.
  lemma MissingLineEnd(lines: seq<string>)
    requires lines == ["namespace td {\n", "int x;\n", "}  // namespace td"]
    ensures LinesOf(Concat(lines)) == lines && WellNested(lines) && !Terminated(lines)
    ensures PlanOf(lines, 1).places == [Common, Function(1), Common]
    ensures var file := Concat(FileLines(lines, [Common, Function(1), Common], 1, [1]));
            && LinesOf(file) == ["namespace td {\n", "}  // namespace tdnamespace td {\n", "int x;\n", "}  // namespace td"]
            && !WellNested(LinesOf(file))
  {
    hide Change, PlanOf, EndsStatement, FileLines, WellNested, LinesOf, Concat, Whole, Stub;
    var a, b, c := lines[0], lines[1], lines[2];
    LineKinds(a, b, c);
    assert lines == [a, b, c];
    PartsOf(lines, [Common, Function(1), Common]);
    StatementIsFunction(lines);
    LastCloses(lines);
    EndsOf(a, b, c);
    ReadBack(lines);
    ReadMerged(a, b, c);
    MergedCloses(c, a);
    MergedTooLow([a, c + a, b, c]);
    assert c + a == "}  // namespace tdnamespace td {\n";
  }

  lemma EndsOf(a: string, b: string, c: string)
    requires a == "namespace td {\n" && b == "int x;\n" && c == "}  // namespace td"
    ensures Whole(a) && Whole(b) && Stub(c) && !Whole(c) && !StartsWith(c, "#undef") && AreLines([a, b, c])
  {
    assert a[..14] == "namespace td {" && a[14] == '\n' && b[..6] == "int x;" && b[6] == '\n';
    assert c[0] == '}' && c[17] == 'd';
    assert [a, b, c][..2] == [a, b];
  }

  lemma ReadMerged(a: string, b: string, c: string)
    requires Whole(a) && Whole(b) && Stub(c)
    ensures LinesOf(Concat([a, c, a, b, c])) == [a, c + a, b, c]
  {
    JoinIsWhole(c, a);
    hide Whole, Stub, LinesOf, Concat;
    var before, up: seq<string> := [a], [a];
    JoinedText(before, c, up);
    SameText(before + [c + up[0]] + up[1..], before + [c] + up, [b], [c]);
    assert before + [c + up[0]] + up[1..] + [b] + [c] == [a, c + a, b, c];
    assert before + [c] + up + [b] + [c] == [a, c, a, b, c];
    WholeThenLast([a, c + a, b], [c]);
    assert [a, c + a, b] + [c] == [a, c + a, b, c];
    ReadBack([a, c + a, b, c]);
  }

  lemma MergedTooLow(lines: seq<string>)
    requires |lines| == 4 && Change(lines[0]) == 1 && Change(lines[1]) == -1 && Change(lines[2]) == 0 && Change(lines[3]) == -1
    ensures !WellNested(lines)
  {
    hide Change, Upto, Walk, Depth, Opened, Closed;
    NoLine(lines, 1);
    OneLine(lines, 0, 1);
    OneLine(lines, 1, 1);
    OneLine(lines, 2, 1);
    OneLine(lines, 3, 1);
    AllLines(lines, 1);
  }

  lemma MergedCloses(last: string, first: string)
    requires Change(last) == -1 && Change(first) == 1
    ensures Change(last + first) == -1
  {
    ChangeIs(last);
    ChangeIs(first);
    MergedOpensNothing(last, first);
    ChangeIs(last + first);
  }
}
