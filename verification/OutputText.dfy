/** The text of the splitter's output files (SplitSource.php, lines 73 and 205). The parts of a file are joined as text,
    so a last source line without a line end runs into the first namespace line put after it. */
module OutputText {
  import opened Basics
  import opened SourceLines
  import opened LineSplitter
  import opened OutputNesting

  // ---------- where the last line goes ----------

  // In a well-nested source the last line is common, unless it is dropped for beginning with #undef.
  lemma LastPlace(lines: seq<string>, target: nat)
    requires lines != [] && WellNested(lines) && target >= 1
    ensures PlanOf(lines, target).places[|lines| - 1] == if StartsWith(lines[|lines| - 1], "#undef") then Dropped else Common
  {
    var n := |lines| - 1;
    var init, last := lines[..n], lines[n];
    WalkIsDepth(lines);
    if IsNamespaceLine(last) {
      assert last[0] != '#';
    } else {
      NothingPending(init, target);
      NonePlaced(init, PlanOf(init, target).places, Pending);
    }
  }

  // ---------- there is a namespace ----------

  lemma {:induction false} FunctionsNeedNamespaces(lines: seq<string>, target: nat)
    requires target >= 1 && NoNamespaceLines(lines)
    ensures PlanOf(lines, target).functions == 0 && Depth(lines) == 0
  {
    hide IsStatic, Blank, Concat, Select, EndsBlock;
    if lines != [] {
      var n := |lines| - 1;
      FunctionsNeedNamespaces(lines[..n], target);
      assert !IsNamespaceLine(lines[n]);
    }
  }

  lemma {:induction false} NamespaceIsOpened(lines: seq<string>, target: nat)
    requires target >= 1 && Walk(0, lines) >= 0
    ensures NoNamespaceLines(lines) || Opened(lines, target) != []
  {
    if lines != [] {
      var n := |lines| - 1;
      NamespaceIsOpened(lines[..n], target);
      if NoNamespaceLines(lines[..n]) {
        FunctionsNeedNamespaces(lines[..n], target);
        WalkNeutral(0, lines[..n]);
        assert lines == lines[..n] + [lines[n]];
      }
    }
  }

  // ---------- whole lines ----------

  lemma {:induction false} SelectWhole(lines: seq<string>, places: seq<Place>, d: Place)
    requires |lines| == |places| && forall j | 0 <= j < |lines| && places[j] == d :: Whole(lines[j])
    ensures AllWhole(Select(lines, places, d))
  {
    hide Whole;
    if lines != [] { SelectWhole(lines[..|lines| - 1], places[..|places| - 1], d); }
  }

  lemma {:induction false} NamespacesWhole(lines: seq<string>, target: nat)
    requires forall j | 0 <= j < |lines| && IsNamespaceLine(lines[j]) :: Whole(lines[j])
    ensures AllWhole(Opened(lines, target)) && AllWhole(Closed(lines, target))
  {
    hide Whole, Depth;
    if lines != [] { NamespacesWhole(lines[..|lines| - 1], target); }
  }

  // ---------- an output file ----------

  ghost function Output(lines: seq<string>, places: seq<Place>, target: nat, body: seq<string>): seq<string>
    requires |lines| == |places|
  {
    Select(lines, places, Common) + Opened(lines, target) + body + Closed(lines, target)
  }

  // The last source line has its line end, or it is dropped.
  predicate Terminated(lines: seq<string>) {
    lines != [] ==> Whole(lines[|lines| - 1]) || StartsWith(lines[|lines| - 1], "#undef")
  }

  // The lines of the file as it is read: without a line end, the last source line merges with the first namespace line.
  ghost function AsRead(lines: seq<string>, places: seq<Place>, target: nat, body: seq<string>): seq<string>
    requires |lines| == |places|
  {
    var common, up := Select(lines, places, Common), Opened(lines, target);
    if Terminated(lines) || common == [] || up == [] then Output(lines, places, target, body)
    else common[..|common| - 1] + [common[|common| - 1] + up[0]] + up[1..] + body + Closed(lines, target)
  }

  // What is known of a source that is split.
  ghost predicate Splits(lines: seq<string>, places: seq<Place>, target: nat, body: seq<string>) {
    && AreLines(lines) && WellNested(lines) && target >= 1
    && PlanOf(lines, target).functions >= 1 && places == PlanOf(lines, target).places
    && AllWellPlaced(lines, places, PlanOf(lines, target).functions, target)
    && NoNamespaceLines(body) && AllWhole(body)
  }

  lemma EarlierLineIsWhole(lines: seq<string>, j: nat)
    requires AreLines(lines) && j < |lines| && (j < |lines| - 1 || Whole(lines[j]))
    ensures Whole(lines[j])
  {
    if j < |lines| - 1 { assert lines[..|lines| - 1][j] == lines[j]; }
  }

  lemma TerminatedIsWhole(lines: seq<string>, places: seq<Place>, target: nat, body: seq<string>)
    requires |lines| == |places| && Splits(lines, places, target, body) && Terminated(lines)
    ensures AllWhole(Output(lines, places, target, body))
  {
    hide Whole, Stub, PlanOf, AllWellPlaced, WellNested, Select, Opened, Closed, AreLines;
    if lines != [] { LastPlace(lines, target); }
    forall j | 0 <= j < |lines| && places[j] == Common ensures Whole(lines[j]) {
      EarlierLineIsWhole(lines, j);
    }
    forall j | 0 <= j < |lines| && IsNamespaceLine(lines[j]) ensures Whole(lines[j]) {
      assert lines[j][0] != '#';
      EarlierLineIsWhole(lines, j);
    }
    SelectWhole(lines, places, Common);
    NamespacesWhole(lines, target);
  }

  // The parts of a file whose source ends in a line without a line end
  lemma UnterminatedParts(lines: seq<string>, places: seq<Place>, target: nat, body: seq<string>)
    requires |lines| == |places| && Splits(lines, places, target, body) && !Terminated(lines)
    ensures lines != []
    ensures var n := |lines| - 1;
            var init, last := lines[..n], lines[n];
            && Stub(last) && places[n] == Common
            && Select(lines, places, Common) == Select(init, places[..n], Common) + [last]
            && Opened(lines, target) == Opened(init, target) != []
            && Closed(lines, target) == Closed(init, target) + (if Closes(last) then [last] else [])
            && Walk(0, init) == (if Closes(last) then 1 else 0) && !Opens(last)
  {
    hide Whole, Stub, PlanOf, AllWellPlaced, NoNamespaceLines;
    var n := |lines| - 1;
    LastPlace(lines, target);
    NamespaceIsOpened(lines, target);
    if NoNamespaceLines(lines) { FunctionsNeedNamespaces(lines, target); }
    WalkIsDepth(lines[..n]);
  }

  lemma UnterminatedIsWhole(lines: seq<string>, places: seq<Place>, target: nat, body: seq<string>)
    requires |lines| == |places| && Splits(lines, places, target, body) && !Terminated(lines)
    ensures var n := |lines| - 1;
            && AllWhole(Select(lines[..n], places[..n], Common))
            && AllWhole(Opened(lines[..n], target)) && AllWhole(Closed(lines[..n], target))
  {
    hide Whole, Stub, PlanOf, AllWellPlaced, WellNested, Select, Opened, Closed;
    var n := |lines| - 1;
    SelectWhole(lines[..n], places[..n], Common);
    NamespacesWhole(lines[..n], target);
  }

  lemma JoinIsWhole(last: string, first: string)
    requires Stub(last) && Whole(first)
    ensures Whole(last + first)
  {
    var line := last + first;
    assert line[..|line| - 1] == last + first[..|first| - 1];
  }

  lemma WholeThenLast(before: seq<string>, end: seq<string>)
    requires AllWhole(before) && (end == [] || (|end| == 1 && Stub(end[0])))
    ensures AreLines(before + end)
  {
    hide Whole, Stub;
    var lines := before + end;
    if end == [] {
      assert lines == before;
    } else {
      assert lines[..|lines| - 1] == before;
    }
  }

  lemma JoinedLines(common: seq<string>, last: string, up: seq<string>, body: seq<string>, down: seq<string>, end: seq<string>)
    requires AllWhole(common) && Stub(last) && AllWhole(up) && up != [] && AllWhole(body) && AllWhole(down)
    requires end == [] || end == [last]
    ensures AreLines(common + [last + up[0]] + up[1..] + body + (down + end))
  {
    JoinIsWhole(last, up[0]);
    hide Whole, Stub, AreLines;
    var before := common + [last + up[0]] + up[1..] + body + down;
    WholeThenLast(before, end);
    assert common + [last + up[0]] + up[1..] + body + (down + end) == before + end;
  }

  lemma JoinedText(common: seq<string>, last: string, up: seq<string>)
    requires up != []
    ensures Concat(common + [last + up[0]] + up[1..]) == Concat(common + [last] + up)
  {
    hide Concat;
    var tail := up[1..];
    assert common + [last + up[0]] + tail == common + ([last + up[0]] + tail);
    assert common + [last] + up == common + ([last] + up) && up == [up[0]] + tail;
    ConcatAppend(common, [last + up[0]] + tail);
    ConcatAppend(common, [last] + up);
    ConcatFirst(last + up[0], tail);
    ConcatFirst(last, up);
    ConcatFirst(up[0], tail);
    assert last + up[0] + Concat(tail) == last + (up[0] + Concat(tail));
  }

  lemma SameText(a: seq<string>, a': seq<string>, b: seq<string>, c: seq<string>)
    requires Concat(a) == Concat(a')
    ensures Concat(a + b + c) == Concat(a' + b + c)
  {
    hide Concat;
    ConcatAppend(a, b);
    ConcatAppend(a + b, c);
    ConcatAppend(a', b);
    ConcatAppend(a' + b, c);
  }

  // What the file reads as
  lemma OutputIsRead(lines: seq<string>, places: seq<Place>, target: nat, body: seq<string>)
    requires |lines| == |places| && Splits(lines, places, target, body)
    ensures LinesOf(Concat(Output(lines, places, target, body))) == AsRead(lines, places, target, body)
  {
    hide Whole, Stub, PlanOf, AllWellPlaced, WellNested, Select, Opened, Closed, Concat, LinesOf, Splits, Terminated, Closes;
    var read := AsRead(lines, places, target, body);
    if Terminated(lines) {
      TerminatedIsWhole(lines, places, target, body);
      assert read == Output(lines, places, target, body);
      ReadBack(read);
    } else {
      UnterminatedParts(lines, places, target, body);
      UnterminatedIsWhole(lines, places, target, body);
      var n := |lines| - 1;
      var common, up, down := Select(lines[..n], places[..n], Common), Opened(lines, target), Closed(lines[..n], target);
      var end := if Closes(lines[n]) then [lines[n]] else [];
      assert AllWhole(body) by { BodyIsWhole(lines, places, target, body); }
      JoinedLines(common, lines[n], up, body, down, end);
      JoinedText(common, lines[n], up);
      SameText(common + [lines[n] + up[0]] + up[1..], common + [lines[n]] + up, body, down + end);
      assert (common + [lines[n]])[..|common|] == common;
      assert read == common + [lines[n] + up[0]] + up[1..] + body + (down + end);
      ReadBack(read);
    }
  }

  lemma ReadsAsIs(lines: seq<string>, places: seq<Place>, target: nat, body: seq<string>)
    requires |lines| == |places| && Splits(lines, places, target, body)
    ensures AsRead(lines, places, target, body) == Output(lines, places, target, body) <==> Terminated(lines)
  {
    hide Whole, Stub, PlanOf, AllWellPlaced, WellNested, Select, Opened, Closed, Splits, Terminated;
    if !Terminated(lines) {
      UnterminatedParts(lines, places, target, body);
      assert |AsRead(lines, places, target, body)| == |Output(lines, places, target, body)| - 1;
    }
  }

  lemma BodyIsWhole(lines: seq<string>, places: seq<Place>, target: nat, body: seq<string>)
    requires Splits(lines, places, target, body)
    ensures AllWhole(body)
  {
  }

  // ---------- nesting ----------

  // A merged line does not open a namespace.
  lemma MergedOpensNothing(last: string, first: string)
    requires last != "" && !Opens(last) && Opens(first)
    ensures !Opens(last + first) && (Closes(last) ==> Closes(last + first))
  {
    var line := last + first;
    var word := "namespace ";
    assert forall k | 0 < k < 10 :: word[k] != 'n';
    assert line[|last|] == first[0] == word[0];
    assert line[..|last|] == last;
  }

  lemma {:induction false} WalkBelow(d: int, lines: seq<string>)
    requires -1 <= d < |lines| && forall j | 0 <= j < |lines| :: Closes(lines[j])
    ensures Walk(d, lines) < 0
  {
    if lines != [] {
      var n := |lines| - 1;
      if d < n { WalkBelow(d, lines[..n]); } else { WalkDown(d, lines[..n]); }
    }
  }

  lemma {:induction false} WalkStaysBelow(d: int, lines: seq<string>)
    requires d < 0
    ensures Walk(d, lines) < 0
  {
    if lines != [] { WalkStaysBelow(d, lines[..|lines| - 1]); }
  }

  // The common part up to and with the merged line
  lemma MergedPart(lines: seq<string>, places: seq<Place>, target: nat, body: seq<string>)
    requires |lines| == |places| && Splits(lines, places, target, body) && !Terminated(lines)
    ensures var n, up := |lines| - 1, Opened(lines, target);
            && up != []
            && var part := Select(lines[..n], places[..n], Common) + [lines[n] + up[0]];
               Walk(0, part) <= 0 && Enclosing(part) == []
  {
    hide Whole, Stub, PlanOf, Select;
    UnterminatedParts(lines, places, target, body);
    var n, up := |lines| - 1, Opened(lines, target);
    var init, last := lines[..n], lines[n];
    var common := Select(init, places[..n], Common);
    OpenedMinusClosed(lines, target);
    assert last != "" by { EveryLineIsSome(lines, n); }
    MergedOpensNothing(last, up[0]);
    forall j | 0 <= j < n && IsNamespaceLine(init[j]) ensures places[..n][j] == Common {
      NamespaceLinesAreCommon(lines, places, PlanOf(lines, target).functions, target, j);
    }
    CommonNestsAlike(init, places[..n]);
    WalkIsDepth(common);
    OpenedOnce(common, target);
    assert (common + [last + up[0]])[..|common|] == common;
  }

  lemma EveryLineIsSome(lines: seq<string>, j: nat)
    requires AreLines(lines) && j < |lines|
    ensures lines[j] != ""
  {
    if j < |lines| - 1 { EarlierLineIsWhole(lines, j); }
  }

  // Every output file of a well-nested source is well nested exactly if the source is terminated.
  lemma OutputNestsExactly(lines: seq<string>, places: seq<Place>, target: nat, body: seq<string>)
    requires |lines| == |places| && Splits(lines, places, target, body)
    ensures WellNested(AsRead(lines, places, target, body)) <==> Terminated(lines)
  {
    hide Whole, Stub, PlanOf, AllWellPlaced, Select, Opened, Closed, Depth, Closes, Opens, Terminated, AreLines;
    if Terminated(lines) {
      OutputIsWellNested(lines, places, PlanOf(lines, target).functions, target, body);
    } else {
      UnterminatedParts(lines, places, target, body);
      MergedPart(lines, places, target, body);
      WalkIsDepth(lines);
      OpenedMinusClosed(lines, target);
      var n, up, down := |lines| - 1, Opened(lines, target), Closed(lines, target);
      var common := Select(lines[..n], places[..n], Common);
      var part := common + [lines[n] + up[0]];
      assert (common + [lines[n]])[..|common|] == common;
      assert AsRead(lines, places, target, body) == part + up[1..] + body + down;
      NestsTooLow(part, up[1..], body, down);
    }
  }

  lemma NestsTooLow(part: seq<string>, up: seq<string>, body: seq<string>, down: seq<string>)
    requires Walk(0, part) <= 0 && NoNamespaceLines(body) && |down| == |up| + 1
    requires (forall j | 0 <= j < |up| :: Opens(up[j])) && (forall j | 0 <= j < |down| :: Closes(down[j]))
    ensures !WellNested(part + up + body + down)
  {
    hide Opens, Closes, NoNamespaceLines, Walk;
    WalkAppend(0, part, up);
    WalkAppend(0, part + up, body);
    WalkAppend(0, part + up + body, down);
    if Walk(0, part) < 0 {
      WalkStaysBelow(Walk(0, part), up);
      WalkStaysBelow(Walk(0, part + up), body);
      WalkStaysBelow(Walk(0, part + up + body), down);
    } else {
      WalkUp(0, up);
      WalkNeutral(|up|, body);
      WalkBelow(|up|, down);
    }
  }

  // In the file as read, the functions are in the namespaces opened before them all, or in all but the first of those.
  lemma TextEncloses(lines: seq<string>, places: seq<Place>, target: nat, body: seq<string>, b: nat)
    requires |lines| == |places| && Splits(lines, places, target, body) && b <= |body|
    ensures var up, read := Opened(lines, target), AsRead(lines, places, target, body);
            var start := |Select(lines, places, Common)| + |up| - if Terminated(lines) then 0 else 1;
            && up != [] && 0 <= start && start + |body| <= |read| && read[start..start + |body|] == body
            && Enclosing(read[..start + b]) == if Terminated(lines) then up else up[1..]
  {
    hide Whole, Stub, PlanOf, AllWellPlaced, Select, Opened, Closed, Depth, Closes, Opens, AreLines, Terminated, Enclosing, Walk;
    var up, read, common := Opened(lines, target), AsRead(lines, places, target, body), Select(lines, places, Common);
    var before := body[..b];
    SomethingOpened(lines, places, target, body);
    assert NoNamespaceLines(before);
    if Terminated(lines) {
      OutputEncloses(lines, places, PlanOf(lines, target).functions, target, before);
      assert read[..|common| + |up| + b] == common + up + before;
    } else {
      UnterminatedParts(lines, places, target, body);
      MergedPart(lines, places, target, body);
      OpenedMinusClosed(lines, target);
      var n := |lines| - 1;
      var part := Select(lines[..n], places[..n], Common) + [lines[n] + up[0]];
      assert common[..|common| - 1] == Select(lines[..n], places[..n], Common);
      assert read[..|common| + |up| - 1 + b] == part + up[1..] + before;
      EnclosingUp(part, up[1..]);
      EnclosingNeutral(part + up[1..], before);
    }
  }

  lemma SomethingOpened(lines: seq<string>, places: seq<Place>, target: nat, body: seq<string>)
    requires |lines| == |places| && Splits(lines, places, target, body)
    ensures Opened(lines, target) != []
  {
    hide Whole, Stub, PlanOf, AllWellPlaced, NoNamespaceLines;
    NamespaceIsOpened(lines, target);
    if NoNamespaceLines(lines) { FunctionsNeedNamespaces(lines, target); }
  }
}
