/** What the splitter's output files look like (SplitSource.php, lines 84-109 and 205): each is the common
    part, the opening namespace lines, some function blocks and the closing namespace lines. */
module OutputNesting {
  import opened Basics
  import opened LineSplitter

  // The depth after the lines, or a negative number as soon as more namespaces are closed than were open.
  function Walk(d: int, lines: seq<string>): int {
    if lines == [] then d
    else
      var w := Walk(d, lines[..|lines| - 1]);
      if w < 0 then w else w + Change(lines[|lines| - 1])
  }

  ghost predicate WellNested(lines: seq<string>) {
    Walk(0, lines) == 0
  }

  // The lines of the namespaces open after the given lines, outermost first.
  function Enclosing(lines: seq<string>): seq<string> {
    if lines == [] then []
    else
      var n := |lines| - 1;
      var open := Enclosing(lines[..n]);
      if Opens(lines[n]) then open + [lines[n]]
      else if Closes(lines[n]) && open != [] then open[..|open| - 1]
      else open
  }

  ghost predicate NoNamespaceLines(lines: seq<string>) {
    forall j | 0 <= j < |lines| :: !IsNamespaceLine(lines[j])
  }

  lemma {:induction false} WalkAppend(d: int, a: seq<string>, b: seq<string>)
    ensures Walk(d, a + b) == Walk(Walk(d, a), b)
  {
    if b == [] {
      assert a + b == a;
    } else {
      WalkAppend(d, a, b[..|b| - 1]);
      assert (a + b)[..|a + b| - 1] == a + b[..|b| - 1];
    }
  }

  lemma {:induction false} WalkNeutral(d: int, lines: seq<string>)
    requires NoNamespaceLines(lines)
    ensures Walk(d, lines) == d
  {
    if lines != [] { WalkNeutral(d, lines[..|lines| - 1]); }
  }

  lemma {:induction false} WalkUp(d: int, lines: seq<string>)
    requires d >= 0 && forall j | 0 <= j < |lines| :: Opens(lines[j])
    ensures Walk(d, lines) == d + |lines|
  {
    if lines != [] { WalkUp(d, lines[..|lines| - 1]); }
  }

  lemma {:induction false} WalkDown(d: int, lines: seq<string>)
    requires d >= |lines| && forall j | 0 <= j < |lines| :: Closes(lines[j])
    ensures Walk(d, lines) == d - |lines|
  {
    if lines != [] { WalkDown(d, lines[..|lines| - 1]); }
  }

  lemma {:induction false} WalkIsDepth(lines: seq<string>)
    requires Walk(0, lines) >= 0
    ensures Walk(0, lines) == Depth(lines)
  {
    if lines != [] { WalkIsDepth(lines[..|lines| - 1]); }
  }

  // A file that never closes more than it opened opens min(depth, target) more outer levels than it closes.
  lemma {:induction false} OpenedMinusClosed(lines: seq<string>, target: nat)
    requires Walk(0, lines) >= 0
    ensures |Opened(lines, target)| - |Closed(lines, target)| == if Depth(lines) < target then Depth(lines) else target
    ensures forall j | 0 <= j < |Opened(lines, target)| :: Opens(Opened(lines, target)[j])
    ensures forall j | 0 <= j < |Closed(lines, target)| :: Closes(Closed(lines, target)[j])
  {
    WalkIsDepth(lines);
    if lines != [] {
      WalkIsDepth(lines[..|lines| - 1]);
      OpenedMinusClosed(lines[..|lines| - 1], target);
    }
  }

  // Every namespace line is part of the common text ...
  lemma NamespaceLinesAreCommon(lines: seq<string>, places: seq<Place>, functions: nat, target: nat, j: nat)
    requires j < |lines| == |places| && AllWellPlaced(lines, places, functions, target) && IsNamespaceLine(lines[j])
    ensures places[j] == Common
  {
    assert lines[j][0] != '#';
    assert WellPlaced(lines, places, functions, target, j);
  }

  // ... so the common text nests as the source does.
  lemma {:induction false} CommonNestsAlike(lines: seq<string>, places: seq<Place>)
    requires |lines| == |places| && forall j | 0 <= j < |lines| && IsNamespaceLine(lines[j]) :: places[j] == Common
    ensures Walk(0, Select(lines, places, Common)) == Walk(0, lines)
  {
    hide Walk, Select, IsNamespaceLine;
    if lines == [] {
      NothingSelected();
    } else {
      var n := |lines| - 1;
      CommonNestsAlike(lines[..n], places[..n]);
      SelectStep(lines, places, Common);
      WalkLast(lines[..n], lines[n]);
      WalkLast(Select(lines[..n], places[..n], Common), lines[n]);
      assert lines == lines[..n] + [lines[n]];
    }
  }

  lemma NothingSelected()
    ensures Select([], [], Common) == []
  {
  }

  lemma WalkLast(lines: seq<string>, line: string)
    ensures var w := Walk(0, lines); Walk(0, lines + [line]) == if w < 0 then w else w + Change(line)
    ensures !IsNamespaceLine(line) ==> Change(line) == 0
  {
    OneMore(lines, line);
  }

  // Every output file of a well-nested source is well nested.
  lemma OutputIsWellNested(lines: seq<string>, places: seq<Place>, functions: nat, target: nat, body: seq<string>)
    requires |lines| == |places| && AllWellPlaced(lines, places, functions, target)
    requires WellNested(lines) && NoNamespaceLines(body)
    ensures WellNested(Select(lines, places, Common) + Opened(lines, target) + body + Closed(lines, target))
  {
    hide AllWellPlaced, Opened, Closed, Depth, Select;
    var common, up, down := Select(lines, places, Common), Opened(lines, target), Closed(lines, target);
    forall j | 0 <= j < |lines| && IsNamespaceLine(lines[j]) ensures places[j] == Common {
      NamespaceLinesAreCommon(lines, places, functions, target, j);
    }
    CommonNestsAlike(lines, places);
    WalkIsDepth(lines);
    OpenedMinusClosed(lines, target);
    WalkAppend(0, common, up);
    WalkUp(0, up);
    WalkAppend(0, common + up, body);
    WalkNeutral(|up|, body);
    WalkAppend(0, common + up + body, down);
    WalkDown(|up|, down);
  }

  lemma {:induction false} FunctionsHaveNoNamespaceLines(lines: seq<string>, places: seq<Place>, functions: nat, target: nat, k: nat)
    requires |lines| == |places| && AllWellPlaced(lines, places, functions, target)
    ensures NoNamespaceLines(Select(lines, places, Function(k)))
  {
    if lines != [] {
      var n := |lines| - 1;
      assert WellPlaced(lines, places, functions, target, n);
      forall j | 0 <= j < n ensures WellPlaced(lines[..n], places[..n], functions, target, j) {
        assert WellPlaced(lines, places, functions, target, j);
        assert lines[..n][..j] == lines[..j];
      }
      FunctionsHaveNoNamespaceLines(lines[..n], places[..n], functions, target, k);
    }
  }

  // ---------- the namespaces around a function ----------

  ghost function Least(a: int, b: nat): int {
    if a < b then a else b
  }

  // As long as no outer level was opened twice, the outer levels opened are the ones still open.
  lemma {:induction false} OpenedOnce(lines: seq<string>, target: nat)
    requires Walk(0, lines) >= 0
    ensures |Enclosing(lines)| == Depth(lines)
    ensures |Opened(lines, target)| >= Least(Depth(lines), target)
    ensures |Opened(lines, target)| == Least(Depth(lines), target) ==>
              Opened(lines, target) == Enclosing(lines)[..Least(Depth(lines), target)]
  {
    WalkIsDepth(lines);
    if lines != [] {
      var n := |lines| - 1;
      WalkIsDepth(lines[..n]);
      OpenedOnce(lines[..n], target);
    }
  }

  lemma {:induction false} OpenedGrows(lines: seq<string>, j: nat, target: nat)
    requires j <= |lines|
    ensures Opened(lines[..j], target) <= Opened(lines, target)
  {
    if j < |lines| {
      OpenedGrows(lines[..|lines| - 1], j, target);
      assert lines[..|lines| - 1][..j] == lines[..j];
    } else {
      assert lines[..j] == lines;
    }
  }

  lemma {:induction false} WalkPrefix(lines: seq<string>, j: nat)
    requires j <= |lines| && Walk(0, lines) >= 0
    ensures Walk(0, lines[..j]) >= 0
  {
    if j < |lines| {
      WalkPrefix(lines[..|lines| - 1], j);
      assert lines[..|lines| - 1][..j] == lines[..j];
    } else {
      assert lines[..j] == lines;
    }
  }

  // The namespace lines put before the functions are those that enclose a function in the source exactly
  // when the source opens no more than target namespaces at the outer levels.
  lemma FunctionKeepsItsNamespaces(lines: seq<string>, places: seq<Place>, functions: nat, target: nat, j: nat)
    requires j < |lines| == |places| && AllWellPlaced(lines, places, functions, target)
    requires WellNested(lines) && places[j].Function?
    ensures Enclosing(lines[..j]) == Opened(lines, target) <==> |Opened(lines, target)| == target
  {
    assert WellPlaced(lines, places, functions, target, j);
    WalkPrefix(lines, j);
    OpenedOnce(lines[..j], target);
    OpenedGrows(lines, j, target);
  }

  lemma EnclosingLast(lines: seq<string>, line: string)
    ensures Opens(line) ==> Enclosing(lines + [line]) == Enclosing(lines) + [line]
    ensures !IsNamespaceLine(line) ==> Enclosing(lines + [line]) == Enclosing(lines)
  {
    hide Opens, Closes;
    OneMore(lines, line);
  }

  lemma SplitLast(a: seq<string>, b: seq<string>)
    requires b != []
    ensures a + b == (a + b[..|b| - 1]) + [b[|b| - 1]]
  {
  }

  lemma {:induction false} EnclosingUp(a: seq<string>, up: seq<string>)
    requires forall j | 0 <= j < |up| :: Opens(up[j])
    ensures Enclosing(a + up) == Enclosing(a) + up
  {
    hide Enclosing, Opens;
    if up == [] {
      assert a + up == a;
    } else {
      var n := |up| - 1;
      EnclosingUp(a, up[..n]);
      SplitLast(a, up);
      EnclosingLast(a + up[..n], up[n]);
      SplitLast(Enclosing(a), up);
    }
  }

  lemma {:induction false} EnclosingNeutral(a: seq<string>, body: seq<string>)
    requires NoNamespaceLines(body)
    ensures Enclosing(a + body) == Enclosing(a)
  {
    hide Enclosing, IsNamespaceLine;
    if body == [] {
      assert a + body == a;
    } else {
      var n := |body| - 1;
      EnclosingNeutral(a, body[..n]);
      SplitLast(a, body);
      EnclosingLast(a + body[..n], body[n]);
    }
  }

  // In an output file of a well-nested source, every line of a function is in the namespaces opened before them all.
  lemma OutputEncloses(lines: seq<string>, places: seq<Place>, functions: nat, target: nat, body: seq<string>)
    requires |lines| == |places| && AllWellPlaced(lines, places, functions, target)
    requires WellNested(lines) && NoNamespaceLines(body)
    ensures Enclosing(Select(lines, places, Common) + Opened(lines, target) + body) == Opened(lines, target)
  {
    hide AllWellPlaced, Opened, Closed, Select;
    var common, up := Select(lines, places, Common), Opened(lines, target);
    forall j | 0 <= j < |lines| && IsNamespaceLine(lines[j]) ensures places[j] == Common {
      NamespaceLinesAreCommon(lines, places, functions, target, j);
    }
    CommonNestsAlike(lines, places);
    WalkIsDepth(common);
    OpenedOnce(common, target);
    OpenedMinusClosed(lines, target);
    EnclosingUp(common, up);
    EnclosingNeutral(common + up, body);
  }

  lemma ChangeIs(line: string)
    ensures Opens(line) <==> Change(line) == 1
    ensures Closes(line) <==> Change(line) == -1
  {
  }

  // What the first i lines amount to
  ghost function Upto(lines: seq<string>, i: nat, target: nat): (int, int, seq<string>, seq<string>)
    requires i <= |lines|
  {
    (Walk(0, lines[..i]), Depth(lines[..i]), Opened(lines[..i], target), Closed(lines[..i], target))
  }

  lemma OneLine(lines: seq<string>, i: nat, target: nat)
    requires i < |lines| && Upto(lines, i, target).0 >= 0
    ensures var (w, d, up, down) := Upto(lines, i, target);
            var change := Change(lines[i]);
            Upto(lines, i + 1, target) == (w + change, d + change,
                                           if change == 1 && d + 1 <= target then up + [lines[i]] else up,
                                           if change == -1 && d <= target then down + [lines[i]] else down)
  {
    var (w, d, up, down) := Upto(lines, i, target);
    assert lines[..i + 1][..i] == lines[..i];
    assert up + [] == up && down + [] == down;
  }

  lemma NoLine(lines: seq<string>, target: nat)
    ensures Upto(lines, 0, target) == (0, 0, [], [])
  {
  }

  lemma AllLines(lines: seq<string>, target: nat)
    ensures Upto(lines, |lines|, target) == (Walk(0, lines), Depth(lines), Opened(lines, target), Closed(lines, target))
  {
    assert lines[..|lines|] == lines;
  }

  ghost function SelectUpto(lines: seq<string>, places: seq<Place>, i: nat, d: Place): seq<string>
    requires i <= |lines| == |places|
  {
    Select(lines[..i], places[..i], d)
  }

  lemma SelectOne(lines: seq<string>, places: seq<Place>, i: nat, d: Place)
    requires i < |lines| == |places|
    ensures var before := SelectUpto(lines, places, i, d);
            SelectUpto(lines, places, i + 1, d) == if places[i] == d then before + [lines[i]] else before
    ensures SelectUpto(lines, places, 0, d) == []
    ensures SelectUpto(lines, places, |lines|, d) == Select(lines, places, d)
  {
    assert lines[..i + 1][..i] == lines[..i] && places[..i + 1][..i] == places[..i];
    assert lines[..|lines|] == lines && places[..|lines|] == places;
  }

  // A namespace that is opened, closed and opened again
  lemma ReopenedIs(lines: seq<string>)
    requires |lines| == 5 && Change(lines[0]) == Change(lines[3]) == 1 && Change(lines[1]) == 0
    requires Change(lines[2]) == Change(lines[4]) == -1
    ensures WellNested(lines) && Opened(lines, 1) == [lines[0], lines[3]]
  {
    hide Change, Upto, Opened, Walk, Depth, Closed;
    NoLine(lines, 1);
    OneLine(lines, 0, 1);
    OneLine(lines, 1, 1);
    OneLine(lines, 2, 1);
    OneLine(lines, 3, 1);
    OneLine(lines, 4, 1);
    AllLines(lines, 1);
  }

  lemma FirstEncloses(lines: seq<string>)
    requires lines != [] && Change(lines[0]) == 1
    ensures Enclosing(lines[..1]) == [lines[0]]
  {
    ChangeIs(lines[0]);
    assert lines[..1][..0] == [];
  }

  lemma LineKinds(a: string, b: string, c: string)
    requires a == "namespace td {\n" && b == "int x;\n" && c in {"}  // namespace td\n", "}  // namespace td"}
    ensures Change(a) == 1 && Change(b) == 0 && Change(c) == -1 && EndsStatement(b) && b[0] == 'i'
  {
    assert a[..10] == "namespace " && b[0] == 'i' && c[0] == '}' && c[..15] == "}  // namespace";
    assert b[5] == ';' && b[6..] == "\n" && '\n' !in b[1..5];
  }

  // A source that opens a namespace twice: its function ends up one level too deep.
  lemma ReopenedNamespace(lines: seq<string>)
    requires lines ==
             ["namespace td {\n", "int x;\n", "}  // namespace td\n", "namespace td {\n", "}  // namespace td\n"]
    ensures WellNested(lines) && PlanOf(lines, 1).places[1].Function?
    ensures Enclosing(lines[..1]) == [lines[0]] && Opened(lines, 1) == [lines[0], lines[3]]
    ensures Enclosing(lines[..1]) != Opened(lines, 1)
  {
    hide Change, Walk, Depth, Opened, PlanOf, Enclosing, EndsStatement;
    LineKinds(lines[0], lines[1], lines[2]);
    ReopenedIs(lines);
    FirstEncloses(lines);
    StatementIsFunction(lines);
  }

  lemma FirstLineOpens(line: string)
    requires Change(line) == 1
    ensures PlanOf([line], 1) == Plan([Common], 1, false) && Depth([line]) == 1
  {
    var none: seq<string> := [];
    assert [line][..0] == none;
    assert Settle([], Function(0)) == [];
  }

  lemma PlainBlock(one: seq<string>, line: string)
    requires |one| == 1 && !StartsWith(line, "static ") && !StartsWith(line, "#define ")
    ensures !IsStatic(one + [line], [Common, Pending])
  {
  }

  lemma NextIsFunction(one: seq<string>, line: string)
    requires |one| == 1 && Depth(one) == 1
    requires EndsStatement(line) && Change(line) == 0 && line != "" && line[0] !in {'#', 's'}
    ensures NextPlan(one, Plan([Common], 1, false), line, 1) == Plan([Common, Function(1)], 2, false)
  {
    hide Blank, Concat, Select, Depth, IsStatic, EndsStatement;
    PlainBlock(one, line);
    assert [Common] + [Pending] == [Common, Pending];
    assert Settle([Common, Pending], Function(1)) == [Common, Function(1)];
  }

  // A one-line statement at the target depth, right after the namespace is opened, is a function.
  lemma StatementIsFunction(lines: seq<string>)
    requires |lines| >= 2 && Change(lines[0]) == 1 && Change(lines[1]) == 0
    requires EndsStatement(lines[1]) && lines[1] != "" && lines[1][0] !in {'#', 's'}
    ensures PlanOf(lines[..2], 1) == Plan([Common, Function(1)], 2, false) && PlanOf(lines, 1).places[1].Function?
  {
    hide NextPlan, Depth, Change, EndsStatement;
    var two := lines[..2];
    assert two[..1] == [lines[0]];
    FirstLineOpens(lines[0]);
    NextIsFunction([lines[0]], lines[1]);
    SettledStays(lines, 1, 2, 1);
  }
}
