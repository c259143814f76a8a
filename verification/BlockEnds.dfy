/** Where the splitter's blocks end and what becomes of them (SplitSource.php, lines 100-139), in terms of the
    characters of the lines. */
module BlockEnds {
  import opened Basics
  import opened LineSplitter

  // ---------- lines ----------

  // What trim() takes off
  ghost predicate AllWhite(s: string) {
    forall i | 0 <= i < |s| :: s[i] in {' ', '\t', '\n', '\r', '\0', '\U{0B}'}
  }

  // White space, perhaps around a single 0.
  ghost predicate LooksBlank(s: string) {
    AllWhite(s) || exists i | 0 <= i < |s| :: s[i] == '0' && AllWhite(s[..i]) && AllWhite(s[i + 1..])
  }

  lemma {:induction false} TrimLeftIs(s: string) returns (k: nat)
    ensures k <= |s| && TrimLeft(s) == s[k..] && AllWhite(s[..k]) && (k < |s| ==> !IsTrimmed(s[k]))
  {
    if s != "" && IsTrimmed(s[0]) {
      var r := TrimLeftIs(s[1..]);
      k := r + 1;
      assert s[1..][r..] == s[k..];
      assert s[..k] == [s[0]] + s[1..][..r];
    } else {
      k := 0;
    }
  }

  lemma TrimRightStep(s: string)
    requires s != ""
    ensures TrimRight(s) == if IsTrimmed(s[|s| - 1]) then TrimRight(s[..|s| - 1]) else s
  {
  }

  lemma MoreWhite(s: string, k: nat)
    requires k < |s| && AllWhite(s[..|s| - 1][k..]) && IsTrimmed(s[|s| - 1])
    ensures AllWhite(s[k..]) && s[..|s| - 1][..k] == s[..k]
  {
    assert s[k..] == s[..|s| - 1][k..] + [s[|s| - 1]];
  }

  lemma {:induction false} TrimRightIs(s: string) returns (k: nat)
    ensures k <= |s| && TrimRight(s) == s[..k] && AllWhite(s[k..]) && (k > 0 ==> !IsTrimmed(s[k - 1]))
  {
    if s != "" && IsTrimmed(s[|s| - 1]) {
      TrimRightStep(s);
      hide TrimRight, AllWhite, IsTrimmed;
      k := TrimRightIs(s[..|s| - 1]);
      MoreWhite(s, k);
    } else {
      k := |s|;
      assert s[..k] == s;
    }
  }

  lemma {:induction false} LeftTrimmed(a: string, rest: string)
    requires AllWhite(a)
    ensures TrimLeft(a + rest) == TrimLeft(rest)
  {
    if a == "" {
      assert a + rest == rest;
    } else {
      LeftTrimmed(a[1..], rest);
      assert (a + rest)[1..] == a[1..] + rest;
    }
  }

  lemma {:induction false} RightTrimmed(rest: string, b: string)
    requires AllWhite(b)
    ensures TrimRight(rest + b) == TrimRight(rest)
  {
    if b == "" {
      assert rest + b == rest;
    } else {
      var n := |b| - 1;
      RightTrimmed(rest, b[..n]);
      assert (rest + b)[..|rest + b| - 1] == rest + b[..n];
    }
  }

  lemma ZeroLooksBlank(a: string, b: string)
    requires AllWhite(a) && AllWhite(b)
    ensures Blank(a + b) && Blank(a + "0" + b)
  {
    hide AllWhite;
    LeftTrimmed(a, b);
    LeftTrimmed(b, "");
    assert b + "" == b;
    assert a + "0" + b == a + ("0" + b);
    LeftTrimmed(a, "0" + b);
    RightTrimmed("0", b);
  }

  lemma BlankParts(s: string)
    requires Blank(s)
    ensures LooksBlank(s)
  {
    hide AllWhite, IsTrimmed, TrimLeft, TrimRight;
    var k := TrimLeftIs(s);
    var t := s[k..];
    var m := TrimRightIs(t);
    if m == 0 {
      assert t[..m] == "" && t[m..] == t && s == s[..k] + t;
      BothWhite(s[..k], t);
    } else {
      assert |t[..m]| == m;
      assert t[..m] == "0";
      assert s[k] == t[..m][0] == '0' && s[k + 1..] == t[m..];
    }
  }

  lemma BothWhite(a: string, b: string)
    requires AllWhite(a) && AllWhite(b)
    ensures AllWhite(a + b)
  {
  }

  lemma NothingIsWhite()
    ensures AllWhite("")
  {
  }

  lemma BlankLooks(s: string)
    ensures Blank(s) <==> LooksBlank(s)
  {
    hide Blank, AllWhite;
    if Blank(s) { BlankParts(s); }
    if AllWhite(s) {
      NothingIsWhite();
      ZeroLooksBlank(s, "");
      assert s + "" == s;
    } else if LooksBlank(s) {
      var i :| 0 <= i < |s| && s[i] == '0' && AllWhite(s[..i]) && AllWhite(s[i + 1..]);
      ZeroLooksBlank(s[..i], s[i + 1..]);
      assert s == s[..i] + "0" + s[i + 1..];
    }
  }

  // A letter, anything without a line end, a semicolon and white space
  ghost predicate Statement(line: string, middle: string, space: string) {
    && line != "" && ('a' <= line[0] <= 'z' || 'A' <= line[0] <= 'Z')
    && line == [line[0]] + middle + ";" + space && '\n' !in middle
    && forall i | 0 <= i < |space| :: space[i] in {' ', '\t', '\n', '\r', '\U{0B}', '\U{0C}'}
  }

  lemma StatementParts(line: string, k: nat)
    requires 1 <= k < |line| && line[k] == ';'
    ensures line == [line[0]] + line[1..k] + ";" + line[k + 1..]
  {
  }

  lemma StatementEnds(line: string, middle: string, space: string)
    requires Statement(line, middle, space)
    ensures EndsStatement(line)
  {
    var k := |middle| + 1;
    assert line[k] == ';' && line[1..k] == middle && line[k + 1..] == space;
    assert forall c | c in line[k + 1..] :: IsSpace(c);
  }

  lemma StatementMade(line: string, middle: string, space: string)
    requires line != "" && IsLetter(line[0]) && line == [line[0]] + middle + ";" + space && '\n' !in middle
    requires forall c | c in space :: IsSpace(c)
    ensures Statement(line, middle, space)
  {
    forall i | 0 <= i < |space| ensures IsSpace(space[i]) { assert space[i] in space; }
  }

  lemma EndedStatement(line: string) returns (middle: string, space: string)
    requires EndsStatement(line)
    ensures Statement(line, middle, space)
  {
    hide IsSpace, IsLetter, Statement;
    var k :| 1 <= k < |line| && line[k] == ';' && '\n' !in line[1..k] && forall c | c in line[k + 1..] :: IsSpace(c);
    middle, space := line[1..k], line[k + 1..];
    StatementParts(line, k);
    StatementMade(line, middle, space);
  }

  lemma EndsStatementMeans(line: string)
    ensures EndsStatement(line) <==> exists middle, space :: Statement(line, middle, space)
  {
    hide EndsStatement, Statement;
    if EndsStatement(line) { var middle, space := EndedStatement(line); }
    if middle, space :| Statement(line, middle, space) { StatementEnds(line, middle, space); }
  }

  // ---------- blocks ----------

  // The text of the open block before line i
  ghost function TextBefore(lines: seq<string>, places: seq<Place>, i: nat): string
    requires i <= |lines| == |places|
  {
    Concat(Select(lines[..i], places[..i], Pending))
  }

  // Line i of the open block is the beginning of a macro definition.
  ghost predicate Defines(lines: seq<string>, places: seq<Place>, i: nat)
    requires i < |lines| == |places|
  {
    places[i] == Pending && "#define " <= lines[i] && LooksBlank(TextBefore(lines, places, i))
  }

  ghost predicate HasDefine(lines: seq<string>, places: seq<Place>)
    requires |lines| == |places|
  {
    exists i | 0 <= i < |lines| :: Defines(lines, places, i)
  }

  // The open block belongs to all output files: a line of it begins with static, or it is a macro definition.
  ghost predicate ForAll(lines: seq<string>, places: seq<Place>)
    requires |lines| == |places|
  {
    HasDefine(lines, places) || exists i | 0 <= i < |lines| :: places[i] == Pending && "static " <= lines[i]
  }

  lemma StaticMeans(lines: seq<string>, places: seq<Place>)
    requires |lines| == |places|
    ensures IsStatic(lines, places) <==> ForAll(lines, places)
  {
    hide Blank, LooksBlank, Select, Concat;
    forall j | 0 <= j < |lines|
      ensures MakesStatic(lines, places, j) <==> Defines(lines, places, j) || (places[j] == Pending && "static " <= lines[j])
    {
      BlankLooks(TextBefore(lines, places, j));
    }
  }

  lemma HasDefineLast(lines: seq<string>, places: seq<Place>, line: string, p: Place)
    requires |lines| == |places|
    ensures HasDefine(lines + [line], places + [p]) <==>
            HasDefine(lines, places) || (p == Pending && "#define " <= line && LooksBlank(Concat(Select(lines, places, Pending))))
  {
    hide LooksBlank, Select, Concat;
    var lines', places' := lines + [line], places + [p];
    OneMore(lines, line);
    OneMore(places, p);
    forall i | 0 <= i < |lines| ensures Defines(lines', places', i) == Defines(lines, places, i) {
      assert lines'[..i] == lines[..i] && places'[..i] == places[..i];
    }
    assert Defines(lines', places', |lines|) <==>
           (p == Pending && "#define " <= line && LooksBlank(Concat(Select(lines, places, Pending))));
    if HasDefine(lines, places) {
      var i :| 0 <= i < |lines| && Defines(lines, places, i);
      assert Defines(lines', places', i);
    }
  }

  lemma NothingDefined(lines: seq<string>, places: seq<Place>)
    requires |lines| == |places| && Pending !in places
    ensures !HasDefine(lines, places)
  {
  }

  // Being in a macro definition means that the open block has begun with one.
  lemma {:induction false} InDefineMeans(lines: seq<string>, target: nat)
    ensures var p := PlanOf(lines, target); p.inDefine <==> HasDefine(lines, p.places)
  {
    hide NextPlan, HasDefine;
    if lines == [] {
      NothingDefined([], []);
    } else {
      var n := |lines| - 1;
      InDefineMeans(lines[..n], target);
      NextInDefine(lines[..n], PlanOf(lines[..n], target), lines[n], target);
      assert lines == lines[..n] + [lines[n]];
    }
  }

  lemma NextInDefine(lines: seq<string>, p: Plan, line: string, target: nat)
    requires |lines| == |p.places| && (p.inDefine <==> HasDefine(lines, p.places))
    ensures var q := NextPlan(lines, p, line, target); q.inDefine <==> HasDefine(lines + [line], q.places)
  {
    hide HasDefine, IsStatic, Blank, LooksBlank, Concat, Select, Depth, EndsBlock, Settle;
    var q := NextPlan(lines, p, line, target);
    BlankLooks(Concat(Select(lines, p.places, Pending)));
    HasDefineLast(lines, p.places, line, Common);
    HasDefineLast(lines, p.places, line, Dropped);
    HasDefineLast(lines, p.places, line, Pending);
    EndedIs(lines, p);
    EndedIs(lines + [line], Plan(p.places + [Pending], p.functions, true));
    EndedIs(lines + [line], Plan(p.places + [Pending], p.functions, false));
    if Pending !in q.places { NothingDefined(lines + [line], q.places); }
  }

  // Ending a block sends all its lines to the same place and leaves no block open.
  lemma EndedIs(lines: seq<string>, p: Plan)
    requires |lines| == |p.places|
    ensures var q := Ended(lines, p);
            && !q.inDefine && Pending !in q.places
            && q.functions == p.functions + (if ForAll(lines, p.places) then 0 else 1)
            && forall i | 0 <= i < |lines| :: q.places[i] ==
                 if p.places[i] != Pending then p.places[i] else if ForAll(lines, p.places) then Common else Function(p.functions)
  {
    hide IsStatic, ForAll;
    StaticMeans(lines, p.places);
  }

  // ---------- every line ----------

  ghost predicate NamespaceLine(line: string) {
    "namespace " <= line || "}  // namespace" <= line
  }

  ghost function LinesWith(lines: seq<string>, prefix: string): set<nat> {
    set i | 0 <= i < |lines| && prefix <= lines[i]
  }

  lemma LinesWithLast(lines: seq<string>, line: string, prefix: string)
    ensures |LinesWith(lines + [line], prefix)| == |LinesWith(lines, prefix)| + if prefix <= line then 1 else 0
  {
    var lines' := lines + [line];
    var s, s' := LinesWith(lines, prefix), LinesWith(lines', prefix);
    assert forall i | 0 <= i < |lines| :: lines'[i] == lines[i];
    if prefix <= line {
      assert s' == s + {|lines|};
    } else {
      assert s' == s;
    }
  }

  // The depth is the number of namespaces begun less the number of namespaces ended.
  lemma {:induction false} DepthCounts(lines: seq<string>)
    ensures Depth(lines) == |LinesWith(lines, "namespace ")| - |LinesWith(lines, "}  // namespace")|
  {
    hide LinesWith;
    if lines == [] {
      NoLines("namespace ");
      NoLines("}  // namespace");
    } else {
      var n := |lines| - 1;
      assert lines == lines[..n] + [lines[n]];
      DepthCounts(lines[..n]);
      LinesWithLast(lines[..n], lines[n], "namespace ");
      LinesWithLast(lines[..n], lines[n], "}  // namespace");
      ChangeIs(lines[n]);
    }
  }

  lemma NoLines(prefix: string)
    ensures LinesWith([], prefix) == {}
  {
  }

  lemma ChangeIs(line: string)
    ensures Change(line) == (if "namespace " <= line then 1 else 0) - if "}  // namespace" <= line then 1 else 0
  {
    if "namespace " <= line { assert line[0] == 'n'; }
  }

  // Line j is part of a block: at the target depth, no namespace line, and no #undef before anything else.
  ghost predicate InBlock(lines: seq<string>, target: nat, j: nat)
    requires j < |lines|
  {
    && Depth(lines[..j]) == target && !NamespaceLine(lines[j])
    && !("#undef" <= lines[j] && LooksBlank(TextBefore(lines[..j], PlanOf(lines[..j], target).places, j)))
  }

  // The block with line j in it, before it is known whether it ends there
  ghost function BlockPlaces(lines: seq<string>, target: nat, j: nat): (places: seq<Place>)
    requires j < |lines|
    ensures |places| == j + 1
  {
    PlanOf(lines[..j], target).places + [if InBlock(lines, target, j) then Pending else Dropped]
  }

  ghost predicate EndsHere(lines: seq<string>, target: nat, j: nat)
    requires j < |lines|
  {
    || NamespaceLine(lines[j])
    || (InBlock(lines, target, j)
        && (|| (lines[j] != "" && lines[j][0] == '}')
            || (exists middle, space :: Statement(lines[j], middle, space))
            || (LooksBlank(lines[j]) && HasDefine(lines[..j + 1], BlockPlaces(lines, target, j)))))
  }

  ghost predicate Fate(lines: seq<string>, target: nat, j: nat)
    requires j < |lines|
  {
    var before, after, block := PlanOf(lines[..j], target), PlanOf(lines[..j + 1], target), BlockPlaces(lines, target, j);
    var ends, forAll := EndsHere(lines, target, j), ForAll(lines[..j + 1], block);
    && after.functions == before.functions + (if ends && !forAll then 1 else 0)
    && (forall i | 0 <= i <= j && block[i] == Pending ::
          after.places[i] == if !ends then Pending else if forAll then Common else Function(before.functions))
    && (forall i | 0 <= i < j && block[i] != Pending :: after.places[i] == block[i])
    && (!InBlock(lines, target, j) ==>
          after.places[j] == if !NamespaceLine(lines[j]) && "#undef" <= lines[j] && LooksBlank(TextBefore(lines[..j], before.places, j))
                             then Dropped else Common)
  }

  // Line j of every file: a block ends there exactly at a namespace line or, in a block, at a line that begins with a
  // brace, at a one-line statement, or at a blank line of a macro definition. All lines of a block that ends go to the
  // common part if one of them begins with static or it is a macro definition, else they become the next function.
  lemma LineFate(lines: seq<string>, target: nat, j: nat)
    requires j < |lines|
    ensures Fate(lines, target, j)
  {
    hide InBlock, NamespaceLine, Fate;
    if NamespaceLine(lines[j]) {
      NamespaceFate(lines, target, j);
    } else if InBlock(lines, target, j) {
      BlockFate(lines, target, j);
    } else {
      OutsideFate(lines, target, j);
    }
  }

  lemma NextIs(lines: seq<string>, target: nat, j: nat)
    requires j < |lines|
    ensures PlanOf(lines[..j + 1], target) == NextPlan(lines[..j], PlanOf(lines[..j], target), lines[j], target)
    ensures lines[..j + 1] == lines[..j] + [lines[j]] && NamespaceLine(lines[j]) == IsNamespaceLine(lines[j])
    ensures var places := PlanOf(lines[..j], target).places;
            var text := TextBefore(lines[..j], places, j);
            text == Concat(Select(lines[..j], places, Pending)) && LooksBlank(text) == Blank(text)
  {
    hide NextPlan, Blank, LooksBlank, Concat, Select;
    var init, places := lines[..j], PlanOf(lines[..j], target).places;
    assert lines[..j + 1][..j] == init && lines[..j + 1] == init + [lines[j]];
    assert init[..j] == init && places[..j] == places;
    BlankLooks(TextBefore(init, places, j));
  }

  lemma NamespaceFate(lines: seq<string>, target: nat, j: nat)
    requires j < |lines| && NamespaceLine(lines[j])
    ensures Fate(lines, target, j)
  {
    hide IsNamespaceLine, Depth, Blank, LooksBlank, Concat, Select, HasDefine, ForAll, EndsStatement, Statement;
    hide NamespaceLine, Ended, PlanOf, EndsBlock, TextBefore;
    var init, before := lines[..j], PlanOf(lines[..j], target);
    NextIs(lines, target, j);
    EndedIs(init, before);
    ForAllLast(init, before.places, lines[j]);
  }

  lemma OutsideFate(lines: seq<string>, target: nat, j: nat)
    requires j < |lines| && !NamespaceLine(lines[j]) && !InBlock(lines, target, j)
    ensures Fate(lines, target, j)
  {
    hide IsNamespaceLine, Depth, Blank, LooksBlank, Concat, Select, HasDefine, ForAll, EndsStatement, Statement;
    hide NamespaceLine, Ended, PlanOf, EndsBlock, TextBefore;
    NextIs(lines, target, j);
  }

  lemma BlockFate(lines: seq<string>, target: nat, j: nat)
    requires j < |lines| && !NamespaceLine(lines[j]) && InBlock(lines, target, j)
    ensures Fate(lines, target, j)
  {
    hide Depth, Blank, LooksBlank, Concat, Select, HasDefine, ForAll, Statement, NamespaceLine, Ended;
    hide PlanOf, EndsBlock, TextBefore, NextPlan;
    var init, before, line := lines[..j], PlanOf(lines[..j], target), lines[j];
    NextIs(lines, target, j);
    InDefineMeans(init, target);
    BlockNext(init, before, line, target);
    HasDefineLast(init, before.places, line, Pending);
    BlockIs(lines, target, j);
    var block := before.places + [Pending];
    var define := HasDefine(lines[..j + 1], block);
    var q := Plan(block, before.functions, define);
    EndsIs(lines, target, j, define);
    EndedIs(lines[..j + 1], q);
    assert PlanOf(lines[..j + 1], target) == if EndsBlock(line, define) then Ended(lines[..j + 1], q) else q;
  }

  lemma BlockIs(lines: seq<string>, target: nat, j: nat)
    requires j < |lines| && InBlock(lines, target, j)
    ensures BlockPlaces(lines, target, j) == PlanOf(lines[..j], target).places + [Pending]
  {
    hide InBlock, PlanOf;
  }

  lemma EndsIs(lines: seq<string>, target: nat, j: nat, define: bool)
    requires j < |lines| && !NamespaceLine(lines[j]) && InBlock(lines, target, j)
    requires define == HasDefine(lines[..j + 1], PlanOf(lines[..j], target).places + [Pending])
    ensures EndsHere(lines, target, j) <==> EndsBlock(lines[j], define)
  {
    hide InBlock, PlanOf, HasDefine, LooksBlank, Statement, NamespaceLine;
    BlockIs(lines, target, j);
    EndsBlockMeans(lines[j], define);
  }

  lemma BlockNext(lines: seq<string>, p: Plan, line: string, target: nat)
    requires |lines| == |p.places| && !IsNamespaceLine(line) && Depth(lines) == target
    requires !("#undef" <= line && Blank(Concat(Select(lines, p.places, Pending))))
    ensures var define := p.inDefine || (Blank(Concat(Select(lines, p.places, Pending))) && "#define " <= line);
            var q := Plan(p.places + [Pending], p.functions, define);
            NextPlan(lines, p, line, target) == if EndsBlock(line, define) then Ended(lines + [line], q) else q
  {
    hide Depth, Blank, Concat, Select, IsNamespaceLine, Ended, EndsBlock;
  }

  lemma EndsBlockMeans(line: string, inDefine: bool)
    ensures EndsBlock(line, inDefine) <==>
            || (line != "" && line[0] == '}')
            || (exists middle, space :: Statement(line, middle, space))
            || (LooksBlank(line) && inDefine)
  {
    hide Blank, LooksBlank, EndsStatement, Statement;
    BlankLooks(line);
    EndsStatementMeans(line);
  }

  // A line outside the block does not matter to it.
  lemma ForAllLast(lines: seq<string>, places: seq<Place>, line: string)
    requires |lines| == |places|
    ensures ForAll(lines + [line], places + [Dropped]) <==> ForAll(lines, places)
  {
    hide LooksBlank, Select, Concat, HasDefine;
    HasDefineLast(lines, places, line, Dropped);
    var lines', places' := lines + [line], places + [Dropped];
    assert forall i | 0 <= i < |lines| :: lines'[i] == lines[i] && places'[i] == places[i];
  }

  // ---------- every function ----------

  // The last line of a function begins with a brace or is a one-line statement, unless the next line that is not
  // dropped is a namespace line.
  ghost predicate EndsWell(lines: seq<string>, places: seq<Place>, j: nat)
    requires j < |lines| == |places|
  {
    || (lines[j] != "" && lines[j][0] == '}')
    || (exists middle, space :: Statement(lines[j], middle, space))
    || (exists m | j < m < |lines| :: BeforeNamespace(lines, places, j, m))
  }

  ghost predicate BeforeNamespace(lines: seq<string>, places: seq<Place>, j: nat, m: nat)
    requires j < m < |lines| == |places|
  {
    NamespaceLine(lines[m]) && forall h | j < h < m :: places[h] == Dropped
  }

  ghost predicate LastOf(places: seq<Place>, j: nat)
    requires j < |places|
  {
    places[j].Function? && forall l | j < l < |places| :: places[l] != places[j]
  }

  lemma {:induction false} FunctionEnds(lines: seq<string>, target: nat, j: nat)
    requires j < |lines| && LastOf(PlanOf(lines, target).places, j)
    ensures EndsWell(lines, PlanOf(lines, target).places, j)
    decreases |lines|, 0
  {
    hide PlanOf, Statement, NamespaceLine;
    var n := |lines| - 1;
    var init := lines[..n];
    var before, after := PlanOf(init, target).places, PlanOf(lines, target).places;
    assert lines[..n + 1] == lines;
    if j < n && before[j] != Pending {
      forall l | 0 <= l < n && before[l] != Pending ensures after[l] == before[l] { SettledStays(lines, target, n, l); }
      EarlierEnds(init, before, lines, after, j, target);
    } else {
      EndsAtLast(lines, target, j);
    }
  }

  // The function ended before the last line.
  lemma {:induction false} EarlierEnds(init: seq<string>, before: seq<Place>, lines: seq<string>, after: seq<Place>, j: nat, target: nat)
    requires |lines| == |init| + 1 == |before| + 1 == |after| && init == lines[..|init|] && before == PlanOf(init, target).places
    requires j < |init| && before[j] != Pending && LastOf(after, j)
    requires forall l | 0 <= l < |init| && before[l] != Pending :: after[l] == before[l]
    ensures EndsWell(lines, after, j)
    decreases |init|, 1
  {
    hide PlanOf, Statement, NamespaceLine;
    assert LastOf(before, j);
    FunctionEnds(init, target, j);
    if exists m | j < m < |init| :: BeforeNamespace(init, before, j, m) {
      var m :| j < m < |init| && BeforeNamespace(init, before, j, m);
      assert BeforeNamespace(lines, after, j, m);
    }
  }

  // The function ends at the last line.
  lemma EndsAtLast(lines: seq<string>, target: nat, j: nat)
    requires j < |lines| && LastOf(PlanOf(lines, target).places, j)
    requires j < |lines| - 1 ==> PlanOf(lines[..|lines| - 1], target).places[j] == Pending
    ensures EndsWell(lines, PlanOf(lines, target).places, j)
  {
    hide PlanOf, Statement, NamespaceLine, HasDefine;
    var n := |lines| - 1;
    var before, after := PlanOf(lines[..n], target).places, PlanOf(lines, target).places;
    assert lines[..n + 1] == lines;
    LineFate(lines, target, n);
    FunctionsAreBlocks(lines[..n], target);
    var block := BlockPlaces(lines, target, n);
    assert forall i | 0 <= i < n :: block[i] == before[i];
    if j < n {
      assert block[n] != Pending;
      forall h | j < h < n ensures after[h] == Dropped {
        assert before[h] == Pending || before[h] == Dropped;
      }
      assert BeforeNamespace(lines, after, j, n);
    }
  }
}
