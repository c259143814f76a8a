/** The line loop of the source splitter (SplitSource.php, lines 73-145 and 204-205): cutting a source
    file into text common to all output files and function blocks that go to one output file each. */
module LineSplitter {
  import opened Basics

  // ---------- line classification ----------

  predicate StartsWith(line: string, prefix: string) {
    prefix <= line
  }

  predicate Opens(line: string) {
    StartsWith(line, "namespace ")
  }

  predicate Closes(line: string) {
    !Opens(line) && StartsWith(line, "}  // namespace")
  }

  predicate IsTrimmed(c: char) {
    c in {' ', '\t', '\n', '\r', '\0', '\U{0B}'}
  }

  function TrimLeft(s: string): string {
    if s != "" && IsTrimmed(s[0]) then TrimLeft(s[1..]) else s
  }

  function TrimRight(s: string): string {
    if s != "" && IsTrimmed(s[|s| - 1]) then TrimRight(s[..|s| - 1]) else s
  }

  // !trim($s): PHP takes the string "0" for false too.
  predicate Blank(s: string) {
    var t := TrimRight(TrimLeft(s));
    t == "" || t == "0"
  }

  predicate IsLetter(c: char) {
    'a' <= c <= 'z' || 'A' <= c <= 'Z'
  }

  predicate IsSpace(c: char) {
    c in {' ', '\t', '\n', '\r', '\U{0B}', '\U{0C}'}
  }

  // preg_match('/^[a-z].*;\s*$/i', $line)
  predicate EndsStatement(line: string) {
    && line != "" && IsLetter(line[0])
    && (exists k | 1 <= k < |line| :: line[k] == ';' && '\n' !in line[1..k] && forall c | c in line[k + 1..] :: IsSpace(c))
  }

  // A line that ends the block it is in, given whether the block is a macro definition.
  predicate EndsBlock(line: string, inDefine: bool) {
    StartsWith(line, "}") || (inDefine && Blank(line)) || EndsStatement(line)
  }

  // ---------- where each line goes ----------

  datatype Place = Common | Function(k: nat) | Dropped | Pending

  // The lines with place d, in order.
  function Select(lines: seq<string>, places: seq<Place>, d: Place): seq<string>
    requires |lines| == |places|
  {
    if places == [] then []
    else
      var n := |places| - 1;
      Select(lines[..n], places[..n], d) + if places[n] == d then [lines[n]] else []
  }

  function Settle(places: seq<Place>, d: Place): (settled: seq<Place>)
    ensures |settled| == |places|
  {
    seq(|places|, j requires 0 <= j < |places| => if places[j] == Pending then d else places[j])
  }

  // The open block starts at mark: from there on every line is pending or dropped.
  ghost predicate OpenFrom(places: seq<Place>, mark: nat) {
    && mark <= |places|
    && (forall j | 0 <= j < mark :: places[j] != Pending)
    && (forall j | mark <= j < |places| :: places[j] == Pending || places[j] == Dropped)
  }

  // Closing the block moves its lines, all of them and in order, behind what already was at d.
  lemma {:induction false} SettleMoves(lines: seq<string>, places: seq<Place>, mark: nat, d: Place, e: Place)
    requires |lines| == |places| && OpenFrom(places, mark) && d != Pending && d != Dropped
    ensures Select(lines, Settle(places, d), e) ==
            if e == d then Select(lines, places, d) + Select(lines, places, Pending)
            else if e == Pending then [] else Select(lines, places, e)
  {
    hide Select;
    var settled := Settle(places, d);
    if |places| == mark {
      assert settled == places;
      NonePlaced(lines, places, Pending);
    } else {
      var n := |places| - 1;
      SettleMoves(lines[..n], places[..n], mark, d, e);
      assert settled[..n] == Settle(places[..n], d);
      SelectStep(lines, settled, e);
      SelectStep(lines, places, e);
      SelectStep(lines, places, Pending);
    }
  }

  lemma SelectStep(lines: seq<string>, places: seq<Place>, d: Place)
    requires |lines| == |places| > 0
    ensures var n := |places| - 1;
            var before := Select(lines[..n], places[..n], d);
            Select(lines, places, d) == if places[n] == d then before + [lines[n]] else before
  {
  }

  lemma {:induction false} NonePlaced(lines: seq<string>, places: seq<Place>, d: Place)
    requires |lines| == |places| && forall j | 0 <= j < |places| :: places[j] != d
    ensures Select(lines, places, d) == []
  {
    if places != [] {
      NonePlaced(lines[..|lines| - 1], places[..|places| - 1], d);
    }
  }

  // ---------- namespaces ----------

  predicate IsNamespaceLine(line: string) {
    Opens(line) || Closes(line)
  }

  function Change(line: string): int {
    if Opens(line) then 1 else if Closes(line) then -1 else 0
  }

  function Depth(lines: seq<string>): int {
    if lines == [] then 0 else Depth(lines[..|lines| - 1]) + Change(lines[|lines| - 1])
  }

  // The namespace lines that open, or close, a level down to the target depth.
  function Opened(lines: seq<string>, target: nat): seq<string> {
    if lines == [] then []
    else
      var n := |lines| - 1;
      Opened(lines[..n], target) + if Opens(lines[n]) && Depth(lines[..n]) + 1 <= target then [lines[n]] else []
  }

  function Closed(lines: seq<string>, target: nat): seq<string> {
    if lines == [] then []
    else
      var n := |lines| - 1;
      Closed(lines[..n], target) + if Closes(lines[n]) && Depth(lines[..n]) <= target then [lines[n]] else []
  }

  // ---------- the splitter ----------

  // Line j of the open block makes the block static.
  ghost predicate MakesStatic(lines: seq<string>, places: seq<Place>, j: nat)
    requires j < |lines| == |places|
  {
    && places[j] == Pending
    && (StartsWith(lines[j], "static ")
        || (StartsWith(lines[j], "#define ") && Blank(Concat(Select(lines[..j], places[..j], Pending)))))
  }

  // What decides where a line may end up.
  ghost predicate WellPlaced(lines: seq<string>, places: seq<Place>, functions: nat, target: nat, j: nat)
    requires j < |lines| == |places|
  {
    match places[j]
    case Common => true
    case Dropped => StartsWith(lines[j], "#undef")
    case Pending => !IsNamespaceLine(lines[j]) && Depth(lines[..j]) == target
    case Function(k) =>
      && k < functions
      && !IsNamespaceLine(lines[j]) && Depth(lines[..j]) == target && !StartsWith(lines[j], "static ")
      && (forall i | 0 <= i < j && places[i].Function? :: places[i].k <= k)
  }

  ghost predicate AllWellPlaced(lines: seq<string>, places: seq<Place>, functions: nat, target: nat)
    requires |lines| == |places|
  {
    forall j | 0 <= j < |lines| :: WellPlaced(lines, places, functions, target, j)
  }

  ghost predicate IsStatic(lines: seq<string>, places: seq<Place>)
    requires |lines| == |places|
  {
    exists j | 0 <= j < |lines| :: MakesStatic(lines, places, j)
  }

  // The accumulated texts are the lines put there, each once and in order.
  ghost predicate Texts(lines: seq<string>, places: seq<Place>, common: string, current: string, functions: seq<string>)
    requires |places| == |lines|
  {
    && common == Concat(Select(lines, places, Common))
    && current == Concat(Select(lines, places, Pending))
    && (forall k | 0 <= k < |functions| :: functions[k] == Concat(Select(lines, places, Function(k))))
  }

  lemma NoneOfNextFunction(lines: seq<string>, places: seq<Place>, k: nat, target: nat)
    requires |lines| == |places| && AllWellPlaced(lines, places, k, target)
    ensures Select(lines, places, Function(k)) == []
  {
    forall j | 0 <= j < |places| ensures places[j] != Function(k) {
      assert WellPlaced(lines, places, k, target, j);
    }
    NonePlaced(lines, places, Function(k));
  }

  lemma SettleCommon(lines: seq<string>, places: seq<Place>, mark: nat, common: string, current: string,
                     functions: seq<string>)
    requires |lines| == |places| && OpenFrom(places, mark) && Texts(lines, places, common, current, functions)
    ensures Texts(lines, Settle(places, Common), common + current, "", functions)
  {
    SettleMoves(lines, places, mark, Common, Common);
    SettleMoves(lines, places, mark, Common, Pending);
    ConcatAppend(Select(lines, places, Common), Select(lines, places, Pending));
    forall k | 0 <= k < |functions| ensures functions[k] == Concat(Select(lines, Settle(places, Common), Function(k))) {
      SettleMoves(lines, places, mark, Common, Function(k));
    }
  }

  lemma SettleCommonPlaced(lines: seq<string>, places: seq<Place>, functions: nat, target: nat)
    requires |lines| == |places| && AllWellPlaced(lines, places, functions, target)
    ensures AllWellPlaced(lines, Settle(places, Common), functions, target)
  {
    var settled := Settle(places, Common);
    forall j | 0 <= j < |lines| ensures WellPlaced(lines, settled, functions, target, j) {
      assert WellPlaced(lines, places, functions, target, j);
    }
  }

  lemma SettleFunctionPlaced(lines: seq<string>, places: seq<Place>, mark: nat, functions: nat, target: nat)
    requires |lines| == |places| && OpenFrom(places, mark) && AllWellPlaced(lines, places, functions, target) && !IsStatic(lines, places)
    ensures AllWellPlaced(lines, Settle(places, Function(functions)), functions + 1, target)
  {
    var n, settled := functions + 1, Settle(places, Function(functions));
    forall j | 0 <= j < |lines| ensures WellPlaced(lines, settled, n, target, j) {
      assert WellPlaced(lines, places, functions, target, j) && !MakesStatic(lines, places, j);
      forall i | 0 <= i < j && settled[i].Function? && settled[j].Function? ensures settled[i].k <= settled[j].k {
        assert WellPlaced(lines, places, functions, target, i);
      }
    }
  }

  lemma SettleFunction(lines: seq<string>, places: seq<Place>, mark: nat, common: string, current: string,
                       functions: seq<string>, target: nat)
    requires |lines| == |places| && OpenFrom(places, mark) && Texts(lines, places, common, current, functions)
    requires AllWellPlaced(lines, places, |functions|, target)
    ensures Texts(lines, Settle(places, Function(|functions|)), common, "", functions + [current])
  {
    var n := |functions|;
    var settled := Settle(places, Function(n));
    NoneOfNextFunction(lines, places, n, target);
    SettleMoves(lines, places, mark, Function(n), Common);
    SettleMoves(lines, places, mark, Function(n), Pending);
    forall k | 0 <= k < n + 1 ensures (functions + [current])[k] == Concat(Select(lines, settled, Function(k))) {
      SettleMoves(lines, places, mark, Function(n), Function(k));
      assert [] + Select(lines, places, Pending) == Select(lines, places, Pending);
    }
  }

  lemma SettledIsClosed(lines: seq<string>, places: seq<Place>, d: Place)
    requires |lines| == |places| && d != Pending
    ensures !IsStatic(lines, Settle(places, d)) && OpenFrom(Settle(places, d), |places|)
  {
  }

  // ---------- one more line ----------

  lemma OneMore<T>(s: seq<T>, x: T)
    ensures (s + [x])[..|s|] == s
  {
  }

  lemma SelectLast(lines: seq<string>, places: seq<Place>, line: string, p: Place, d: Place)
    requires |lines| == |places|
    ensures Select(lines + [line], places + [p], d) == if p == d then Select(lines, places, d) + [line] else Select(lines, places, d)
  {
    OneMore(lines, line);
    OneMore(places, p);
    assert Select(lines, places, d) + [] == Select(lines, places, d);
  }

  lemma ConcatLast(lines: seq<string>, line: string)
    ensures Concat(lines + [line]) == Concat(lines) + line
  {
    OneMore(lines, line);
  }

  lemma PlaceText(lines: seq<string>, places: seq<Place>, line: string, p: Place,
                  common: string, current: string, functions: seq<string>)
    requires |lines| == |places| && !p.Function? && Texts(lines, places, common, current, functions)
    ensures Texts(lines + [line], places + [p], if p == Common then common + line else common,
                  if p == Pending then current + line else current, functions)
  {
    hide Select, Concat;
    SelectLast(lines, places, line, p, Common);
    SelectLast(lines, places, line, p, Pending);
    ConcatLast(Select(lines, places, p), line);
    forall k | 0 <= k < |functions| ensures functions[k] == Concat(Select(lines + [line], places + [p], Function(k))) {
      SelectLast(lines, places, line, p, Function(k));
    }
  }

  lemma PlaceWell(lines: seq<string>, places: seq<Place>, line: string, p: Place, functions: nat, target: nat)
    requires |lines| == |places| && !p.Function? && AllWellPlaced(lines, places, functions, target)
    requires p == Dropped ==> StartsWith(line, "#undef")
    requires p == Pending ==> !IsNamespaceLine(line) && Depth(lines) == target
    ensures AllWellPlaced(lines + [line], places + [p], functions, target)
  {
    OneMore(lines, line);
    forall j | 0 <= j < |lines| + 1 ensures WellPlaced(lines + [line], places + [p], functions, target, j) {
      if j < |lines| {
        assert WellPlaced(lines, places, functions, target, j);
        assert (lines + [line])[..j] == lines[..j];
      }
    }
  }

  lemma PlaceStatic(lines: seq<string>, places: seq<Place>, line: string, p: Place)
    requires |lines| == |places|
    ensures IsStatic(lines + [line], places + [p]) <==>
            IsStatic(lines, places)
            || (p == Pending && (StartsWith(line, "static ")
                                 || (StartsWith(line, "#define ") && Blank(Concat(Select(lines, places, Pending))))))
  {
    OneMore(lines, line);
    OneMore(places, p);
    forall j | 0 <= j < |lines| ensures MakesStatic(lines + [line], places + [p], j) == MakesStatic(lines, places, j) {
      assert (lines + [line])[..j] == lines[..j] && (places + [p])[..j] == places[..j];
    }
    if IsStatic(lines, places) {
      var j :| 0 <= j < |lines| && MakesStatic(lines, places, j);
      assert MakesStatic(lines + [line], places + [p], j);
    }
    assert MakesStatic(lines + [line], places + [p], |lines|) <==>
           (p == Pending && (StartsWith(line, "static ")
                             || (StartsWith(line, "#define ") && Blank(Concat(Select(lines, places, Pending))))));
  }

  lemma CurrentText(lines: seq<string>, places: seq<Place>, common: string, current: string, functions: seq<string>)
    requires |lines| == |places| && Texts(lines, places, common, current, functions)
    ensures current == Concat(Select(lines, places, Pending))
  {
  }

  lemma NamespaceStep(lines: seq<string>, line: string, target: nat)
    ensures var d, lines' := Depth(lines), lines + [line];
            && Depth(lines') == d + Change(line)
            && Concat(Opened(lines', target)) ==
               Concat(Opened(lines, target)) + (if Opens(line) && d + 1 <= target then line else "")
            && Concat(Closed(lines', target)) ==
               Concat(Closed(lines, target)) + (if Closes(line) && d <= target then line else "")
  {
    OneMore(lines, line);
    OneMore(Opened(lines, target), line);
    OneMore(Closed(lines, target), line);
    assert Opened(lines, target) + [] == Opened(lines, target);
    assert Closed(lines, target) + [] == Closed(lines, target);
  }

  // ---------- the places of all lines ----------

  datatype Plan = Plan(places: seq<Place>, functions: nat, inDefine: bool)

  ghost function Ended(lines: seq<string>, p: Plan): (q: Plan)
    requires |lines| == |p.places|
    ensures |q.places| == |lines|
  {
    if IsStatic(lines, p.places) then Plan(Settle(p.places, Common), p.functions, false)
    else Plan(Settle(p.places, Function(p.functions)), p.functions + 1, false)
  }

  // Where one more line goes, and what becomes of the block it ends.
  ghost function NextPlan(lines: seq<string>, p: Plan, line: string, target: nat): (q: Plan)
    requires |lines| == |p.places|
    ensures |q.places| == |lines| + 1
  {
    var blank := Blank(Concat(Select(lines, p.places, Pending)));
    if IsNamespaceLine(line) then var q := Ended(lines, p); q.(places := q.places + [Common])
    else if StartsWith(line, "#undef") && blank then p.(places := p.places + [Dropped])
    else if Depth(lines) != target then p.(places := p.places + [Common])
    else
      var define := p.inDefine || (blank && StartsWith(line, "#define "));
      var q := Plan(p.places + [Pending], p.functions, define);
      if EndsBlock(line, define) then Ended(lines + [line], q) else q
  }

  ghost function PlanOf(lines: seq<string>, target: nat): (p: Plan)
    ensures |p.places| == |lines|
  {
    if lines == [] then Plan([], 0, false)
    else
      var n := |lines| - 1;
      NextPlan(lines[..n], PlanOf(lines[..n], target), lines[n], target)
  }

  lemma NextKeepsSettled(lines: seq<string>, p: Plan, line: string, target: nat, j: nat)
    requires j < |lines| == |p.places| && p.places[j] != Pending
    ensures NextPlan(lines, p, line, target).places[j] == p.places[j]
  {
    hide IsStatic, Blank, Concat, Select, Depth, EndsBlock, StartsWith, IsNamespaceLine;
  }

  // Once a line is settled, no later line moves it.
  lemma {:induction false} SettledStays(lines: seq<string>, target: nat, i: nat, j: nat)
    requires j < i <= |lines| && PlanOf(lines[..i], target).places[j] != Pending
    ensures PlanOf(lines, target).places[j] == PlanOf(lines[..i], target).places[j]
  {
    hide NextPlan;
    if i == |lines| {
      assert lines[..i] == lines;
    } else {
      var n := |lines| - 1;
      assert lines[..n][..i] == lines[..i];
      SettledStays(lines[..n], target, i, j);
      NextKeepsSettled(lines[..n], PlanOf(lines[..n], target), lines[n], target, j);
    }
  }

  // Off the target depth no block is open.
  lemma {:induction false} NothingPending(lines: seq<string>, target: nat)
    requires Depth(lines) != target
    ensures Pending !in PlanOf(lines, target).places
  {
    if lines != [] {
      var n := |lines| - 1;
      if !IsNamespaceLine(lines[n]) { NothingPending(lines[..n], target); }
      NextPending(lines[..n], PlanOf(lines[..n], target), lines[n], target);
    }
  }

  lemma NextPending(lines: seq<string>, p: Plan, line: string, target: nat)
    requires |lines| == |p.places|
    requires IsNamespaceLine(line) || (Depth(lines) != target && Pending !in p.places)
    ensures Pending !in NextPlan(lines, p, line, target).places
  {
    hide IsNamespaceLine, IsStatic, Depth, Blank, Concat, Select, EndsBlock;
  }

  // An open block reaches to the end, and the lines of a function are next to each other, apart from dropped lines.
  ghost predicate InBlocks(p: Plan) {
    OpenAtEnd(p.places) && Numbered(p.places, p.functions) && Contiguous(p.places)
  }

  ghost predicate OpenAtEnd(places: seq<Place>) {
    forall i, j | 0 <= i < j < |places| && places[i] == Pending :: places[j] == Pending || places[j] == Dropped
  }

  ghost predicate Numbered(places: seq<Place>, functions: nat) {
    forall i | 0 <= i < |places| && places[i].Function? :: places[i].k < functions
  }

  ghost predicate Contiguous(places: seq<Place>) {
    forall i, j, l | 0 <= i < j < l < |places| && places[i].Function? && places[l] == places[i] ::
      places[j] == places[i] || places[j] == Dropped
  }

  lemma SettleKeepsContiguous(places: seq<Place>, functions: nat, d: Place)
    requires OpenAtEnd(places) && Numbered(places, functions) && Contiguous(places) && (d == Common || d == Function(functions))
    ensures Contiguous(Settle(places, d))
  {
  }

  lemma SettleKeepsBlocks(p: Plan, d: Place, functions: nat)
    requires InBlocks(p) && if d == Common then functions == p.functions else d == Function(p.functions) && functions == p.functions + 1
    ensures InBlocks(Plan(Settle(p.places, d), functions, false))
  {
    SettleKeepsContiguous(p.places, p.functions, d);
    hide Contiguous;
  }

  lemma PlaceKeepsContiguous(places: seq<Place>, d: Place)
    requires Contiguous(places) && !d.Function?
    ensures Contiguous(places + [d])
  {
    var n, later := |places|, places + [d];
    assert forall i | 0 <= i < n :: later[i] == places[i];
    assert !later[n].Function?;
  }

  lemma PlaceKeepsBlocks(p: Plan, d: Place, define: bool)
    requires InBlocks(p) && (d == Common ==> Pending !in p.places) && d in {Common, Pending, Dropped}
    ensures InBlocks(Plan(p.places + [d], p.functions, define))
  {
    PlaceKeepsContiguous(p.places, d);
    hide Contiguous;
    var n, later := |p.places|, p.places + [d];
    assert forall i | 0 <= i < n :: later[i] == p.places[i];
    assert d == Common ==> forall i | 0 <= i < n :: later[i] != Pending;
  }

  lemma EndKeepsBlocks(lines: seq<string>, p: Plan)
    requires |lines| == |p.places| && InBlocks(p)
    ensures InBlocks(Ended(lines, p)) && Pending !in Ended(lines, p).places
  {
    hide InBlocks, IsStatic;
    SettleKeepsBlocks(p, Common, p.functions);
    SettleKeepsBlocks(p, Function(p.functions), p.functions + 1);
  }

  lemma NextKeepsBlocks(lines: seq<string>, p: Plan, line: string, target: nat)
    requires |lines| == |p.places| && InBlocks(p) && (Depth(lines) != target ==> Pending !in p.places)
    ensures InBlocks(NextPlan(lines, p, line, target))
  {
    hide InBlocks, IsStatic, Blank, Concat, Select, Depth, EndsBlock, Ended;
    var define := p.inDefine || (Blank(Concat(Select(lines, p.places, Pending))) && StartsWith(line, "#define "));
    var q := Plan(p.places + [Pending], p.functions, define);
    EndKeepsBlocks(lines, p);
    PlaceKeepsBlocks(Ended(lines, p), Common, Ended(lines, p).inDefine);
    PlaceKeepsBlocks(p, Dropped, p.inDefine);
    if Depth(lines) != target { PlaceKeepsBlocks(p, Common, p.inDefine); }
    PlaceKeepsBlocks(p, Pending, define);
    EndKeepsBlocks(lines + [line], q);
  }

  // For every file
  lemma {:induction false} FunctionsAreBlocks(lines: seq<string>, target: nat)
    ensures InBlocks(PlanOf(lines, target))
  {
    hide InBlocks, NextPlan;
    if lines == [] {
      EmptyPlan();
    } else {
      var n := |lines| - 1;
      FunctionsAreBlocks(lines[..n], target);
      if Depth(lines[..n]) != target { NothingPending(lines[..n], target); }
      NextKeepsBlocks(lines[..n], PlanOf(lines[..n], target), lines[n], target);
    }
  }

  lemma EmptyPlan()
    ensures InBlocks(Plan([], 0, false))
  {
  }

  datatype Outcome = Finished | Unfinished(current: string)

  class Splitter {
    const targetDepth: nat
    var depth: int
    var isStatic: bool
    var inDefine: bool
    var current: string
    var common: string
    var functions: seq<string>
    var namespaceBegin: string
    var namespaceEnd: string
    ghost var lines: seq<string>
    ghost var places: seq<Place>
    ghost var mark: nat

    ghost predicate Valid()
      reads this
    {
      && |places| == |lines| && OpenFrom(places, mark)
      && Texts(lines, places, common, current, functions)
      && depth == Depth(lines)
      && namespaceBegin == Concat(Opened(lines, targetDepth))
      && namespaceEnd == Concat(Closed(lines, targetDepth))
      && (depth != targetDepth ==> mark == |places| && current == "")
      && (isStatic <==> IsStatic(lines, places))
      && AllWellPlaced(lines, places, |functions|, targetDepth)
    }

    ghost function Progress(): Plan
      reads this
    {
      Plan(places, |functions|, inDefine)
    }

    constructor (isGenerated: bool)
      ensures Progress() == Plan([], 0, false)
      ensures Valid() && lines == [] && functions == [] && targetDepth == if isGenerated then 2 else 1
    {
      targetDepth := if isGenerated then 2 else 1;
      depth, isStatic, inDefine := 0, false, false;
      current, common, functions, namespaceBegin, namespaceEnd := "", "", [], "", "";
      lines, places, mark := [], [], 0;
    }

    // The end of a block: it goes to the common part if something in it is static, else it becomes a function.
    method EndBlock()
      requires Valid()
      modifies this
      ensures Valid() && lines == old(lines) && depth == old(depth) && mark == |places|
      ensures !isStatic && current == "" && Progress() == Ended(lines, old(Progress()))
      ensures namespaceBegin == old(namespaceBegin) && namespaceEnd == old(namespaceEnd)
    {
      hide Texts, AllWellPlaced, IsStatic, Depth, Opened, Closed, Concat, Select, Blank, EndsBlock;
      ghost var n := |functions|;
      if isStatic {
        SettleCommon(lines, places, mark, common, current, functions);
        SettleCommonPlaced(lines, places, n, targetDepth);
        SettledIsClosed(lines, places, Common);
        common := common + current;
        places := Settle(places, Common);
      } else {
        SettleFunction(lines, places, mark, common, current, functions, targetDepth);
        SettleFunctionPlaced(lines, places, mark, n, targetDepth);
        SettledIsClosed(lines, places, Function(n));
        functions := functions + [current];
        places := Settle(places, Function(n));
      }
      current, isStatic, inDefine := "", false, false;
      mark := |places|;
    }

    // Records where a line other than a block line went.
    ghost method Place(line: string, p: Place)
      requires Valid() && p in {Common, Dropped} && (p == Common ==> mark == |places|)
      requires p == Dropped ==> StartsWith(line, "#undef") && !IsNamespaceLine(line)
      modifies `lines, `places, `mark
      ensures |places| == |lines| && OpenFrom(places, mark)
      ensures mark == if p == Common || old(mark) == |old(places)| then |places| else old(mark)
      ensures lines == old(lines) + [line] && places == old(places) + [p]
      ensures Texts(lines, places, if p == Common then common + line else common, current, functions)
      ensures AllWellPlaced(lines, places, |functions|, targetDepth)
      ensures isStatic <==> IsStatic(lines, places)
    {
      hide Texts, AllWellPlaced, IsStatic, Depth, Opened, Closed, Concat, Select, Blank, EndsBlock;
      PlaceText(lines, places, line, p, common, current, functions);
      PlaceWell(lines, places, line, p, |functions|, targetDepth);
      PlaceStatic(lines, places, line, p);
      if mark == |places| { mark := mark + 1; }
      lines, places := lines + [line], places + [p];
    }

    method NamespaceLine(line: string)
      requires Valid() && IsNamespaceLine(line)
      modifies this
      ensures Valid() && lines == old(lines) + [line]
      ensures Progress() == NextPlan(old(lines), old(Progress()), line, targetDepth)
    {
      hide Texts, AllWellPlaced, IsStatic, Depth, Opened, Closed, Concat, Select, Blank, EndsBlock;
      EndBlock();
      NamespaceStep(lines, line, targetDepth);
      Place(line, Common);
      if Opens(line) {
        depth := depth + 1;
      }
      if depth <= targetDepth {
        if Opens(line) {
          namespaceBegin := namespaceBegin + line;
        } else {
          namespaceEnd := namespaceEnd + line;
        }
      }
      if !Opens(line) {
        depth := depth - 1;
      }
      common := common + line;
    }

    method AddToBlock(line: string)
      requires Valid() && !IsNamespaceLine(line) && depth == targetDepth
      modifies `current, `isStatic, `inDefine, `lines, `places
      ensures Valid() && lines == old(lines) + [line] && places == old(places) + [Pending]
      ensures inDefine == (old(inDefine) || (old(Blank(current)) && StartsWith(line, "#define ")))
    {
      hide Texts, AllWellPlaced, IsStatic, Depth, Opened, Closed, Concat, Select, Blank, StartsWith, WellPlaced;
      PlaceText(lines, places, line, Pending, common, current, functions);
      PlaceWell(lines, places, line, Pending, |functions|, targetDepth);
      PlaceStatic(lines, places, line, Pending);
      CurrentText(lines, places, common, current, functions);
      NamespaceStep(lines, line, targetDepth);
      if StartsWith(line, "static ") {
        isStatic := true;
      }
      if Blank(current) && StartsWith(line, "#define ") {
        isStatic := true;
        inDefine := true;
      }
      current := current + line;
      lines, places := lines + [line], places + [Pending];
    }

    // A line at the target depth joins the open block and may end it.
    method BlockLine(line: string)
      requires Valid() && !IsNamespaceLine(line) && depth == targetDepth
      modifies this
      requires !(StartsWith(line, "#undef") && Blank(current))
      ensures Valid() && lines == old(lines) + [line]
      ensures Progress() == NextPlan(old(lines), old(Progress()), line, targetDepth)
    {
      hide Texts, AllWellPlaced, IsStatic, Depth, Opened, Closed, Concat, Select, Blank, EndsBlock;
      CurrentText(lines, places, common, current, functions);
      AddToBlock(line);
      if EndsBlock(line, inDefine) {
        EndBlock();
      }
    }

    method Line(line: string)
      requires Valid()
      modifies this
      ensures Valid() && lines == old(lines) + [line]
      ensures Progress() == NextPlan(old(lines), old(Progress()), line, targetDepth)
    {
      hide Texts, AllWellPlaced, IsStatic, Depth, Opened, Closed, Concat, Select, Blank, EndsBlock;
      if IsNamespaceLine(line) {
        NamespaceLine(line);
        return;
      }
      NamespaceStep(lines, line, targetDepth);
      CurrentText(lines, places, common, current, functions);
      if StartsWith(line, "#undef") && Blank(current) {
        Place(line, Dropped);
        return;
      }
      if depth != targetDepth {
        Place(line, Common);
        common := common + line;
        return;
      }
      BlockLine(line);
    }
  }

  // Lines 73-145: the file is refused only if an unfinished block that is not blank is left over.
  method SplitLines(lines: seq<string>, isGenerated: bool) returns (splitter: Splitter, outcome: Outcome)
    ensures fresh(splitter) && splitter.Valid() && splitter.lines == lines
    ensures splitter.targetDepth == if isGenerated then 2 else 1
    ensures splitter.Progress() == PlanOf(lines, splitter.targetDepth)
    ensures outcome == if Blank(splitter.current) then Finished else Unfinished(splitter.current)
  {
    hide NextPlan, Texts, AllWellPlaced, IsStatic, Depth, Opened, Closed, Concat, Select, Blank;
    splitter := new Splitter(isGenerated);
    for i := 0 to |lines|
      invariant splitter.Valid() && fresh(splitter) && splitter.lines == lines[..i]
      invariant splitter.Progress() == PlanOf(lines[..i], splitter.targetDepth)
    {
      assert lines[..i + 1][..i] == lines[..i];
      splitter.Line(lines[i]);
    }
    assert lines[..|lines|] == lines;
    outcome := if Blank(splitter.current) then Finished else Unfinished(splitter.current);
  }
}
