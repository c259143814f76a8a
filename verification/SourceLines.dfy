/** Text and its lines (SplitSource.php, lines 73 and 205): file() cuts a text after every line end, and the output
    files are put together as text again. */
module SourceLines {
  import opened Basics

  // A line with its line end, and a last line without one.
  predicate Whole(line: string) {
    line != "" && line[|line| - 1] == '\n' && '\n' !in line[..|line| - 1]
  }

  predicate Stub(line: string) {
    line != "" && '\n' !in line
  }

  ghost predicate AllWhole(lines: seq<string>) {
    forall i | 0 <= i < |lines| :: Whole(lines[i])
  }

  // Only the last line may lack its line end.
  ghost predicate AreLines(lines: seq<string>) {
    lines != [] ==> AllWhole(lines[..|lines| - 1]) && (Whole(lines[|lines| - 1]) || Stub(lines[|lines| - 1]))
  }

  // The length of the first line
  function FirstLine(text: string): (k: nat)
    requires text != ""
    ensures 0 < k <= |text| && (Whole(text[..k]) || (k == |text| && Stub(text)))
  {
    if text[0] == '\n' || |text| == 1 then 1
    else
      var k := FirstLine(text[1..]);
      assert text[..k + 1] == [text[0]] + text[1..][..k];
      assert text == [text[0]] + text[1..];
      k + 1
  }

  // file()
  function LinesOf(text: string): seq<string> {
    if text == "" then [] else var k := FirstLine(text); [text[..k]] + LinesOf(text[k..])
  }

  lemma ConcatFirst(line: string, rest: seq<string>)
    ensures Concat([line] + rest) == line + Concat(rest)
  {
    ConcatAppend([line], rest);
    assert [line][..0] == [];
    assert Concat([line]) == line;
  }

  lemma {:induction false} LinesOfAre(text: string)
    ensures AreLines(LinesOf(text)) && Concat(LinesOf(text)) == text
  {
    hide AreLines, Whole, Stub, Concat;
    if text == "" {
      NoLines();
    } else {
      var k := FirstLine(text);
      var rest := LinesOf(text[k..]);
      LinesOfAre(text[k..]);
      ConcatFirst(text[..k], rest);
      assert text == text[..k] + text[k..];
      if k == |text| { assert text[..k] == text && text[k..] == ""; }
      FirstOfLines(text[..k], rest);
    }
  }

  lemma NoLines()
    ensures AreLines([]) && Concat<char>([]) == ""
  {
  }

  lemma FirstOfLines(line: string, rest: seq<string>)
    requires AreLines(rest) && if rest == [] then Whole(line) || Stub(line) else Whole(line)
    ensures AreLines([line] + rest)
  {
    var lines := [line] + rest;
    if rest != [] {
      assert lines[..|lines| - 1] == [line] + rest[..|rest| - 1];
    }
  }

  // The first line of a text that begins with a whole line is that line.
  lemma {:induction false} FirstLineIs(line: string, rest: string)
    requires Whole(line) || (Stub(line) && rest == "")
    ensures FirstLine(line + rest) == |line|
  {
    var text := line + rest;
    if |line| > 1 {
      var tail := line[1..];
      assert tail[..|tail| - 1] == line[1..|line| - 1];
      assert line[0] in line[..|line| - 1] && line[0] in line;
      FirstLineIs(tail, rest);
      assert text[1..] == tail + rest;
    }
  }

  // Reading back text put together from lines gives the lines.
  lemma {:induction false} ReadBack(lines: seq<string>)
    requires AreLines(lines)
    ensures LinesOf(Concat(lines)) == lines
  {
    if lines != [] {
      var line, rest := lines[0], lines[1..];
      assert lines == [line] + rest;
      RestAreLines(lines);
      ReadBack(rest);
      ConcatFirst(line, rest);
      if rest == [] { assert Concat(rest) == ""; }
      FirstLineIs(line, Concat(rest));
      var text := line + Concat(rest);
      assert text[..|line|] == line && text[|line|..] == Concat(rest);
    }
  }

  lemma RestAreLines(lines: seq<string>)
    requires AreLines(lines) && lines != []
    ensures AreLines(lines[1..])
    ensures Whole(lines[0]) || (Stub(lines[0]) && |lines| == 1)
  {
    var rest := lines[1..];
    if rest != [] {
      assert lines[..|lines| - 1][0] == lines[0];
      var front := rest[..|rest| - 1];
      forall i | 0 <= i < |front| ensures Whole(front[i]) {
        assert lines[..|lines| - 1][i + 1] == front[i];
      }
    }
  }
}
