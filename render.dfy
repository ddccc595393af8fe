/** The renderer: the body of `run` after the file has been read.  It sizes
    the output buffer, then appends each match to it, with or without the
    line-number gutter. */
module Render {
  import opened RustStr
  import opened Matcher

  /** The part of `Config` that `run` uses once the contents are read. */
  datatype Config = Config(query: string, caseSensitive: bool, ln: bool)

  // ---------------------------------------------------------------------
  // What the output is
  // ---------------------------------------------------------------------

  /** What one match contributes to the output: the numeral, the separator
      and the text when line numbers are on, the text alone otherwise, and a
      line feed in both cases. */
  function RenderedLine(line: Line, ln: bool): string {
    if ln then NatToString(line.number) + Separator(line) + line.content + "\n"
    else line.content + "\n"
  }

  /** The output for a list of matches: their rendered lines, in order. */
  function Rendered(lines: seq<Line>, ln: bool): string {
    if lines == [] then ""
    else Rendered(lines[..|lines| - 1], ln) + RenderedLine(lines[|lines| - 1], ln)
  }

  /** The texts of the matches. */
  function Contents(lines: seq<Line>): seq<string> {
    seq(|lines|, k requires 0 <= k < |lines| => lines[k].content)
  }

  // ---------------------------------------------------------------------
  // The capacity hint
  // ---------------------------------------------------------------------

  /** The summand the capacity computation of `run` uses for one match. */
  function LineCapacity(line: Line, ln: bool): nat {
    if ln then NumberLen(line) + |Separator(line)| + |line.content| + 1
    else |line.content| + 1
  }

  /** The capacity `run` reserves: the sum of the summands. */
  function Capacity(lines: seq<Line>, ln: bool): nat {
    if lines == [] then 0
    else Capacity(lines[..|lines| - 1], ln) + LineCapacity(lines[|lines| - 1], ln)
  }

  // ---------------------------------------------------------------------
  // The code of `run`
  // ---------------------------------------------------------------------

  /** Extending a prefix of the matches by one extends its output by that
      match's rendered line. */
  lemma RenderedPrefix(lines: seq<Line>, i: nat, ln: bool)
    requires i < |lines|
    ensures Rendered(lines[..i + 1], ln) == Rendered(lines[..i], ln) + RenderedLine(lines[i], ln)
  {
    assert lines[..i + 1][..i] == lines[..i];
  }

  /** Pushing the pieces of a rendered line one by one appends that line. */
  lemma PushedLine(before: string, line: Line, ln: bool)
    ensures ln ==> before + NatToString(line.number) + Separator(line) + line.content + "\n"
                   == before + RenderedLine(line, ln)
    ensures !ln ==> before + line.content + "\n" == before + RenderedLine(line, ln)
  {
  }

  /** The output loop of `run`: a buffer reserved with `capacity` grows by
      one rendered line per match.  The capacity is only an allocation hint:
      the text is the same whatever its value. */
  method Render(lines: seq<Line>, ln: bool, capacity: nat) returns (output: string)
    ensures output == Rendered(lines, ln)
  {
    output := "";
    for i := 0 to |lines|
      invariant output == Rendered(lines[..i], ln)
    {
      var line := lines[i];
      ghost var before := output;
      if ln {
        output := output + NatToString(line.number);
        output := output + Separator(line);
        output := output + line.content;
      } else {
        output := output + line.content;
      }
      output := output + "\n";
      PushedLine(before, line, ln);
      RenderedPrefix(lines, i, ln);
    }
    assert lines[..|lines|] == lines;
  }

  /** `run` without its file read and its print: search the contents as the
      configuration says, size the buffer, render the matches. */
  method Run(config: Config, contents: string) returns (output: string)
    ensures output == Rendered(Search(config.query, contents, config.caseSensitive), config.ln)
  {
    var lines := Search(config.query, contents, config.caseSensitive);
    var capacity := Capacity(lines, config.ln);
    output := Render(lines, config.ln, capacity);
  }

  // ---------------------------------------------------------------------
  // Properties of the output
  // ---------------------------------------------------------------------

  lemma {:induction false} UnlinesSnoc(ls: seq<string>, l: string)
    ensures Unlines(ls + [l]) == Unlines(ls) + l + "\n"
  {
    if ls != [] {
      assert (ls + [l])[1..] == ls[1..] + [l];
      UnlinesSnoc(ls[1..], l);
    } else {
      assert ls + [l] == [l];
    }
  }

  /** Without line numbers the output is every match's text followed by a
      line feed, in order. */
  lemma {:induction false} RenderedPlain(lines: seq<Line>)
    ensures Rendered(lines, false) == Unlines(Contents(lines))
  {
    if lines != [] {
      var init := lines[..|lines| - 1];
      RenderedPlain(init);
      assert Contents(lines) == Contents(init) + [lines[|lines| - 1].content];
      UnlinesSnoc(Contents(init), lines[|lines| - 1].content);
    }
  }

  /** Splitting the plain output into lines gives back the matched texts,
      provided none holds a line feed or ends with a carriage return. */
  lemma PlainOutputSplitsBack(lines: seq<Line>)
    requires forall k :: 0 <= k < |lines| ==> '\n' !in lines[k].content && !EndsWithCr(lines[k].content)
    ensures Lines(Rendered(lines, false)) == Contents(lines)
  {
    RenderedPlain(lines);
    LinesOfUnlines(Contents(lines));
  }

  lemma NoNewlineInNumeral(n: nat)
    ensures '\n' !in NatToString(n)
  {
    var s := NatToString(n);
    assert forall k :: 0 <= k < |s| ==> IsDigit(s[k]);
  }

  /** Each rendered line holds exactly one line feed, at its end. */
  lemma RenderedLineNewlines(line: Line, ln: bool)
    requires '\n' !in line.content
    ensures Count('\n', RenderedLine(line, ln)) == 1
  {
    CountAppend('\n', line.content, "\n");
    CountAbsent('\n', line.content);
    if ln {
      var gutter := NatToString(line.number) + Separator(line);
      NoNewlineInNumeral(line.number);
      assert '\n' !in Separator(line);
      CountAppend('\n', NatToString(line.number), Separator(line));
      CountAbsent('\n', NatToString(line.number));
      CountAbsent('\n', Separator(line));
      CountAppend('\n', gutter, line.content + "\n");
      assert RenderedLine(line, ln) == gutter + (line.content + "\n");
    }
  }

  /** The output holds one line feed per match. */
  lemma {:induction false} RenderedNewlines(lines: seq<Line>, ln: bool)
    requires forall k :: 0 <= k < |lines| ==> '\n' !in lines[k].content
    ensures Count('\n', Rendered(lines, ln)) == |lines|
  {
    if lines != [] {
      var init := lines[..|lines| - 1];
      RenderedNewlines(init, ln);
      RenderedLineNewlines(lines[|lines| - 1], ln);
      CountAppend('\n', Rendered(init, ln), RenderedLine(lines[|lines| - 1], ln));
    }
  }

  /** The output of `run` holds one line feed per matching line. */
  lemma RunNewlines(config: Config, contents: string)
    ensures var matches := Search(config.query, contents, config.caseSensitive);
            Count('\n', Rendered(matches, config.ln)) == |matches|
  {
    var matches := Search(config.query, contents, config.caseSensitive);
    SearchNumbersInRange(config.query, contents, config.caseSensitive);
    RenderedNewlines(matches, config.ln);
  }

  /** Empty contents render to the empty output. */
  lemma RunEmptyContents(config: Config)
    ensures Rendered(Search(config.query, "", config.caseSensitive), config.ln) == ""
  {
    SearchEmptyContents(config.query, config.caseSensitive);
  }

  /** With line numbers, a match numbered below 1000 starts with a six-column
      gutter whose bar is in column 4, followed by its text. */
  lemma GutterColumns(line: Line)
    requires line.number < 1000
    ensures var out := RenderedLine(line, true);
            |out| == 6 + |line.content| + 1 && out[4] == '|' && out[6..] == line.content + "\n"
  {
    GutterAligned(line);
    var gutter := NatToString(line.number) + Separator(line);
    assert RenderedLine(line, true) == gutter + (line.content + "\n");
  }

  /** A match numbered 1000 or more gets neither padding nor bar: its numeral
      runs straight into its text. */
  lemma WideNumberHasNoGutter(line: Line)
    requires line.number >= 1000
    ensures RenderedLine(line, true) == NatToString(line.number) + line.content + "\n"
  {
  }

  /** The summand of one match is its rendered length, except that a match
      numbered 1000 or more is undercounted by the length of its numeral. */
  lemma LineCapacityLength(line: Line, ln: bool)
    ensures |RenderedLine(line, ln)| ==
            LineCapacity(line, ln) + (if ln && line.number >= 1000 then |NatToString(line.number)| else 0)
  {
  }

  /** How far the capacity falls short of the output: the numerals of the
      matches numbered 1000 or more, when line numbers are on. */
  function Undercount(lines: seq<Line>, ln: bool): nat {
    if lines == [] then 0
    else
      var last := lines[|lines| - 1];
      Undercount(lines[..|lines| - 1], ln) + (if ln && last.number >= 1000 then |NatToString(last.number)| else 0)
  }

  /** The output is exactly as long as the capacity plus the undercount. */
  lemma {:induction false} RenderedLength(lines: seq<Line>, ln: bool)
    ensures |Rendered(lines, ln)| == Capacity(lines, ln) + Undercount(lines, ln)
  {
    if lines != [] {
      RenderedLength(lines[..|lines| - 1], ln);
      LineCapacityLength(lines[|lines| - 1], ln);
    }
  }

  /** There is no undercount exactly when line numbers are off or every match
      is numbered below 1000. */
  lemma {:induction false} UndercountZero(lines: seq<Line>, ln: bool)
    ensures Undercount(lines, ln) == 0 <==> (!ln || forall k :: 0 <= k < |lines| ==> lines[k].number < 1000)
  {
    if lines != [] {
      var init, last := lines[..|lines| - 1], lines[|lines| - 1];
      UndercountZero(init, ln);
      NatToStringLength(last.number);
      assert forall k :: 0 <= k < |init| ==> init[k] == lines[k];
    }
  }

  /** The capacity never exceeds the output length; it equals it when line
      numbers are off or every match is numbered below 1000, and it falls
      strictly short otherwise. */
  lemma CapacityBound(lines: seq<Line>, ln: bool)
    ensures Capacity(lines, ln) <= |Rendered(lines, ln)|
    ensures (!ln || forall k :: 0 <= k < |lines| ==> lines[k].number < 1000) ==>
              Capacity(lines, ln) == |Rendered(lines, ln)|
    ensures (ln && exists k :: 0 <= k < |lines| && lines[k].number >= 1000) ==>
              Capacity(lines, ln) < |Rendered(lines, ln)|
  {
    RenderedLength(lines, ln);
    UndercountZero(lines, ln);
  }

  // ---------------------------------------------------------------------
  // Examples of the gutter
  // ---------------------------------------------------------------------

  /** A single match with line numbers renders as its numeral, its
      separator, its text and a line feed. */
  lemma RenderedSingle(line: Line, numeral: string, separator: string)
    requires NatToString(line.number) == numeral && Separator(line) == separator
    ensures Rendered([line], true) == numeral + separator + line.content + "\n"
  {
    assert [line][..0] == [];
  }

  /** The numerals of the example line numbers. */
  lemma NumeralExamples()
    ensures NatToString(2) == "2" && NatToString(10) == "10"
    ensures NatToString(100) == "100" && NatToString(1000) == "1000"
  {
    assert NatToString(1) == "1";
    assert NatToString(10) == "10";
    assert NatToString(100) == "100";
  }

  /** The separators of the example line numbers, one per numeral width. */
  lemma SeparatorExamples(content: string)
    ensures Separator(Line(2, content)) == "   | " && Separator(Line(10, content)) == "  | "
    ensures Separator(Line(100, content)) == " | " && Separator(Line(1000, content)) == ""
  {
  }

  lemma RenderOneDigitExample()
    ensures Rendered([Line(2, "line text")], true) == "2   | line text\n"
  {
    var line := Line(2, "line text");
    assert NatToString(2) == "2" by {
      NumeralExamples();
    }
    assert Separator(line) == "   | " by {
      SeparatorExamples(line.content);
    }
    RenderedSingle(line, "2", "   | ");
  }

  lemma RenderTwoDigitExample()
    ensures Rendered([Line(10, "line text")], true) == "10  | line text\n"
  {
    var line := Line(10, "line text");
    assert NatToString(10) == "10" by {
      NumeralExamples();
    }
    assert Separator(line) == "  | " by {
      SeparatorExamples(line.content);
    }
    RenderedSingle(line, "10", "  | ");
  }

  lemma RenderThreeDigitExample()
    ensures Rendered([Line(100, "line text")], true) == "100 | line text\n"
  {
    var line := Line(100, "line text");
    assert NatToString(100) == "100" by {
      NumeralExamples();
    }
    assert Separator(line) == " | " by {
      SeparatorExamples(line.content);
    }
    RenderedSingle(line, "100", " | ");
  }

  lemma RenderFourDigitExample()
    ensures Rendered([Line(1000, "line text")], true) == "1000line text\n"
  {
    var line := Line(1000, "line text");
    assert NatToString(1000) == "1000" by {
      NumeralExamples();
    }
    assert Separator(line) == "" by {
      SeparatorExamples(line.content);
    }
    RenderedSingle(line, "1000", "");
  }
}
