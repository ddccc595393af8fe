/** The matcher: `search_case_sensitive`, `search_case_insensitive` and the
    `Line` record they produce, with its gutter helpers `number_len` and
    `separator`. */
module Matcher {
  import opened RustStr

  /** One matching line: its 1-based position in the file and its text,
      without terminator and in its original case. */
  datatype Line = Line(number: nat, content: string)

  // ---------------------------------------------------------------------
  // What a search result is
  // ---------------------------------------------------------------------

  ghost predicate Increasing(r: seq<Line>) {
    forall k, j :: 0 <= k < j < |r| ==> r[k].number < r[j].number
  }

  ghost predicate HasNumber(r: seq<Line>, n: nat) {
    exists k :: 0 <= k < |r| && r[k].number == n
  }

  /** Every number of `a` is a number of `b`. */
  ghost predicate NumbersIn(a: seq<Line>, b: seq<Line>) {
    forall k :: 0 <= k < |a| ==> HasNumber(b, a[k].number)
  }

  /** `r` lists exactly the lines of `ls` that `keep` accepts, in file order,
      each with its 1-based number and its own text. */
  ghost predicate ExactlyMatching(r: seq<Line>, ls: seq<string>, keep: string -> bool) {
    OnlyMatching(r, ls, keep) && Increasing(r) && AllMatching(r, ls, keep)
  }

  /** Every entry of `r` is an accepted line of `ls` under its 1-based number. */
  ghost predicate OnlyMatching(r: seq<Line>, ls: seq<string>, keep: string -> bool) {
    forall k :: 0 <= k < |r| ==>
      1 <= r[k].number <= |ls| && r[k].content == ls[r[k].number - 1] && keep(r[k].content)
  }

  /** Every accepted line of `ls` has its 1-based number in `r`. */
  ghost predicate AllMatching(r: seq<Line>, ls: seq<string>, keep: string -> bool) {
    forall n :: 1 <= n <= |ls| && keep(ls[n - 1]) ==> HasNumber(r, n)
  }

  /** `ls.zip(first..).filter(keep).map(Line)`: the lines that `keep` accepts,
      numbered from `first`. */
  function Select(ls: seq<string>, first: nat, keep: string -> bool): seq<Line>
    decreases |ls|
  {
    if ls == [] then []
    else if keep(ls[0]) then [Line(first, ls[0])] + Select(ls[1..], first + 1, keep)
    else Select(ls[1..], first + 1, keep)
  }

  /** Every line `Select` returns is an accepted line of `ls`, under its own
      number. */
  lemma {:induction false} SelectSound(ls: seq<string>, first: nat, keep: string -> bool)
    ensures var r := Select(ls, first, keep);
            && |r| <= |ls|
            && (forall k :: 0 <= k < |r| ==>
                  first <= r[k].number < first + |ls| && r[k].content == ls[r[k].number - first]
                  && keep(r[k].content))
    decreases |ls|
  {
    if ls != [] {
      var tail := ls[1..];
      var rest := Select(tail, first + 1, keep);
      SelectSound(tail, first + 1, keep);
      if keep(ls[0]) {
        var r := [Line(first, ls[0])] + rest;
        assert forall k :: 0 < k < |r| ==> r[k] == rest[k - 1];
      }
    }
  }

  /** `Select` returns the lines in file order. */
  lemma {:induction false} SelectIncreasing(ls: seq<string>, first: nat, keep: string -> bool)
    ensures Increasing(Select(ls, first, keep))
    decreases |ls|
  {
    if ls != [] {
      var tail := ls[1..];
      var rest := Select(tail, first + 1, keep);
      SelectIncreasing(tail, first + 1, keep);
      if keep(ls[0]) {
        SelectSound(tail, first + 1, keep);
        var r := [Line(first, ls[0])] + rest;
        assert forall k :: 0 < k < |r| ==> r[k] == rest[k - 1];
      }
    }
  }
  /** `Select` misses no accepted line. */
  lemma {:induction false} SelectComplete(ls: seq<string>, first: nat, keep: string -> bool)
    ensures forall i :: 0 <= i < |ls| && keep(ls[i]) ==> HasNumber(Select(ls, first, keep), first + i)
    decreases |ls|
  {
    if ls != [] {
      var tail := ls[1..];
      var rest := Select(tail, first + 1, keep);
      SelectComplete(tail, first + 1, keep);
      var r := Select(ls, first, keep);
      forall i | 0 <= i < |ls| && keep(ls[i]) ensures HasNumber(r, first + i) {
        if i == 0 {
          assert r[0].number == first;
        } else {
          assert ls[i] == tail[i - 1];
          assert HasNumber(rest, first + 1 + (i - 1));
          var k :| 0 <= k < |rest| && rest[k].number == first + i;
          if keep(ls[0]) {
            assert r[k + 1] == rest[k];
          } else {
            assert r[k] == rest[k];
          }
        }
      }
    }
  }

  /** Numbered from 1, `Select` lists exactly the accepted lines. */
  lemma SelectExactlyMatching(ls: seq<string>, keep: string -> bool)
    ensures ExactlyMatching(Select(ls, 1, keep), ls, keep)
  {
    var r := Select(ls, 1, keep);
    assert OnlyMatching(r, ls, keep) by {
      SelectSound(ls, 1, keep);
    }
    assert Increasing(r) by {
      SelectIncreasing(ls, 1, keep);
    }
    assert AllMatching(r, ls, keep) by {
      SelectComplete(ls, 1, keep);
      forall n | 1 <= n <= |ls| && keep(ls[n - 1]) ensures HasNumber(r, n) {
        assert 0 <= n - 1 < |ls| && keep(ls[n - 1]);
      }
    }
  }

  // ---------------------------------------------------------------------
  // The two searches
  // ---------------------------------------------------------------------

  /** The filter of `search_case_sensitive`. */
  function HasQuery(query: string): string -> bool {
    line => Contains(line, query)
  }

  /** The filter of `search_case_insensitive`: both sides lower-cased. */
  function HasQueryIgnoringCase(query: string): string -> bool {
    line => Contains(ToLowercase(line), ToLowercase(query))
  }

  /** `search_case_sensitive`: the lines of `contents` that contain `query`. */
  function SearchCaseSensitive(query: string, contents: string): seq<Line> {
    Select(Lines(contents), 1, HasQuery(query))
  }

  /** `search_case_insensitive`: the lines whose lower-cased text contains the
      lower-cased query; the stored text is the original line. */
  function SearchCaseInsensitive(query: string, contents: string): seq<Line> {
    Select(Lines(contents), 1, HasQueryIgnoringCase(query))
  }

  /** The case-sensitive search returns exactly the lines of `contents` that
      contain `query`, in file order, each under its 1-based number. */
  lemma SearchCaseSensitiveExact(query: string, contents: string)
    ensures ExactlyMatching(SearchCaseSensitive(query, contents), Lines(contents), HasQuery(query))
  {
    SelectExactlyMatching(Lines(contents), HasQuery(query));
  }

  /** The case-insensitive search returns exactly the lines whose lower-cased
      text contains the lower-cased query, in file order, each under its
      1-based number and with its original text. */
  lemma SearchCaseInsensitiveExact(query: string, contents: string)
    ensures ExactlyMatching(SearchCaseInsensitive(query, contents), Lines(contents), HasQueryIgnoringCase(query))
  {
    SelectExactlyMatching(Lines(contents), HasQueryIgnoringCase(query));
  }

  /** The search used by `run`, chosen by the case-sensitivity flag. */
  function Search(query: string, contents: string, caseSensitive: bool): seq<Line> {
    if caseSensitive then SearchCaseSensitive(query, contents) else SearchCaseInsensitive(query, contents)
  }

  // ---------------------------------------------------------------------
  // Properties of the searches
  // ---------------------------------------------------------------------

  /** Two increasing sequences holding the same numbers start alike. */
  lemma SameFirst(a: seq<Line>, b: seq<Line>)
    requires Increasing(a) && Increasing(b) && a != [] && b != []
    requires NumbersIn(a, b) && NumbersIn(b, a)
    ensures a[0].number == b[0].number
  {
    assert HasNumber(b, a[0].number);
    assert HasNumber(a, b[0].number);
  }

  /** Once the first numbers agree, the numbers of the tails are shared too. */
  lemma TailNumbersIn(a: seq<Line>, b: seq<Line>)
    requires Increasing(a) && Increasing(b) && a != [] && b != []
    requires NumbersIn(a, b) && a[0].number == b[0].number
    ensures NumbersIn(a[1..], b[1..])
  {
    forall k | 0 <= k < |a[1..]| ensures HasNumber(b[1..], a[1..][k].number) {
      assert a[1..][k] == a[k + 1];
      assert HasNumber(b, a[k + 1].number);
      var m :| 0 <= m < |b| && b[m].number == a[k + 1].number;
      assert b[1..][m - 1] == b[m];
    }
  }

  /** Two increasing sequences that hold the same line numbers agree
      number by number. */
  lemma {:induction false} IncreasingSameNumbers(a: seq<Line>, b: seq<Line>)
    requires Increasing(a) && Increasing(b)
    requires NumbersIn(a, b) && NumbersIn(b, a)
    ensures |a| == |b|
    ensures forall k :: 0 <= k < |a| ==> a[k].number == b[k].number
  {
    if a != [] {
      assert HasNumber(b, a[0].number);
    }
    if b != [] {
      assert HasNumber(a, b[0].number);
    }
    if a != [] && b != [] {
      SameFirst(a, b);
      TailNumbersIn(a, b);
      TailNumbersIn(b, a);
      IncreasingSameNumbers(a[1..], b[1..]);
      assert forall k :: 0 < k < |a| ==> a[k] == a[1..][k - 1];
      assert forall k :: 0 < k < |b| ==> b[k] == b[1..][k - 1];
    }
  }

  /** A search result is determined by the lines and the predicate: there is
      only one sequence listing exactly the accepted lines in order. */
  lemma MatchingIsUnique(r1: seq<Line>, r2: seq<Line>, ls: seq<string>, keep: string -> bool)
    requires ExactlyMatching(r1, ls, keep) && ExactlyMatching(r2, ls, keep)
    ensures r1 == r2
  {
    forall k | 0 <= k < |r1| ensures HasNumber(r2, r1[k].number) {
      assert keep(ls[r1[k].number - 1]);
    }
    forall k | 0 <= k < |r2| ensures HasNumber(r1, r2[k].number) {
      assert keep(ls[r2[k].number - 1]);
    }
    IncreasingSameNumbers(r1, r2);
    assert forall k :: 0 <= k < |r1| ==> r1[k] == r2[k];
  }

  /** Every line number in a result is a real line of the file, and the text
      stored with it is that line. */
  lemma SearchNumbersInRange(query: string, contents: string, caseSensitive: bool)
    ensures var r := Search(query, contents, caseSensitive);
            Increasing(r) &&
            forall k :: 0 <= k < |r| ==>
              1 <= r[k].number <= |Lines(contents)| && r[k].content == Lines(contents)[r[k].number - 1]
  {
    if caseSensitive {
      SelectSound(Lines(contents), 1, HasQuery(query));
      SelectIncreasing(Lines(contents), 1, HasQuery(query));
    } else {
      SelectSound(Lines(contents), 1, HasQueryIgnoringCase(query));
      SelectIncreasing(Lines(contents), 1, HasQueryIgnoringCase(query));
    }
  }

  /** Empty contents have no lines, so nothing matches. */
  lemma SearchEmptyContents(query: string, caseSensitive: bool)
    ensures Search(query, "", caseSensitive) == []
  {
  }

  /** A filter that accepts every line selects every line, numbered from 1. */
  lemma SelectAcceptingAll(ls: seq<string>, keep: string -> bool)
    requires forall k :: 0 <= k < |ls| ==> keep(ls[k])
    ensures Select(ls, 1, keep) == seq(|ls|, i requires 0 <= i < |ls| => Line(i + 1, ls[i]))
  {
    var all := seq(|ls|, i requires 0 <= i < |ls| => Line(i + 1, ls[i]));
    assert OnlyMatching(all, ls, keep) by {
      forall k | 0 <= k < |all| ensures all[k].content == ls[all[k].number - 1] && keep(all[k].content) {
        assert all[k].number - 1 == k;
      }
    }
    assert AllMatching(all, ls, keep) by {
      forall n | 1 <= n <= |ls| && keep(ls[n - 1]) ensures HasNumber(all, n) {
        assert all[n - 1].number == n;
      }
    }
    SelectExactlyMatching(ls, keep);
    MatchingIsUnique(Select(ls, 1, keep), all, ls, keep);
  }

  /** The empty query is contained in every line, so the case-sensitive search
      returns every line, numbered from 1. */
  lemma EmptyQueryMatchesEveryLine(contents: string)
    ensures var ls := Lines(contents);
            SearchCaseSensitive("", contents) == seq(|ls|, i requires 0 <= i < |ls| => Line(i + 1, ls[i]))
  {
    var ls := Lines(contents);
    forall k | 0 <= k < |ls| ensures HasQuery("")(ls[k]) {
      ContainsEmpty(ls[k]);
    }
    SelectAcceptingAll(ls, HasQuery(""));
  }

  /** The lower-cased empty query is empty too, so the case-insensitive search
      also returns every line, numbered from 1. */
  lemma EmptyQueryMatchesEveryLineIgnoringCase(contents: string)
    ensures var ls := Lines(contents);
            SearchCaseInsensitive("", contents) == seq(|ls|, i requires 0 <= i < |ls| => Line(i + 1, ls[i]))
  {
    var ls := Lines(contents);
    assert ToLowercase("") == "";
    forall k | 0 <= k < |ls| ensures HasQueryIgnoringCase("")(ls[k]) {
      ContainsEmpty(ToLowercase(ls[k]));
    }
    SelectAcceptingAll(ls, HasQueryIgnoringCase(""));
  }

  /** Folding case only adds matches: every case-sensitive match is also a
      case-insensitive match. */
  lemma InsensitiveFindsAll(query: string, contents: string)
    ensures forall m :: m in SearchCaseSensitive(query, contents) ==> m in SearchCaseInsensitive(query, contents)
  {
    var ls := Lines(contents);
    var keepS := HasQuery(query);
    var keepI := HasQueryIgnoringCase(query);
    var sensitive := SearchCaseSensitive(query, contents);
    var insensitive := SearchCaseInsensitive(query, contents);
    SearchCaseSensitiveExact(query, contents);
    SearchCaseInsensitiveExact(query, contents);
    assert ExactlyMatching(sensitive, ls, keepS);
    assert ExactlyMatching(insensitive, ls, keepI);
    forall k | 0 <= k < |sensitive| ensures sensitive[k] in insensitive {
      var m := sensitive[k];
      assert 1 <= m.number <= |ls| && m.content == ls[m.number - 1] && Contains(m.content, query);
      ContainsLowercase(m.content, query);
      assert keepI(ls[m.number - 1]);
      assert HasNumber(insensitive, m.number);
      var j :| 0 <= j < |insensitive| && insensitive[j].number == m.number;
      assert insensitive[j] == m;
    }
  }

  // ---------------------------------------------------------------------
  // Gutter helpers of `Line`
  // ---------------------------------------------------------------------

  /** `Line::number_len`: the number of decimal digits of the line number for
      numbers below 1000, and 0 for every larger number. */
  function NumberLen(line: Line): (r: nat)
    ensures r <= 3
    ensures line.number < 1000 ==> r == |NatToString(line.number)|
    ensures line.number >= 1000 ==> r == 0
  {
    NatToStringLength(line.number);
    if line.number <= 9 then 1
    else if line.number <= 99 then 2
    else if line.number <= 999 then 3
    else 0
  }

  /** `Line::separator`: the padding and bar that follow the line number.
      `NumberLen` never returns 4, so the "| " arm is never taken; numbers of
      1000 and more get the empty separator (and a diagnostic, not modelled). */
  function Separator(line: Line): (r: string)
    ensures r != "| "
    ensures line.number < 1000 ==> NumberLen(line) + |r| == 6 && r[|r| - 2..] == "| "
    ensures line.number < 1000 ==> forall k :: 0 <= k < |r| - 2 ==> r[k] == ' '
    ensures line.number >= 1000 ==> r == ""
  {
    match NumberLen(line)
    case 1 => "   | "
    case 2 => "  | "
    case 3 => " | "
    case 4 => "| "
    case _ => ""
  }

  /** For numbers below 1000 the numeral and its separator always take six
      characters, with the bar in column 4 (counted from 0). */
  lemma GutterAligned(line: Line)
    requires line.number < 1000
    ensures var gutter := NatToString(line.number) + Separator(line);
            |gutter| == 6 && gutter[4] == '|' && gutter[5] == ' '
  {
    var gutter := NatToString(line.number) + Separator(line);
    var n := |NatToString(line.number)|;
    assert gutter[4] == Separator(line)[4 - n];
  }
}
