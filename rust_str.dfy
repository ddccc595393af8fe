/** Pure models of the parts of Rust's string library that the search
    pipeline relies on: `str::lines`, `str::contains`, `str::to_lowercase`
    (restricted to ASCII) and `usize::to_string`.  Strings are sequences of
    characters, one character per byte (ASCII text). */
module RustStr {

  // ---------------------------------------------------------------------
  // str::lines
  // ---------------------------------------------------------------------

  /** The position of the first line feed of `s`, or `|s|` when `s` has none. */
  function FirstNewline(s: string): (i: nat)
    ensures i <= |s|
    ensures i < |s| ==> s[i] == '\n'
    ensures forall j :: 0 <= j < i ==> s[j] != '\n'
  {
    if s == [] || s[0] == '\n' then 0 else 1 + FirstNewline(s[1..])
  }

  predicate EndsWithCr(s: string) {
    |s| > 0 && s[|s| - 1] == '\r'
  }

  /** Removes the carriage return of a "\r\n" terminator from a line's text. */
  function StripCr(s: string): string {
    if EndsWithCr(s) then s[..|s| - 1] else s
  }

  /** `str::lines`: the text is cut at every line feed; a carriage return just
      before a line feed belongs to the terminator; the last terminator is
      optional, so "" has no lines and "a\n" has the single line "a"; a
      carriage return that is not followed by a line feed stays in the line. */
  function Lines(s: string): (ls: seq<string>)
    ensures |ls| <= |s|
    ensures forall k :: 0 <= k < |ls| ==> '\n' !in ls[k]
    decreases |s|
  {
    if s == [] then []
    else
      var i := FirstNewline(s);
      if i == |s| then [s]
      else [StripCr(s[..i])] + Lines(s[i + 1..])
  }

  /** The inverse direction: every line followed by a line feed. */
  function Unlines(ls: seq<string>): string {
    if ls == [] then [] else ls[0] + "\n" + Unlines(ls[1..])
  }

  /** Number of occurrences of `c` in `s`. */
  function Count(c: char, s: string): nat {
    if s == [] then 0 else (if s[0] == c then 1 else 0) + Count(c, s[1..])
  }

  lemma {:induction false} CountAppend(c: char, a: string, b: string)
    ensures Count(c, a + b) == Count(c, a) + Count(c, b)
  {
    if a != [] {
      assert (a + b)[0] == a[0];
      assert (a + b)[1..] == a[1..] + b;
      CountAppend(c, a[1..], b);
    } else {
      assert a + b == b;
    }
  }

  lemma {:induction false} CountAbsent(c: char, s: string)
    requires c !in s
    ensures Count(c, s) == 0
  {
    if s != [] {
      CountAbsent(c, s[1..]);
    }
  }

  /** A text holds one line per line feed, plus one for a last line that has
      no terminator. */
  lemma {:induction false} LinesCount(s: string)
    ensures |Lines(s)| == Count('\n', s) + (if s != [] && s[|s| - 1] != '\n' then 1 else 0)
    decreases |s|
  {
    if s != [] {
      var i := FirstNewline(s);
      if i == |s| {
        assert '\n' !in s;
        CountAbsent('\n', s);
      } else {
        var rest := s[i + 1..];
        CountAtFirstNewline(s, i);
        LinesCount(rest);
        assert |Lines(s)| == 1 + |Lines(rest)|;
        if rest != [] {
          assert s[|s| - 1] == rest[|rest| - 1];
        }
      }
    }
  }

  /** The line feeds of a text are its first one and those after it. */
  lemma CountAtFirstNewline(s: string, i: nat)
    requires i < |s| && s[i] == '\n' && '\n' !in s[..i]
    ensures Count('\n', s) == 1 + Count('\n', s[i + 1..])
  {
    var rest := s[i + 1..];
    CountAbsent('\n', s[..i]);
    assert s == s[..i] + ([s[i]] + rest);
    CountAppend('\n', s[..i], [s[i]] + rest);
    CountAppend('\n', [s[i]], rest);
  }

  /** The first line feed after a line without one is its terminator. */
  lemma FirstNewlineOfLine(l: string, rest: string)
    requires '\n' !in l
    ensures FirstNewline(l + "\n" + rest) == |l|
  {
    var s := l + "\n" + rest;
    assert s[|l|] == '\n';
    assert forall j :: 0 <= j < |l| ==> s[j] == l[j];
  }

  /** Taking the first line off a text. */
  lemma LinesCons(l: string, rest: string)
    requires '\n' !in l
    ensures Lines(l + "\n" + rest) == [StripCr(l)] + Lines(rest)
  {
    FirstNewlineOfLine(l, rest);
    var s := l + "\n" + rest;
    assert s[..|l|] == l;
    assert s[|l| + 1..] == rest;
  }

  /** A last line without terminator is one line. */
  lemma LinesLast(l: string)
    requires '\n' !in l && l != []
    ensures Lines(l) == [l]
  {
    assert forall j :: 0 <= j < |l| ==> l[j] != '\n';
  }

  /** Splitting text that was produced by `Unlines` gives the lines back,
      provided no line holds a line feed or ends with a carriage return. */
  lemma {:induction false} LinesOfUnlines(ls: seq<string>)
    requires forall k :: 0 <= k < |ls| ==> '\n' !in ls[k] && !EndsWithCr(ls[k])
    ensures Lines(Unlines(ls)) == ls
  {
    if ls != [] {
      var s := Unlines(ls);
      var rest := Unlines(ls[1..]);
      assert s == ls[0] + "\n" + rest;
      FirstNewlineOfLine(ls[0], rest);
      assert s[..|ls[0]|] == ls[0];
      assert s[|ls[0]| + 1..] == rest;
      LinesOfUnlines(ls[1..]);
    }
  }

  /** Conversely, a text without carriage returns that is empty or ends with a
      line feed is rebuilt exactly from its lines. */
  lemma {:induction false} UnlinesOfLines(s: string)
    requires '\r' !in s
    requires s == [] || s[|s| - 1] == '\n'
    ensures Unlines(Lines(s)) == s
    decreases |s|
  {
    if s != [] {
      var i := FirstNewline(s);
      var line, rest := s[..i], s[i + 1..];
      assert i < |s|;
      assert s == line + "\n" + rest;
      assert '\r' !in line && '\r' !in rest;
      assert StripCr(line) == line;
      assert Lines(s) == [line] + Lines(rest);
      assert rest != [] ==> rest[|rest| - 1] == s[|s| - 1];
      UnlinesOfLines(rest);
    }
  }

  // ---------------------------------------------------------------------
  // str::contains
  // ---------------------------------------------------------------------

  predicate IsPrefix(p: string, t: string) {
    |p| <= |t| && t[..|p|] == p
  }

  /** `t.contains(p)`: `p` occurs somewhere in `t`, tried at each start in turn. */
  predicate Contains(t: string, p: string)
    decreases |t|
  {
    IsPrefix(p, t) || (t != [] && Contains(t[1..], p))
  }

  /** The positional definition of a substring occurrence. */
  ghost predicate OccursAt(t: string, p: string, i: int) {
    0 <= i && i + |p| <= |t| && t[i..i + |p|] == p
  }

  /** `Contains` agrees with the positional definition, in both directions. */
  lemma {:induction false} ContainsIff(t: string, p: string)
    ensures Contains(t, p) <==> exists i :: OccursAt(t, p, i)
    decreases |t|
  {
    if IsPrefix(p, t) {
      assert OccursAt(t, p, 0);
    } else if t != [] {
      ContainsIff(t[1..], p);
      if exists i :: OccursAt(t[1..], p, i) {
        var i :| OccursAt(t[1..], p, i);
        assert t[1..][i..i + |p|] == t[i + 1..i + 1 + |p|];
        assert OccursAt(t, p, i + 1);
      }
      if exists i :: OccursAt(t, p, i) {
        var i :| OccursAt(t, p, i);
        assert i != 0;
        assert t[1..][i - 1..i - 1 + |p|] == t[i..i + |p|];
        assert OccursAt(t[1..], p, i - 1);
      }
    }
  }

  /** A pattern whose first character is absent does not occur. */
  lemma NotContainsWithoutFirst(t: string, p: string)
    requires p != [] && p[0] !in t
    ensures !Contains(t, p)
    decreases |t|
  {
    if t != [] {
      assert t[0] in t;
      NotContainsWithoutFirst(t[1..], p);
    }
  }

  /** A pattern that cannot start in the first `k` characters occurs only if
      it occurs in the rest. */
  lemma NotContainsAfter(t: string, p: string, k: nat)
    requires p != [] && k <= |t| && p[0] !in t[..k] && !Contains(t[k..], p)
    ensures !Contains(t, p)
    decreases k
  {
    if k > 0 {
      assert t[0] == t[..k][0];
      assert t[1..][..k - 1] == t[1..k];
      assert t[1..][k - 1..] == t[k..];
      NotContainsAfter(t[1..], p, k - 1);
    }
  }

  /** The empty string occurs in every string. */
  lemma ContainsEmpty(t: string)
    ensures Contains(t, "")
  {
    assert IsPrefix("", t);
  }

  // ---------------------------------------------------------------------
  // str::to_lowercase, on ASCII letters
  // ---------------------------------------------------------------------

  predicate IsUpper(c: char) {
    'A' <= c <= 'Z'
  }

  /** Lower-cases an ASCII capital letter; every other character is kept. */
  function LowerChar(c: char): (d: char)
    ensures !IsUpper(d)
    ensures IsUpper(c) ==> d as int == c as int + 32
    ensures !IsUpper(c) ==> d == c
  {
    if IsUpper(c) then (c as int + 32) as char else c
  }

  /** `to_lowercase`, character by character. */
  function ToLowercase(s: string): string {
    seq(|s|, i requires 0 <= i < |s| => LowerChar(s[i]))
  }

  /** Lower-casing commutes with taking a slice. */
  lemma LowercaseSlice(t: string, i: nat, j: nat)
    requires i <= j <= |t|
    ensures ToLowercase(t)[i..j] == ToLowercase(t[i..j])
  {
  }

  /** Folding case never loses an occurrence: a case-sensitive match is also
      a case-insensitive one. */
  lemma ContainsLowercase(t: string, p: string)
    requires Contains(t, p)
    ensures Contains(ToLowercase(t), ToLowercase(p))
  {
    ContainsIff(t, p);
    var i :| OccursAt(t, p, i);
    LowercaseSlice(t, i, i + |p|);
    assert OccursAt(ToLowercase(t), ToLowercase(p), i);
    ContainsIff(ToLowercase(t), ToLowercase(p));
  }

  /** Lower-casing twice is the same as lower-casing once. */
  lemma LowercaseIdempotent(s: string)
    ensures ToLowercase(ToLowercase(s)) == ToLowercase(s)
  {
  }

  // ---------------------------------------------------------------------
  // usize::to_string
  // ---------------------------------------------------------------------

  predicate IsDigit(c: char) {
    '0' <= c <= '9'
  }

  function DigitChar(d: nat): (c: char)
    requires d < 10
    ensures IsDigit(c) && c as int - '0' as int == d
  {
    (d + '0' as int) as char
  }

  /** The decimal numeral of `n`, without leading zeros. */
  function NatToString(n: nat): (s: string)
    ensures |s| >= 1
    ensures forall k :: 0 <= k < |s| ==> IsDigit(s[k])
    ensures s[0] == '0' ==> n == 0
  {
    if n < 10 then [DigitChar(n)] else NatToString(n / 10) + [DigitChar(n % 10)]
  }

  /** Reads a decimal numeral back. */
  function ParseDecimal(s: string): nat
    requires forall k :: 0 <= k < |s| ==> IsDigit(s[k])
  {
    if s == [] then 0
    else ParseDecimal(s[..|s| - 1]) * 10 + DigitValue(s[|s| - 1])
  }

  function DigitValue(c: char): nat
    requires IsDigit(c)
  {
    c as int - '0' as int
  }

  /** `NatToString` is inverted by `ParseDecimal`. */
  lemma {:induction false} ParseNatToString(n: nat)
    ensures ParseDecimal(NatToString(n)) == n
  {
    var s := NatToString(n);
    if n >= 10 {
      ParseNatToString(n / 10);
      assert s[..|s| - 1] == NatToString(n / 10);
    }
  }

  /** The length of a numeral is its number of decimal digits. */
  lemma {:induction false} NatToStringLength(n: nat)
    ensures n < 10 ==> |NatToString(n)| == 1
    ensures 10 <= n < 100 ==> |NatToString(n)| == 2
    ensures 100 <= n < 1000 ==> |NatToString(n)| == 3
    ensures 1000 <= n ==> |NatToString(n)| >= 4
  {
    if n >= 10 {
      NatToStringLength(n / 10);
    }
  }
}
