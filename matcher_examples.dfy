/** The two unit tests of minigrep's library, worked through on the model. */
module MatcherExamples {
  import opened RustStr
  import opened Matcher

  /** The contents both unit tests search: three fixed lines and a
      last line that differs between the two tests, with no final terminator. */
  function Poem(last: string): string {
    "Rust:" + "\n" + ("safe, fast, productive." + "\n" + ("Pick three." + "\n" + last))
  }

  /** The three fixed lines are plain single lines. */
  lemma PoemFixedLines()
    ensures '\n' !in "Rust:" && !EndsWithCr("Rust:")
    ensures '\n' !in "safe, fast, productive." && !EndsWithCr("safe, fast, productive.")
    ensures '\n' !in "Pick three." && !EndsWithCr("Pick three.")
  {
  }

  lemma PoemLines(last: string)
    requires '\n' !in last && last != []
    ensures Lines(Poem(last)) == ["Rust:", "safe, fast, productive.", "Pick three.", last]
  {
    var l1, l2, l3 := "Rust:", "safe, fast, productive.", "Pick three.";
    var s3 := l3 + "\n" + last;
    var s2 := l2 + "\n" + s3;
    assert Poem(last) == l1 + "\n" + s2;
    assert Lines(s3) == [l3, last] by {
      PoemFixedLines();
      LinesLast(last);
      LinesCons(l3, last);
    }
    assert Lines(s2) == [l2] + Lines(s3) by {
      PoemFixedLines();
      LinesCons(l2, s3);
    }
    assert Lines(l1 + "\n" + s2) == [l1] + Lines(s2) by {
      PoemFixedLines();
      LinesCons(l1, s2);
    }
  }

  lemma DuctInProductive()
    ensures Contains("safe, fast, productive.", "duct")
  {
    assert OccursAt("safe, fast, productive.", "duct", 15);
    ContainsIff("safe, fast, productive.", "duct");
  }

  lemma DuctNotInRust()
    ensures !Contains("Rust:", "duct")
  {
    NotContainsWithoutFirst("Rust:", "duct");
  }

  lemma DuctNotInPick()
    ensures !Contains("Pick three.", "duct")
  {
    NotContainsWithoutFirst("Pick three.", "duct");
  }

  lemma DuctNotInDuctTape()
    ensures !Contains("Duct tape.", "duct")
  {
    NotContainsWithoutFirst("Duct tape.", "duct");
  }

  /** `Select` on a line followed by more lines. */
  lemma SelectCons(x: string, rest: seq<string>, first: nat, keep: string -> bool)
    ensures Select([x] + rest, first, keep) ==
              (if keep(x) then [Line(first, x)] else []) + Select(rest, first + 1, keep)
  {
    assert ([x] + rest)[1..] == rest;
  }

  /** Four lines of which the filter accepts only the second. */
  lemma SelectSecondOfFour(a: string, b: string, c: string, d: string, keep: string -> bool)
    requires !keep(a) && keep(b) && !keep(c) && !keep(d)
    ensures Select([a, b, c, d], 1, keep) == [Line(2, b)]
  {
    assert [a, b, c, d] == [a] + ([b] + ([c] + [d]));
    SelectCons(a, [b] + ([c] + [d]), 1, keep);
    SelectCons(b, [c] + [d], 2, keep);
    SelectCons(c, [d], 3, keep);
    SelectCons(d, [], 4, keep);
  }

  /** Four lines of which the filter accepts only the first and the last. */
  lemma SelectFirstAndLastOfFour(a: string, b: string, c: string, d: string, keep: string -> bool)
    requires keep(a) && !keep(b) && !keep(c) && keep(d)
    ensures Select([a, b, c, d], 1, keep) == [Line(1, a), Line(4, d)]
  {
    assert [a, b, c, d] == [a] + ([b] + ([c] + [d]));
    SelectCons(a, [b] + ([c] + [d]), 1, keep);
    SelectCons(b, [c] + [d], 2, keep);
    SelectCons(c, [d], 3, keep);
    SelectCons(d, [], 4, keep);
  }

  /** The case-sensitive test: "duct" matches line 2 only, not "Duct tape.". */
  lemma CaseSensitiveExample()
    ensures SearchCaseSensitive("duct", Poem("Duct tape.")) == [Line(2, "safe, fast, productive.")]
  {
    var keep := HasQuery("duct");
    assert Lines(Poem("Duct tape.")) == ["Rust:", "safe, fast, productive.", "Pick three.", "Duct tape."] by {
      assert '\n' !in "Duct tape.";
      PoemLines("Duct tape.");
    }
    assert !keep("Rust:") by {
      DuctNotInRust();
    }
    assert keep("safe, fast, productive.") by {
      DuctInProductive();
    }
    assert !keep("Pick three.") by {
      DuctNotInPick();
    }
    assert !keep("Duct tape.") by {
      DuctNotInDuctTape();
    }
    SelectSecondOfFour("Rust:", "safe, fast, productive.", "Pick three.", "Duct tape.", keep);
  }

  lemma LoweredQuery()
    ensures ToLowercase("rUsT") == "rust"
  {
  }

  lemma RustNotInProductive()
    ensures !Contains("safe, fast, productive.", "rust")
  {
    var t := "safe, fast, productive.";
    assert t[14..] == "oductive.";
    NotContainsWithoutFirst(t[14..], "rust");
    assert t[13..][1] == 'o';
    assert t[13..][1..] == t[14..];
    assert t[..13] == "safe, fast, p";
    NotContainsAfter(t, "rust", 13);
  }

  lemma RustNotInThree()
    ensures !Contains("pick three.", "rust")
  {
    var u := "pick three.";
    assert u[8..] == "ee.";
    NotContainsWithoutFirst(u[8..], "rust");
    assert u[7..][1] == 'e';
    assert u[7..][1..] == u[8..];
    assert u[..7] == "pick th";
    NotContainsAfter(u, "rust", 7);
  }

  lemma RustInTrust()
    ensures Contains("trust me.", "rust")
  {
    assert OccursAt("trust me.", "rust", 1);
    ContainsIff("trust me.", "rust");
  }

  lemma RustMatchesRust()
    ensures Contains(ToLowercase("Rust:"), ToLowercase("rUsT"))
  {
    LoweredQuery();
    assert ToLowercase("Rust:") == "rust:";
    assert IsPrefix("rust", "rust:");
  }

  lemma RustMissesProductive()
    ensures !Contains(ToLowercase("safe, fast, productive."), ToLowercase("rUsT"))
  {
    LoweredQuery();
    assert ToLowercase("safe, fast, productive.") == "safe, fast, productive.";
    RustNotInProductive();
  }

  lemma RustMissesPick()
    ensures !Contains(ToLowercase("Pick three."), ToLowercase("rUsT"))
  {
    LoweredQuery();
    assert ToLowercase("Pick three.") == "pick three.";
    RustNotInThree();
  }

  lemma RustMatchesTrust()
    ensures Contains(ToLowercase("Trust me."), ToLowercase("rUsT"))
  {
    LoweredQuery();
    assert ToLowercase("Trust me.") == "trust me.";
    RustInTrust();
  }

  /** The case-insensitive test: "rUsT" matches lines 1 and 4, which keep their
      original case. */
  lemma CaseInsensitiveExample()
    ensures SearchCaseInsensitive("rUsT", Poem("Trust me.")) == [Line(1, "Rust:"), Line(4, "Trust me.")]
  {
    var keep := HasQueryIgnoringCase("rUsT");
    assert Lines(Poem("Trust me.")) == ["Rust:", "safe, fast, productive.", "Pick three.", "Trust me."] by {
      assert '\n' !in "Trust me.";
      PoemLines("Trust me.");
    }
    assert keep("Rust:") by {
      RustMatchesRust();
    }
    assert !keep("safe, fast, productive.") by {
      RustMissesProductive();
    }
    assert !keep("Pick three.") by {
      RustMissesPick();
    }
    assert keep("Trust me.") by {
      RustMatchesTrust();
    }
    SelectFirstAndLastOfFour("Rust:", "safe, fast, productive.", "Pick three.", "Trust me.", keep);
  }
}
