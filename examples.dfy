/** Worked cases of the renamer's behaviour, each proved of the model. */
module Examples {
  import opened Results
  import opened PyStr
  import opened PyPath
  import opened Template
  import opened Sequences
  import opened Replacer
  import opened Renamer
  import opened NumberingExample

  /** Twenty-six files get no names at all, even from a template with a bad key. */
  lemma TwentySixFilesGetNoNames(files: seq<string>)
    requires |files| == 26
    ensures Expansion("%q", ResolveLetters(None, |files|, false), ResolveNumbers(None, |files|), files, 0) == Ok([])
  {
    DefaultExpansion("%q", files, 0, false);
  }

  /** '%nx' names the key "nx", which expand_template does not supply. */
  lemma LongestIdentifierIsTheKey()
    ensures Substitute("%nx", Mapping("r", "a", "1")) == Err(KeyError("nx"))
  {
    var t := "%nx";
    assert IdLength(t, 1) == 2;
    assert t[1..3] == "nx";
    assert NextToken(t, 0) == (Named("nx", false), 3);
    assert Tokenize(t, 0) == [Named("nx", false)];
  }

  /** Braces end a key early: "%{n}x" is n followed by x. */
  lemma BracedKey()
    ensures Substitute("%{n}x", Mapping("r", "a", "7")) == Ok("7x")
  {
    var t := "%{n}x";
    assert IdLength(t, 2) == 1;
    assert t[2..3] == "n";
    assert NextToken(t, 0) == (Named("n", true), 4);
    assert Tokenize(t, 4) == [Char('x')];
    assert Tokenize(t, 0) == [Named("n", true), Char('x')];
    var m := Mapping("r", "a", "7");
    assert m["n"] == "7";
    assert Expand([Char('x')], m) == Ok(['x'] + []);
    assert ['x'] + [] == "x";
    assert Expand([Named("n", true), Char('x')], m) == Ok("7" + "x");
    assert "7" + "x" == "7x";
  }

  /** "%%" is a literal '%'. */
  lemma EscapedDelimiter()
    ensures Substitute("100%%", Mapping("r", "a", "7")) == Ok("100%")
  {
    var t := "100%%";
    assert NextToken(t, 3) == (Escape, 5);
    assert Tokenize(t, 3) == [Escape];
    assert Tokenize(t, 0) == Chars("100") + [Escape];
    ExpandChars("100", [Escape], Mapping("r", "a", "7"));
    assert Expand([Escape], Mapping("r", "a", "7")) == Ok([Delimiter] + []);
    assert [Delimiter] + [] == "%";
    assert "100" + "%" == "100%";
  }

  /** A '%' at the end is an invalid placeholder, reported just past it. */
  lemma LoneDelimiter()
    ensures Substitute("50%", Mapping("r", "a", "7")) == Err(InvalidPlaceholder(3))
  {
    var t := "50%";
    assert NextToken(t, 2) == (Invalid(3), 3);
    assert Tokenize(t, 0) == Chars("50") + [Invalid(3)];
    ExpandChars("50", [Invalid(3)], Mapping("r", "a", "7"));
  }

  /** Leading dots belong to the root: ".bashrc" has no extension. */
  lemma DotFile()
    ensures SplitExt(".bashrc") == (".bashrc", "")
  {
    var p := ".bashrc";
    assert p[0] == '.';
    assert RFind(p, '.') == 0;
    assert RFind(p, '/') == -1;
  }

  /** Only the last dot splits. */
  lemma LastDotOnly()
    ensures SplitExt("archive.tar.gz") == ("archive.tar", ".gz")
  {
    var p := "archive.tar.gz";
    assert p[11] == '.' && p[12] == 'g' && p[13] == 'z';
    assert RFind(p, '.') == 11;
    assert RFind(p, '/') == -1;
    assert p[0] == 'a';
    assert HasNonDot(p, 0, 11);
    assert p[..11] == "archive.tar";
    assert p[11..] == ".gz";
  }

  /** A name without a dot has no extension. */
  lemma NoDot()
    ensures SplitExt("README") == ("README", "")
  {
    var p := "README";
    assert RFind(p, '.') == -1;
  }

  /** zfill puts the zeros after a minus sign; pad 0 leaves str(n) alone. */
  lemma PaddingCases()
    ensures PaddedNumber(-5, 3) == "-05"
    ensures PaddedNumber(42, 0) == "42"
    ensures PaddedNumber(7, 3) == "007"
  {
    assert Zeros(1) == "0";
    assert Zeros(2) == "00";
  }

  /** The leftmost case-insensitive match of "txt" in "MyFile.TXT" is at 7. */
  lemma TxtFoundAtSeven(name: string, pat: string)
    requires name == "MyFile.TXT" && pat == "txt"
    ensures FirstMatch(name, pat, true) == Some(7)
  {
    assert MatchesAt(name, 7, pat, true);
    forall q | 0 <= q < 7 ensures !MatchesAt(name, q, pat, true) {
      assert Lower(name[q]) != Lower(pat[0]);
    }
  }

  /** Ignoring case finds "TXT" but keeps the case of the rest of the name;
      neither "txt" nor "md" holds regular-expression syntax. */
  lemma ReplaceIgnoringCase(pat: string, repl: string, name: string)
    requires pat == "txt" && repl == "md" && name == "MyFile.TXT"
    ensures IsLiteralPattern(pat) && IsLiteralReplacement(repl)
    ensures PatternSub(pat, repl, name, false, 1) == "MyFile.md"
  {
    assert IsLiteralPattern(pat) && IsLiteralReplacement(repl) by {
      assert !IsMeta(pat[0]) && !IsMeta(pat[1]) && !IsMeta(pat[2]);
    }
    TxtFoundAtSeven(name, pat);
    SpliceAtSeven(name, repl, PatternSub(pat, repl, name, false, 1));
  }

  /** "MyFile.TXT" with its last three characters replaced by "md". */
  lemma SpliceAtSeven(name: string, repl: string, r: string)
    requires name == "MyFile.TXT" && repl == "md" && r == name[..7] + repl + name[7 + 3..]
    ensures r == "MyFile.md"
  {
    assert name[..7] == "MyFile." && name[10..] == [];
    assert "MyFile." + "md" + [] == "MyFile.md";
  }

  /** --step -1 over three files yields a single number. */
  lemma NegativeStepFallsShort()
    ensures GenerateNSeq(3, 5, -1) == Ok([5])
  {
    NSeqNegativeStepShort(3, 5, -1);
    var r := GenerateNSeq(3, 5, -1).value;
    assert |r| == 1 && r[0] == 5;
    assert r == [5];
  }
}
