/** The worked case of numbered names: "file_%n" with pad 2 over .txt files
    and the default sequences. Small lemmas first fix what the tokenizer and
    zfill make of the literals; the case then follows from the general lemmas. */
module NumberingExample {
  import opened Results
  import opened PyPath
  import opened PyStr
  import opened Sequences
  import opened Template
  import opened Renamer

  /** "file_%n" reads as five plain characters and the key n. */
  lemma FileNTokens()
    ensures Tokenize("file_%n", 0) == [Char('f'), Char('i'), Char('l'), Char('e'), Char('_'), Named("n", false)]
  {
    var t := "file_%n";
    assert IdLength(t, 6) == 1;
    assert t[6..7] == "n";
    assert NextToken(t, 5) == (Named("n", false), 7);
    assert Tokenize(t, 5) == [Named("n", false)];
  }

  /** Plain-text tokens for each character of cs. */
  function Chars(cs: string): seq<Token>
  {
    seq(|cs|, i requires 0 <= i < |cs| => Char(cs[i]))
  }

  /** Plain-text tokens expand to their own characters. */
  lemma {:induction false} ExpandChars(cs: string, rest: seq<Token>, m: map<string, string>)
    ensures Expand(Chars(cs) + rest, m) == Concat(cs, Expand(rest, m))
    decreases |cs|
  {
    if cs != [] {
      ExpandChars(cs[1..], rest, m);
      assert (Chars(cs) + rest)[0] == Char(cs[0]);
      assert (Chars(cs) + rest)[1..] == Chars(cs[1..]) + rest;
      ConcatCons(cs, Expand(rest, m));
    } else {
      assert Chars(cs) + rest == rest;
      ConcatNothing(Expand(rest, m));
    }
  }

  /** Writing the first character, then the others, writes them all. */
  lemma ConcatCons(cs: string, r: Result<string>)
    requires cs != []
    ensures Concat([cs[0]], Concat(cs[1..], r)) == Concat(cs, r)
  {
    if r.Ok? {
      assert [cs[0]] + (cs[1..] + r.value) == cs + r.value;
    }
  }

  /** Writing nothing in front leaves a result as it is. */
  lemma ConcatNothing(r: Result<string>)
    ensures Concat([], r) == r
  {
    if r.Ok? {
      assert [] + r.value == r.value;
    }
  }

  /** t substitutes as "file_%n" does: "file_" followed by the value of n. */
  ghost predicate ActsAsFileN(t: string)
  {
    forall m: map<string, string> :: "n" in m ==> Substitute(t, m) == Ok("file_" + m["n"])
  }

  /** A template that reads as "file_%n" substitutes as it. */
  lemma FileNSubstitutes(t: string)
    requires Tokenize(t, 0) == Chars("file_") + [Named("n", false)]
    ensures ActsAsFileN(t)
  {
    forall m: map<string, string> | "n" in m ensures Substitute(t, m) == Ok("file_" + m["n"]) {
      ExpandChars("file_", [Named("n", false)], m);
      assert Expand([Named("n", false)], m) == Ok(m["n"] + []);
      assert m["n"] + [] == m["n"];
    }
  }

  /** The name "file_%n" gives a .txt file numbered n with pad 2. */
  lemma FileName(t: string, file: string, letter: string, n: int)
    requires ActsAsFileN(t)
    requires SplitExt(file).1 == ".txt"
    ensures NameFor(t, file, letter, n, 2) == Ok("file_" + PaddedNumber(n, 2) + ".txt")
  {
    var m := Mapping(SplitExt(file).0, letter, PaddedNumber(n, 2));
    assert m["n"] == PaddedNumber(n, 2);
    assert Substitute(t, m) == Ok("file_" + m["n"]);
  }

  /** Names that "file_%n" gives .txt files i, with letter i and number
      i + 1, are file_ followed by i + 1 zero-filled to two digits. */
  lemma NumberedNamesFor(t: string, files: seq<string>, names: seq<string>)
    requires ActsAsFileN(t)
    requires forall i :: 0 <= i < |files| ==> SplitExt(files[i]).1 == ".txt"
    requires |names| <= |files| && |names| < 26
    requires forall i :: 0 <= i < |names| ==> NameFor(t, files[i], [(AlphaStart(false) + i) as char], i + 1, 2) == Ok(names[i])
    ensures forall i :: 0 <= i < |names| ==> names[i] == "file_" + PaddedNumber(i + 1, 2) + ".txt"
  {
    forall i | 0 <= i < |names| ensures names[i] == "file_" + PaddedNumber(i + 1, 2) + ".txt" {
      var letter := [(AlphaStart(false) + i) as char];
      FileName(t, files[i], letter, i + 1);
      assert NameFor(t, files[i], letter, i + 1, 2) == Ok(names[i]);
    }
  }

  /** "file_%n" with pad 2 over .txt files and the default sequences: file
      i is named file_ followed by i + 1, zero-filled to two digits. */
  lemma NumberedTxtNames(t: string, files: seq<string>)
    requires ActsAsFileN(t)
    requires forall i :: 0 <= i < |files| ==> SplitExt(files[i]).1 == ".txt"
    ensures var r := Expansion(t, ResolveLetters(None, |files|, false), ResolveNumbers(None, |files|), files, 2);
            r.Ok? && |r.value| == |files| % 26 &&
            forall i :: 0 <= i < |r.value| ==> r.value[i] == "file_" + PaddedNumber(i + 1, 2) + ".txt"
  {
    if files != [] {
      FileName(t, files[0], "a", 1);
    }
    DefaultExpansion(t, files, 2, false);
    var r := Expansion(t, ResolveLetters(None, |files|, false), ResolveNumbers(None, |files|), files, 2);
    NamesKeepExtension(t, ResolveLetters(None, |files|, false), ResolveNumbers(None, |files|), files, 2);
    NumberedNamesFor(t, files, r.value);
  }

  /** zfill(2) of 1, spelt out in a name. */
  lemma SpeltOut()
    ensures "file_" + PaddedNumber(1, 2) + ".txt" == "file_01.txt"
  {
    assert Zeros(1) == "0";
    assert PaddedNumber(1, 2) == "01";
    assert "file_" + "01" + ".txt" == "file_01.txt";
  }

  /** "file_%n" with pad 2 and the default sequences over .txt files: the
      numbers start at 1, so the first name is file_01.txt, not file_00.txt,
      and the i-th is file_ followed by i + 1 zero-filled to two digits. */
  lemma NumberedWithPadding(files: seq<string>)
    requires forall i :: 0 <= i < |files| ==> SplitExt(files[i]).1 == ".txt"
    ensures var r := Expansion("file_%n", ResolveLetters(None, |files|, false), ResolveNumbers(None, |files|), files, 2);
            r.Ok? && |r.value| == |files| % 26 &&
            (|r.value| > 0 ==> r.value[0] == "file_01.txt") &&
            forall i :: 0 <= i < |r.value| ==> r.value[i] == "file_" + PaddedNumber(i + 1, 2) + ".txt"
  {
    FileNTokens();
    assert Tokenize("file_%n", 0) == Chars("file_") + [Named("n", false)];
    FileNSubstitutes("file_%n");
    NumberedTxtNames("file_%n", files);
    SpeltOut();
  }
}
