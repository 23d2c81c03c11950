/** BatchRenamer's name generation. expand_template pairs each file with the
    next letter and the next number and fills in the '%' template; replace
    rewrites each full name. Neither touches the file system: both only
    compute the list of proposed names. */
module Renamer {
  import opened Results
  import opened PyStr
  import opened PyPath
  import opened Template
  import opened Sequences
  import opened Replacer

  /** The placeholders expand_template supplies. */
  const Keys: set<string> := {"d", "a", "n"}

  /** The keyword arguments expand_template passes to substitute: d is the
      name without its extension, a the letter, n the padded number. */
  function Mapping(root: string, letter: string, number: string): (m: map<string, string>)
    ensures m.Keys == Keys
  {
    map["d" := root, "a" := letter, "n" := number]
  }

  /** A template every file can be expanded with: no invalid placeholder and
      no key other than d, a and n. */
  predicate WellFormed(template: string)
  {
    FirstFault(Tokenize(template, 0), Keys).None?
  }

  /** The name expand_template builds for one file: the template with d, a
      and n filled in, followed by the file's extension. It fails exactly for
      a template that is not well formed, and then with the template's first
      fault, whatever the file, the letter and the number. */
  function NameFor(template: string, file: string, letter: string, n: int, pad: int): (r: Result<string>)
    ensures r.Ok? <==> WellFormed(template)
    ensures r.Err? ==> r.error == FirstFault(Tokenize(template, 0), Keys).value
    ensures r.Ok? ==> |SplitExt(file).1| <= |r.value| && r.value[|r.value| - |SplitExt(file).1|..] == SplitExt(file).1
  {
    var (root, ext) := SplitExt(file);
    var m := Mapping(root, letter, PaddedNumber(n, pad));
    match Substitute(template, m)
    case Ok(s) =>
      assert (s + ext)[|s|..] == ext;
      Ok(s + ext)
    case Err(e) => Err(e)
  }

  /** Prepend a name to the names of the remaining files, unless they failed. */
  function Prepend(prefix: seq<string>, r: Result<seq<string>>): Result<seq<string>>
  {
    match r
    case Ok(names) => Ok(prefix + names)
    case Err(e) => Err(e)
  }

  /** The names for zip(letters, numbers, files): one per triple, in order,
      stopping at the shortest of the three; the first failure escapes. It
      fails exactly when there is at least one triple and the template is
      not well formed, and then with the template's first fault. */
  function Expansion(template: string, letters: seq<string>, numbers: seq<int>, files: seq<string>, pad: int): (r: Result<seq<string>>)
    ensures r.Err? <==> Min3(|letters|, |numbers|, |files|) > 0 && !WellFormed(template)
    ensures r.Err? ==> r.error == FirstFault(Tokenize(template, 0), Keys).value
    ensures r.Ok? ==> |r.value| == Min3(|letters|, |numbers|, |files|)
    decreases |files|
  {
    if letters == [] || numbers == [] || files == [] then Ok([])
    else
      match NameFor(template, files[0], letters[0], numbers[0], pad)
      case Err(e) => Err(e)
      case Ok(name) => Prepend([name], Expansion(template, letters[1..], numbers[1..], files[1..], pad))
  }

  function Min3(a: nat, b: nat, c: nat): nat
  {
    if a <= b && a <= c then a else if b <= c then b else c
  }

  /** The letters of generate_a_seq, each as the one-character string str() gives. */
  function Letters(fileCount: nat, upper: bool): (ls: seq<string>)
    ensures |ls| == fileCount % 26
    ensures forall i :: 0 <= i < |ls| ==> |ls[i]| == 1 && ls[i][0] as int == AlphaStart(upper) + i
  {
    var cs := GenerateASeq(fileCount, upper);
    seq(|cs|, i requires 0 <= i < |cs| => [cs[i]])
  }

  /** a_seq, or generate_a_seq(upper) when none is given: then fileCount % 26
      letters from 'a' (or 'A') on. */
  function ResolveLetters(aSeq: Option<seq<string>>, fileCount: nat, upper: bool): (r: seq<string>)
    ensures aSeq.Some? ==> r == aSeq.value
    ensures aSeq.None? ==> |r| == fileCount % 26
    ensures aSeq.None? ==> forall i :: 0 <= i < |r| ==> r[i] == [(AlphaStart(upper) + i) as char]
  {
    match aSeq
    case Some(letters) => letters
    case None =>
      var ls := Letters(fileCount, upper);
      assert forall i :: 0 <= i < |ls| ==> ls[i] == [(AlphaStart(upper) + i) as char] by {
        forall i | 0 <= i < |ls| ensures ls[i] == [(AlphaStart(upper) + i) as char] {
          assert |ls[i]| == 1 && ls[i][0] as int == AlphaStart(upper) + i;
        }
      }
      ls
  }

  /** n_seq, or generate_n_seq() with its defaults when none is given: then
      the numbers 1, 2, ..., fileCount. */
  function ResolveNumbers(nSeq: Option<seq<int>>, fileCount: nat): (r: seq<int>)
    ensures nSeq.Some? ==> r == nSeq.value
    ensures nSeq.None? ==> |r| == fileCount
    ensures nSeq.None? ==> forall i :: 0 <= i < |r| ==> r[i] == i + 1
  {
    match nSeq
    case Some(numbers) => numbers
    case None =>
      NSeqDefaultIsOneBased(fileCount);
      GenerateNSeq(fileCount, 1, 1).value
  }

  /** One step of the zip: the expansion from triple i on is the name for
      triple i followed by the expansion from triple i + 1 on. */
  lemma ExpansionStep(template: string, letters: seq<string>, numbers: seq<int>, files: seq<string>, pad: int, i: nat)
    requires i < |letters| && i < |numbers| && i < |files|
    ensures var name := NameFor(template, files[i], letters[i], numbers[i], pad);
      Expansion(template, letters[i..], numbers[i..], files[i..], pad) ==
        if name.Err? then Err(name.error)
        else Prepend([name.value], Expansion(template, letters[i + 1..], numbers[i + 1..], files[i + 1..], pad))
  {
    assert letters[i..][0] == letters[i] && numbers[i..][0] == numbers[i] && files[i..][0] == files[i];
    assert letters[i..][1..] == letters[i + 1..];
    assert numbers[i..][1..] == numbers[i + 1..];
    assert files[i..][1..] == files[i + 1..];
  }

  lemma PrependNothing(r: Result<seq<string>>)
    ensures Prepend([], r) == r
  {
    if r.Ok? {
      assert [] + r.value == r.value;
    }
  }

  lemma PrependAppend(names: seq<string>, name: string, rest: Result<seq<string>>)
    ensures Prepend(names, Prepend([name], rest)) == Prepend(names + [name], rest)
  {
    if rest.Ok? {
      assert names + ([name] + rest.value) == (names + [name]) + rest.value;
    }
  }

  /** expand_template(a_seq, n_seq, upper), building the list of names one
      file at a time. */
  method ExpandTemplate(template: string, files: seq<string>, pad: int,
                        aSeq: Option<seq<string>>, nSeq: Option<seq<int>>, upper: bool)
    returns (r: Result<seq<string>>)
    ensures r == Expansion(template, ResolveLetters(aSeq, |files|, upper), ResolveNumbers(nSeq, |files|), files, pad)
  {
    var letters := ResolveLetters(aSeq, |files|, upper);
    var numbers := ResolveNumbers(nSeq, |files|);
    var names: seq<string> := [];
    var k := Min3(|letters|, |numbers|, |files|);
    var i := 0;
    assert letters[0..] == letters && numbers[0..] == numbers && files[0..] == files;
    PrependNothing(Expansion(template, letters, numbers, files, pad));
    while i < k
      invariant 0 <= i <= k
      invariant Expansion(template, letters, numbers, files, pad)
                == Prepend(names, Expansion(template, letters[i..], numbers[i..], files[i..], pad))
    {
      var name := NameFor(template, files[i], letters[i], numbers[i], pad);
      ExpansionStep(template, letters, numbers, files, pad, i);
      if name.Err? {
        return Err(name.error);
      }
      ghost var rest := Expansion(template, letters[i + 1..], numbers[i + 1..], files[i + 1..], pad);
      PrependAppend(names, name.value, rest);
      names := names + [name.value];
      i := i + 1;
      assert rest == Expansion(template, letters[i..], numbers[i..], files[i..], pad);
    }
    assert letters[i..] == [] || numbers[i..] == [] || files[i..] == [];
    assert names + [] == names;
    r := Ok(names);
  }

  /** The expansion gives one name per triple of zip(letters, numbers, files),
      min(|letters|, |numbers|, |files|) of them, the i-th for the i-th file. */
  lemma {:induction false} ExpansionShape(template: string, letters: seq<string>, numbers: seq<int>, files: seq<string>, pad: int)
    ensures Expansion(template, letters, numbers, files, pad).Ok? ==>
      var names := Expansion(template, letters, numbers, files, pad).value;
      |names| == Min3(|letters|, |numbers|, |files|) &&
      forall i :: 0 <= i < |names| ==> NameFor(template, files[i], letters[i], numbers[i], pad) == Ok(names[i])
    decreases |files|
  {
    var r := Expansion(template, letters, numbers, files, pad);
    if letters != [] && numbers != [] && files != [] && r.Ok? {
      var rest := Expansion(template, letters[1..], numbers[1..], files[1..], pad);
      ExpansionShape(template, letters[1..], numbers[1..], files[1..], pad);
      var first := NameFor(template, files[0], letters[0], numbers[0], pad);
      assert first.Ok? && rest.Ok? && r.value == [first.value] + rest.value;
      assert Min3(|letters|, |numbers|, |files|) == 1 + Min3(|letters| - 1, |numbers| - 1, |files| - 1);
      forall i | 0 < i < |r.value| ensures NameFor(template, files[i], letters[i], numbers[i], pad) == Ok(r.value[i]) {
        assert r.value[i] == rest.value[i - 1];
        assert files[i] == files[1..][i - 1] && letters[i] == letters[1..][i - 1] && numbers[i] == numbers[1..][i - 1];
      }
    }
  }

  /** Every proposed name ends with the extension of the file it is for (an
      empty one for '.bashrc' or a name without a dot). */
  lemma NamesKeepExtension(template: string, letters: seq<string>, numbers: seq<int>, files: seq<string>, pad: int)
    ensures Expansion(template, letters, numbers, files, pad).Ok? ==>
      var names := Expansion(template, letters, numbers, files, pad).value;
      |names| <= |files| && forall i :: 0 <= i < |names| ==>
        |SplitExt(files[i]).1| <= |names[i]| && names[i][|names[i]| - |SplitExt(files[i]).1|..] == SplitExt(files[i]).1
  {
    ExpansionShape(template, letters, numbers, files, pad);
  }

  /** The expansion over letters i and numbers i + 1, fewer letters than files. */
  lemma CountedExpansion(template: string, letters: seq<string>, numbers: seq<int>, files: seq<string>, pad: int, upper: bool)
    requires |letters| <= |files| && |letters| < 26 && |numbers| == |files|
    requires forall i :: 0 <= i < |letters| ==> letters[i] == [(AlphaStart(upper) + i) as char]
    requires forall i :: 0 <= i < |numbers| ==> numbers[i] == i + 1
    ensures Expansion(template, letters, numbers, files, pad).Err? <==> |letters| != 0 && !WellFormed(template)
    ensures Expansion(template, letters, numbers, files, pad).Ok? ==>
      var names := Expansion(template, letters, numbers, files, pad).value;
      |names| == |letters| &&
      forall i :: 0 <= i < |names| ==>
        NameFor(template, files[i], [(AlphaStart(upper) + i) as char], i + 1, pad) == Ok(names[i])
  {
    assert Min3(|letters|, |numbers|, |files|) == |letters|;
    ExpansionShape(template, letters, numbers, files, pad);
  }

  /** With the default sequences there are |files| % 26 names, even for a
      template without %a: the i-th file gets letter i and number i + 1.
      A multiple of 26 files gets no names at all, and no error. */
  lemma DefaultExpansion(template: string, files: seq<string>, pad: int, upper: bool)
    ensures Expansion(template, ResolveLetters(None, |files|, upper), ResolveNumbers(None, |files|), files, pad).Err?
            <==> |files| % 26 != 0 && !WellFormed(template)
    ensures Expansion(template, ResolveLetters(None, |files|, upper), ResolveNumbers(None, |files|), files, pad).Ok? ==>
      var names := Expansion(template, ResolveLetters(None, |files|, upper), ResolveNumbers(None, |files|), files, pad).value;
      |names| == |files| % 26 &&
      forall i :: 0 <= i < |names| ==>
        NameFor(template, files[i], [(AlphaStart(upper) + i) as char], i + 1, pad) == Ok(names[i])
  {
    var letters := ResolveLetters(None, |files|, upper);
    var numbers := ResolveNumbers(None, |files|);
    assert |letters| <= |files| && |letters| < 26 && |numbers| == |files|;
    CountedExpansion(template, letters, numbers, files, pad, upper);
  }

  /** The rule of the rename command: a numeric sequence of its own is built
      only when --start is non-zero or --step is not 1; otherwise
      expand_template falls back to its default. */
  function CliNumbering(fileCount: nat, start: int, step: int): (r: Result<Option<seq<int>>>)
    ensures r.Err? <==> step == 0
    ensures r.Ok? ==> (r.value.None? <==> start == 0 && step == 1)
    ensures r.Ok? && r.value.Some? ==> r.value.value == GenerateNSeq(fileCount, start, step).value
  {
    if start != 0 || step != 1 then
      match GenerateNSeq(fileCount, start, step)
      case Ok(numbers) => Ok(Some(numbers))
      case Err(e) => Err(e)
    else Ok(None)
  }

  /** The command's default --start 0 --step 1 numbers the files 1, 2, ...:
      not from zero, as its help text says, and the same as --start 1. */
  lemma CliDefaultIsOneBased(fileCount: nat)
    ensures CliNumbering(fileCount, 0, 1).Ok?
    ensures |ResolveNumbers(CliNumbering(fileCount, 0, 1).value, fileCount)| == fileCount
    ensures ResolveNumbers(CliNumbering(fileCount, 0, 1).value, fileCount)
            == ResolveNumbers(CliNumbering(fileCount, 1, 1).value, fileCount)
    ensures forall i :: 0 <= i < fileCount ==> ResolveNumbers(CliNumbering(fileCount, 0, 1).value, fileCount)[i] == i + 1
  {
    NSeqDefaultIsOneBased(fileCount);
  }

  /** replace(old, new, match_case, count): one name per file, in order. */
  function ReplaceNames(files: seq<string>, pat: string, repl: string, matchCase: bool, count: int): (r: seq<string>)
    requires IsLiteralPattern(pat) && IsLiteralReplacement(repl)
    ensures |r| == |files|
    ensures forall i :: 0 <= i < |files| ==> r[i] == PatternSub(pat, repl, files[i], matchCase, count)
  {
    seq(|files|, i requires 0 <= i < |files| => PatternSub(pat, repl, files[i], matchCase, count))
  }
}
