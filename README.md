# batchRenamer name generation, in Dafny

A model of how `BatchRenamer` (src/batchRenamer/__init__.py) computes new
names for a directory's files, with proofs of what it computes:

- **Sequences.** `__fix_stop`, `generate_n_seq` and `generate_a_seq` are modelled
  over a faithful model of Python's `range()`. Step 0 raises `ValueError`. A
  positive step gives one number per file. A negative step falls short.
  Letters are counted modulo 26.
- **Template.** `expand_template` fills in `%d`, `%a` and `%n` through
  `string.Template` with the delimiter `%`. The template is read into tokens
  that render back to the exact text. Substitution fails at the first bad
  token, with `KeyError` or `ValueError`, and the error does not depend on
  the file. The file's extension is found by `os.path.splitext`, as POSIX
  Python computes it, and appended verbatim. The number is written
  `str(n).zfill(pad)`.
- **Expansion loop.** `expand_template`'s loop over `zip(a_seq, n_seq, files)`
  is a method, `Renamer.ExpandTemplate`. It is proved equal to a recursive
  specification, `Renamer.Expansion`, whose shape, failure cases and defaults
  are proved as lemmas.
- **Replace.** `replace` applies `re.compile(old[, re.IGNORECASE]).sub(new, name, count)`.
  It is modelled for patterns and replacements free of regular-expression
  syntax, with the leftmost, non-overlapping matching and the count rule of
  `re.sub`.
- **Command.** The `rename` command's choice between the default numbering and
  a numbering of its own is also modelled.

The files and the module each holds:

- `results.dfy`: `Results`, the outcome types and the exceptions the code lets escape.
- `pystr.dfy`: `PyStr`, `str(int)` and `str.zfill`, with an independent decimal reader as their partner.
- `pypath.dfy`: `PyPath`, `os.path.splitext`.
- `sequences.dfy`: `Sequences`, `range`, `__fix_stop`, `generate_n_seq` and `generate_a_seq`.
- `template.dfy`: `Template`, `string.Template` with delimiter `%`.
- `replacer.dfy`: `Replacer`, literal `re.sub`.
- `renamer.dfy`: `Renamer`, `expand_template`, `replace` and the command's numbering rule.
- `numbering_example.dfy` and `examples.dfy`: worked cases, each proved for the model.

Behaviour of the code that its documentation describes differently:

- **Default numbering starts at 1.** The numbers `expand_template` uses by
  default start at 1, because `generate_n_seq` defaults to `start=1`. The
  command's default `--start 0 --step 1` also falls back to that default,
  because of `if start or step != 1`. So `"file_%n"` with pad 2 names the
  first file `file_01.txt`, not `file_00.txt`. The model follows the code
  (`NumberingExample.NumberedWithPadding`, `Renamer.CliDefaultIsOneBased`).
- **A negative step gives fewer numbers than files.** `__fix_stop` gives
  `count` numbers only for a positive step. With step -1 there are
  `count - 2` numbers, and with a steeper negative step `count - 1`, never
  fewer than none. `zip` then stops early. The model follows the code
  (`Sequences.NSeqNegativeStepShort`, `Examples.NegativeStepFallsShort`).
- **26 files get no letters.** The letters are `count % 26` long, so 26 files
  get no letters and therefore no names at all (`Examples.TwentySixFilesGetNoNames`).

## Model

| member | source | states |
|---|---|---|
| Sequences.FixStop | src/batchRenamer/__init__.py:53-60 | `__fix_stop(start, count, step)`: with step >= 1 and count >= 1 the bound lies past item count - 1 and not past item count; with step <= -1 it lies above item count - 1; with step 1 it is start + count |
| Sequences.RangeFrom | src/batchRenamer/__init__.py:90 | the items of `range(start, stop, step)` for a non-zero step: item k is start + k*step, every item is below stop (above it for a negative step), and the next item would not be |
| Sequences.PyRange | src/batchRenamer/__init__.py:90 | `range(start, stop, step)` raises the zero-step ValueError exactly when step is 0 |
| Sequences.GenerateNSeq | src/batchRenamer/__init__.py:78-91 | generate_n_seq fails exactly for step 0 (the range is built when the generator is created) |
| Sequences.RangeToFixedStop | src/batchRenamer/__init__.py:53-60 | with step >= 1 the range up to `__fix_stop(start, count, step)` has exactly count items, the i-th being start + i*step |
| Sequences.RangeToFixedStopNegative | src/batchRenamer/__init__.py:53-60 | with step <= -1 that range has count - 2 items for step -1 and count - 1 for a steeper step (at least none), still start + i*step |
| Sequences.NSeqExact | src/batchRenamer/__init__.py:78-91 | for step >= 1, generate_n_seq yields exactly one number per file: start, start + step, ... |
| Sequences.NSeqNegativeStepShort | src/batchRenamer/__init__.py:78-91 | for step <= -1, generate_n_seq yields fewer numbers than files, by the shortfall above |
| Sequences.NSeqDefaultIsOneBased | src/batchRenamer/__init__.py:78 | the defaults start=1, step=1 number the files 1, 2, ..., count |
| Sequences.RangeStepOne | src/batchRenamer/__init__.py:75 | `range(start, stop)` yields stop - start consecutive integers from start (none when stop <= start) |
| Sequences.GenerateASeq | src/batchRenamer/__init__.py:68-76 | generate_a_seq yields count % 26 letters, the i-th at code point 'a' + i (or 'A' + i), all below 'z' (or 'Z') |
| PyStr.NatToString | src/batchRenamer/__init__.py:137 | str(n) of a natural number is non-empty decimal digits without a leading zero |
| PyStr.IntToString | src/batchRenamer/__init__.py:137 | `str(n)` reads back as n, and starts with '-' exactly when n is negative |
| PyStr.ZFill | src/batchRenamer/__init__.py:137 | zfill(width) gives max(len, width) characters; a string at least width long is returned as is; otherwise zeros fill the front and s follows them, and a leading sign stays in front of the zeros with the rest of s after them |
| PyStr.NatToStringRoundTrip | src/batchRenamer/__init__.py:137 | reading the digits of str(n) back gives n |
| PyStr.LeadingZerosKeepValue | src/batchRenamer/__init__.py:137 | zeros that zfill puts in front of digits do not change their value |
| PyStr.NegativeReadsBack | src/batchRenamer/__init__.py:137 | '-' followed by zero-padded digits of m reads back as -m |
| PyStr.NonNegativeReadsBack | src/batchRenamer/__init__.py:137 | zero-padded digits of m read back as m and do not start with '-' |
| PyStr.PaddedNumber | src/batchRenamer/__init__.py:137 | `str(n).zfill(pad)` reads back as n, is max(len(str(n)), pad) long, and starts with '-' exactly when n < 0 |
| PyStr.PaddedForm | src/batchRenamer/__init__.py:137 | `str(n).zfill(pad)` is the sign of n, then max(0, pad - len(str(n))) zeros, then the digits of abs(n) |
| PyPath.RFind | src/batchRenamer/__init__.py:134 | the index of the last occurrence of c, or -1 when there is none |
| PyPath.HasNonDot | src/batchRenamer/__init__.py:134 | true exactly when the range holds a character other than '.' |
| PyPath.SplitExt | src/batchRenamer/__init__.py:134 | splitext: root + ext is the name; ext is empty or a dot followed by no dot or '/'; ext is non-empty exactly when the last component has a dot preceded by a non-dot |
| Template.IdLength | src/batchRenamer/__init__.py:136-137 | the length of the longest run of identifier characters, which stops at the end or at a non-identifier character |
| Template.Placeholder | src/batchRenamer/__init__.py:44 | the token a '%' starts covers exactly its text; it is an escape exactly after "%%", a plain name exactly when an identifier start follows (and then the longest identifier), a braced name exactly for "%{id}" with its closing brace, and invalid exactly when none of these applies |
| Template.NextToken | src/batchRenamer/__init__.py:44 | the token at i covers exactly the text it is read from; it is plain text exactly when t[i] is not '%', and at a '%' the placeholder grammar above decides |
| Template.Tokenize | src/batchRenamer/__init__.py:136-137 | every named token holds an identifier, and every invalid token points just past a '%' of the template that starts no escape, name or braced name |
| Template.PlainNamedForm | src/batchRenamer/__init__.py:44 | "%id" takes the longest identifier after the '%' (the next character is not an identifier character) and starts no braced or invalid form |
| Template.BracedNamedForm | src/batchRenamer/__init__.py:44 | "%{id}" takes the identifier between the braces, up to its closing '}', and starts no escape or invalid form |
| Template.TokenizeRoundTrip | src/batchRenamer/__init__.py:136-137 | rendering the tokens of a template gives the template back |
| Template.ExpandOutcome | src/batchRenamer/__init__.py:136-137 | substitution succeeds exactly when every token can be expanded; otherwise it raises the fault of the first token that cannot |
| Template.Expand | src/batchRenamer/__init__.py:136 | substituting the tokens fails exactly when some token has a fault for the mapping's keys, and then with the first fault, which depends on the keys only |
| Template.Substitute | src/batchRenamer/__init__.py:136 | a KeyError names an identifier of the template that the mapping lacks; a ValueError points just past a '%' of the template that starts no placeholder; no other error escapes |
| Template.NoDelimiterIsLiteral | src/batchRenamer/__init__.py:136-137 | a template without '%' substitutes to itself under every mapping |
| Replacer.LowerAll | src/batchRenamer/__init__.py:113 | IGNORECASE folding keeps the length, leaves no capital letter, turns each capital into its small letter and keeps every other character |
| Replacer.LowerAllIdempotent | src/batchRenamer/__init__.py:113 | folding twice is folding once |
| Replacer.CaseSensitiveMatchIsEquality | src/batchRenamer/__init__.py:113 | a case-sensitive match at p is equality of the slice with the pattern |
| Replacer.IgnoreCaseMatchIsFoldedEquality | src/batchRenamer/__init__.py:113 | an IGNORECASE match is equality after folding both sides, and the name itself is not folded |
| Replacer.FirstMatch | src/batchRenamer/__init__.py:113-114 | the leftmost position where the pattern matches, or none when it matches nowhere |
| Replacer.MaxReplacements | src/batchRenamer/__init__.py:114 | the count rule of `re.sub`: count 0 replaces without limit, a negative count replaces nothing, a positive count is the limit |
| Replacer.SubLiteral | src/batchRenamer/__init__.py:114 | a limit of 0 leaves the text unchanged, and so does a non-empty pattern that occurs nowhere |
| Replacer.ReplacesLeftmostFirst | src/batchRenamer/__init__.py:114 | for every limit but 0, the text before the leftmost match is kept, the match is replaced, and the rest is substituted with one replacement fewer |
| Replacer.ReplacesLeftmostOnly | src/batchRenamer/__init__.py:114 | with a limit of 1 only the leftmost match is replaced and the text around it is kept as written |
| Replacer.ReplaceBySelfIsIdentity | src/batchRenamer/__init__.py:114 | replacing a pattern by itself, case-sensitively, leaves every name unchanged |
| Replacer.EmptyPatternPrepends | src/batchRenamer/__init__.py:114 | an empty pattern with count 1 puts the replacement in front of the name |
| Replacer.SubstitutesOnce | src/batchRenamer/__init__.py:114 | with a limit of 1, a pattern that occurs is replaced at its leftmost match only and an empty pattern puts the replacement in front; these are the two count-1 cases of `pattern.sub` |
| Replacer.PatternSub | src/batchRenamer/__init__.py:113-114 | `pattern.sub(new, name, count)`: unchanged without a match and for a negative count; with count 1 only the leftmost match replaced; an empty pattern with count 1 prepends |
| Replacer.PatternSubCount | src/batchRenamer/__init__.py:114 | for count 0 or above 1, the name up to the leftmost match is kept, the match replaced, and the rest substituted with count - 1 (count 0 staying unlimited) |
| Replacer.EmptyPatternCount | src/batchRenamer/__init__.py:114 | for count 0 or above 1, an empty pattern puts the replacement before each character and at the end, up to the count |
| Renamer.Mapping | src/batchRenamer/__init__.py:136-137 | substitute is given exactly the keys d, a and n |
| Renamer.NameFor | src/batchRenamer/__init__.py:134-137 | one file's name fails exactly for a template that is not well formed, with the template's first fault whatever the file; otherwise it ends with the file's extension |
| Renamer.Expansion | src/batchRenamer/__init__.py:133-138 | the names for zip(letters, numbers, files) fail exactly when there is at least one triple and the template is not well formed, with the template's first fault; otherwise there are min(len(a_seq), len(n_seq), len(files)) of them |
| Renamer.Letters | src/batchRenamer/__init__.py:75 | the default letters as strings: count % 26 of them, letter i being the one character at 'a' + i (or 'A' + i) |
| Renamer.ResolveLetters | src/batchRenamer/__init__.py:128 | a supplied a_seq is used as is; without one, count % 26 letters from 'a' (or 'A') on |
| Renamer.ResolveNumbers | src/batchRenamer/__init__.py:129 | a supplied n_seq is used as is; without one, the numbers 1, 2, ..., count |
| Renamer.ExpandTemplate | src/batchRenamer/__init__.py:118-140 | the loop over zip(a_seq, n_seq, files) returns exactly the recursive expansion over the resolved sequences |
| Renamer.ExpansionShape | src/batchRenamer/__init__.py:133-138 | a successful expansion has min(len(a_seq), len(n_seq), len(files)) names, the i-th built from letter i, number i and file i |
| Renamer.NamesKeepExtension | src/batchRenamer/__init__.py:134-137 | every proposed name ends with the extension of its file, and there are no more names than files |
| Renamer.CountedExpansion | src/batchRenamer/__init__.py:133-138 | over letters i and numbers i + 1, the expansion fails exactly when there are letters and the template is not well formed, and otherwise names file i with letter i and number i + 1 |
| Renamer.DefaultExpansion | src/batchRenamer/__init__.py:118-140 | with the default sequences there are count % 26 names, file i getting letter i and number i + 1; a multiple of 26 files gets no names and no error |
| Renamer.CliNumbering | src/batchRenamer/__main__.py:86-91 | the command falls back to the default numbering exactly for --start 0 --step 1; otherwise it uses generate_n_seq(start, step), which fails exactly for step 0 |
| Renamer.CliDefaultIsOneBased | src/batchRenamer/__main__.py:86-91 | the command's default --start 0 --step 1 numbers the files 1, 2, ..., the same as --start 1 |
| Renamer.ReplaceNames | src/batchRenamer/__init__.py:101-116 | replace gives one name per file, in order, each the substitution applied to that file's full name |
| NumberingExample.FileNTokens | src/batchRenamer/__init__.py:136-137 | "file_%n" reads as five plain characters and the key n |
| NumberingExample.ExpandChars | src/batchRenamer/__init__.py:136-137 | plain-text tokens expand to their own characters in front of whatever follows |
| NumberingExample.FileNSubstitutes | src/batchRenamer/__init__.py:136-137 | a template read as "file_%n" substitutes to "file_" followed by the value of n |
| NumberingExample.FileName | src/batchRenamer/__init__.py:134-137 | "file_%n" with pad 2 names a .txt file "file_" + zfilled number + ".txt" |
| NumberingExample.NumberedTxtNames | src/batchRenamer/__init__.py:118-140 | with the default sequences and pad 2, .txt file i is named "file_" followed by i + 1 zero-filled to two digits, count % 26 names in all |
| NumberingExample.SpeltOut | src/batchRenamer/__init__.py:137 | `str(1).zfill(2)` in such a name gives "file_01.txt" |
| NumberingExample.NumberedWithPadding | src/batchRenamer/__init__.py:118-140 | "file_%n", pad 2, default sequences, .txt files: the first name is file_01.txt and name i is file_ followed by i + 1 zero-filled |
| Examples.TwentySixFilesGetNoNames | src/batchRenamer/__init__.py:73 | 26 files get no names, even from a template with an unknown key |
| Examples.LongestIdentifierIsTheKey | src/batchRenamer/__init__.py:136-137 | "%nx" names the key nx, which is not supplied, so substitute raises KeyError("nx") |
| Examples.BracedKey | src/batchRenamer/__init__.py:136-137 | "%{n}x" is n followed by x |
| Examples.EscapedDelimiter | src/batchRenamer/__init__.py:44 | "%%" is a literal '%' |
| Examples.LoneDelimiter | src/batchRenamer/__init__.py:44 | a '%' at the end of the template is an invalid placeholder |
| Examples.DotFile | src/batchRenamer/__init__.py:134 | ".bashrc" has no extension |
| Examples.LastDotOnly | src/batchRenamer/__init__.py:134 | only the last dot splits: "archive.tar.gz" gives ("archive.tar", ".gz") |
| Examples.NoDot | src/batchRenamer/__init__.py:134 | a name without a dot has an empty extension |
| Examples.PaddingCases | src/batchRenamer/__init__.py:137 | zfill keeps the '-' in front (-5 with width 3 is "-05"); pad 0 leaves str(n) alone; 7 with width 3 is "007" |
| Examples.TxtFoundAtSeven | src/batchRenamer/__init__.py:113 | ignoring case, the leftmost match of "txt" in "MyFile.TXT" is at 7 |
| Examples.ReplaceIgnoringCase | src/batchRenamer/__init__.py:113-114 | "txt" and "md" hold no regular-expression syntax, and replacing "txt" by "md" ignoring case turns "MyFile.TXT" into "MyFile.md" |
| Examples.NegativeStepFallsShort | src/batchRenamer/__init__.py:53-60 | --step -1 with start 5 over three files yields the single number 5 |

## Left out

- File-system access is not modelled: `fetch_files` (os.scandir) and `rename` (os.rename). The files are a sequence of names given to the model, in the order the scan returns them.
- The command's I/O is not modelled: its argument parsing, echo, confirmation prompt and colours (src/batchRenamer/__main__.py). Only its numbering rule is kept.
- setup.py is not part of this model.
- The `BatchRenamer` object is not a class here. The model never modifies `path`, `pad` or `files`, because `fetch_files` is left out, so they become parameters.
- `a_seq or ...` and `n_seq or ...` fall back to the default for a falsy argument, such as an empty list. The model treats every supplied sequence as a generator, which is always truthy; that is how the command passes `n_seq`.
- Supplied sequences are modelled as letters that are strings and numbers that are integers. Other objects, which `str()` would render, are not modelled.
- The sequences are lazy generators in the source. The model computes them in full, with the same items and the same order.
- Replacer.PatternSub: only for patterns and replacements with no regular-expression syntax. The pattern must have no metacharacter and the replacement no backslash. Character classes, groups, repetition, escapes and invalid patterns (`re.error`) are not modelled.
- Replacer.LowerAll: IGNORECASE is modelled as ASCII case folding. Non-ASCII case folding is not modelled.
- Renamer.ReplaceNames: requires the same literal pattern and replacement as PatternSub.
- Template: the ValueError's message (line and column) is kept only as the offset just after the offending '%'.
- PyPath.SplitExt: follows POSIX `os.path`. Windows paths (`ntpath`, with '\\' and drive letters) are not modelled.
- Template.IsIdStart: identifiers follow Python 3.7 and later, where the `%` identifier pattern is ASCII-only. Under Python 3.6, which setup.py still admits, IGNORECASE lets that pattern match some non-ASCII letters. Those are not modelled.
