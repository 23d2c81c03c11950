/** string.Template with the renamer's delimiter '%'. The template is read
    left to right into tokens; substitution then walks the tokens and stops
    at the first one it cannot expand, so the first fault in the text decides
    which exception escapes. */
module Template {
  import opened Results

  const Delimiter: char := '%'

  /** One match of the Template pattern, or one character outside any match. */
  datatype Token =
    | Char(c: char)                      // text that is not part of a placeholder
    | Escape                             // "%%"
    | Named(id: string, braced: bool)    // "%id" or "%{id}"
    | Invalid(offset: nat)               // any other '%': offset is the index after it

  predicate IsIdStart(c: char) { c == '_' || 'a' <= c <= 'z' || 'A' <= c <= 'Z' }

  predicate IsIdChar(c: char) { IsIdStart(c) || '0' <= c <= '9' }

  /** [_A-Za-z][_A-Za-z0-9]*: the identifier pattern, matched ASCII-only and
      ignoring case. */
  predicate IsIdentifier(s: string)
  {
    s != [] && IsIdStart(s[0]) && forall k :: 0 <= k < |s| ==> IsIdChar(s[k])
  }

  /** Length of the longest run of identifier characters starting at i. */
  function IdLength(t: string, i: nat): (n: nat)
    requires i <= |t|
    ensures i + n <= |t|
    ensures i + n == |t| || !IsIdChar(t[i + n])
    decreases |t| - i
  {
    if i == |t| || !IsIdChar(t[i]) then 0 else 1 + IdLength(t, i + 1)
  }

  /** Every character IdLength passes over is an identifier character. */
  lemma {:induction false} IdLengthChars(t: string, i: nat)
    requires i <= |t|
    ensures forall k :: i <= k < i + IdLength(t, i) ==> IsIdChar(t[k])
    decreases |t| - i
  {
    if i < |t| && IsIdChar(t[i]) {
      IdLengthChars(t, i + 1);
    }
  }

  /** The text a token is read from. */
  function TokenText(tok: Token): string
  {
    match tok
    case Char(c) => [c]
    case Escape => [Delimiter, Delimiter]
    case Named(id, braced) => if braced then [Delimiter, '{'] + id + ['}'] else [Delimiter] + id
    case Invalid(_) => [Delimiter]
  }

  /** The n identifier characters after an identifier start at j form an identifier. */
  lemma IdRun(t: string, j: nat, n: nat)
    requires j + n <= |t| && n >= 1 && IsIdStart(t[j])
    requires forall k :: j <= k < j + n ==> IsIdChar(t[k])
    ensures IsIdentifier(t[j..j + n])
  {
    var id := t[j..j + n];
    assert forall k :: 0 <= k < n ==> id[k] == t[j + k];
  }

  /** "%id" covers the '%' and the identifier after it. */
  lemma PlainNamedText(t: string, i: nat, n: nat)
    requires i + 1 + n <= |t| && t[i] == Delimiter
    ensures TokenText(Named(t[i + 1..i + 1 + n], false)) == t[i..i + 1 + n]
  {
    assert t[i..i + 1 + n] == [t[i]] + t[i + 1..i + 1 + n];
  }

  /** "%{id}" covers the '%', the braces and the identifier between them. */
  lemma BracedNamedText(t: string, i: nat, n: nat)
    requires i + 3 + n <= |t| && t[i] == Delimiter && t[i + 1] == '{' && t[i + 2 + n] == '}'
    ensures TokenText(Named(t[i + 2..i + 2 + n], true)) == t[i..i + 3 + n]
  {
    assert t[i..i + 3 + n] == [t[i], t[i + 1]] + t[i + 2..i + 2 + n] + [t[i + 2 + n]];
  }

  /** "%%": the '%' at t[i] is followed by another. */
  predicate EscapeAt(t: string, i: nat)
    requires i < |t|
  {
    i + 1 < |t| && t[i + 1] == Delimiter
  }

  /** "%id": the '%' at t[i] is followed by an identifier start. */
  predicate NamedAt(t: string, i: nat)
    requires i < |t|
  {
    i + 1 < |t| && IsIdStart(t[i + 1])
  }

  /** "%{id}": the '%' at t[i] is followed by '{', an identifier and its closing '}'. */
  predicate BracedAt(t: string, i: nat)
    requires i < |t|
  {
    i + 2 < |t| && t[i + 1] == '{' && IsIdStart(t[i + 2]) && ClosedAt(t, i + 2)
  }

  /** The identifier run starting at t[j] is followed by '}'. */
  predicate ClosedAt(t: string, j: nat)
    requires j <= |t|
  {
    j + IdLength(t, j) < |t| && t[j + IdLength(t, j)] == '}'
  }

  /** A '%' at t[i] that starts none of the three forms. */
  predicate InvalidAt(t: string, i: nat)
    requires i < |t|
  {
    t[i] == Delimiter && !EscapeAt(t, i) && !NamedAt(t, i) && !BracedAt(t, i)
  }

  /** The match that starts with the '%' at t[i] and the index after it, in
      the pattern's order of preference: an escape exactly after "%%"; else a
      plain name exactly when an identifier start follows, running as far as
      identifier characters go; else a braced name exactly for "%{id}"; and
      an invalid placeholder exactly when none of these applies. */
  function Placeholder(t: string, i: nat): (r: (Token, nat))
    requires i < |t| && t[i] == Delimiter
    ensures i < r.1 <= |t| && TokenText(r.0) == t[i..r.1]
    ensures !r.0.Char?
    ensures r.0.Named? ==> IsIdentifier(r.0.id)
    ensures r.0.Invalid? ==> r.0.offset == i + 1 && r.1 == i + 1
    ensures r.0 == Escape <==> EscapeAt(t, i)
    ensures r.0.Named? && !r.0.braced <==> NamedAt(t, i)
    ensures r.0.Named? && !r.0.braced ==> r.1 == |t| || !IsIdChar(t[r.1])
    ensures r.0.Named? && r.0.braced <==> BracedAt(t, i)
    ensures r.0.Invalid? <==> InvalidAt(t, i)
  {
    if EscapeAt(t, i) then
      EscapeForm(t, i);
      (Escape, i + 2)
    else if NamedAt(t, i) then
      var n := IdLength(t, i + 1);
      PlainNamedForm(t, i, n);
      (Named(t[i + 1..i + 1 + n], false), i + 1 + n)
    else if BracedAt(t, i) then
      var n := IdLength(t, i + 2);
      BracedNamedForm(t, i, n);
      (Named(t[i + 2..i + 2 + n], true), i + 3 + n)
    else
      assert t[i..i + 1] == [t[i]];
      (Invalid(i + 1), i + 1)
  }

  /** "%%" covers both delimiters, and starts no other form. */
  lemma EscapeForm(t: string, i: nat)
    requires i < |t| && t[i] == Delimiter && EscapeAt(t, i)
    ensures i + 2 <= |t| && TokenText(Escape) == t[i..i + 2]
    ensures !NamedAt(t, i) && !BracedAt(t, i) && !InvalidAt(t, i)
  {
    assert t[i..i + 2] == [t[i], t[i + 1]];
  }

  /** "%id" reads the longest identifier after the '%', and starts no other form. */
  lemma PlainNamedForm(t: string, i: nat, n: nat)
    requires i < |t| && t[i] == Delimiter && NamedAt(t, i) && n == IdLength(t, i + 1)
    ensures i + 1 + n <= |t| && IsIdentifier(t[i + 1..i + 1 + n])
    ensures TokenText(Named(t[i + 1..i + 1 + n], false)) == t[i..i + 1 + n]
    ensures i + 1 + n == |t| || !IsIdChar(t[i + 1 + n])
    ensures !BracedAt(t, i) && !InvalidAt(t, i)
  {
    IdLengthChars(t, i + 1);
    IdRun(t, i + 1, n);
    PlainNamedText(t, i, n);
  }

  /** "%{id}" reads the identifier between the braces, and starts no other form. */
  lemma BracedNamedForm(t: string, i: nat, n: nat)
    requires i < |t| && t[i] == Delimiter && BracedAt(t, i) && n == IdLength(t, i + 2)
    ensures i + 3 + n <= |t| && IsIdentifier(t[i + 2..i + 2 + n])
    ensures TokenText(Named(t[i + 2..i + 2 + n], true)) == t[i..i + 3 + n]
    ensures !EscapeAt(t, i) && !NamedAt(t, i) && !InvalidAt(t, i)
  {
    IdLengthChars(t, i + 2);
    IdRun(t, i + 2, n);
    BracedNamedText(t, i, n);
  }

  /** The match that starts at t[i] and the index after it: a placeholder
      at a '%', any other character as plain text. The token is exactly the
      text it covers. */
  function NextToken(t: string, i: nat): (r: (Token, nat))
    requires i < |t|
    ensures i < r.1 <= |t| && TokenText(r.0) == t[i..r.1]
    ensures r.0.Char? <==> t[i] != Delimiter
    ensures r.0.Named? ==> IsIdentifier(r.0.id)
    ensures r.0.Invalid? ==> r.0.offset == i + 1 && r.1 == i + 1
    ensures r.0 == Escape <==> t[i] == Delimiter && EscapeAt(t, i)
    ensures r.0.Named? && !r.0.braced <==> t[i] == Delimiter && NamedAt(t, i)
    ensures r.0.Named? && !r.0.braced ==> r.1 == |t| || !IsIdChar(t[r.1])
    ensures r.0.Named? && r.0.braced <==> t[i] == Delimiter && BracedAt(t, i)
    ensures r.0.Invalid? <==> InvalidAt(t, i)
  {
    if t[i] != Delimiter then
      assert t[i..i + 1] == [t[i]];
      (Char(t[i]), i + 1)
    else
      Placeholder(t, i)
  }

  /** The tokens of t[i..], in order. Every name is an identifier, and every
      invalid placeholder points just past a '%' that starts no other form. */
  function Tokenize(t: string, i: nat): (ts: seq<Token>)
    requires i <= |t|
    ensures forall k :: 0 <= k < |ts| && ts[k].Named? ==> IsIdentifier(ts[k].id)
    ensures forall k :: 0 <= k < |ts| && ts[k].Invalid? ==>
              i < ts[k].offset <= |t| && InvalidAt(t, ts[k].offset - 1)
    decreases |t| - i
  {
    if i == |t| then []
    else
      var (tok, j) := NextToken(t, i);
      [tok] + Tokenize(t, j)
  }

  /** The text a sequence of tokens is read from. */
  function Render(ts: seq<Token>): string
  {
    if ts == [] then [] else TokenText(ts[0]) + Render(ts[1..])
  }

  /** Rendering a token in front of others writes its text first. */
  lemma RenderCons(tok: Token, rest: seq<Token>)
    ensures Render([tok] + rest) == TokenText(tok) + Render(rest)
  {
    assert ([tok] + rest)[1..] == rest;
  }

  /** Tokenizing t[i..] reads the match at i, then the rest after it. */
  lemma TokenizeUnfold(t: string, i: nat)
    requires i < |t|
    ensures Tokenize(t, i) == [NextToken(t, i).0] + Tokenize(t, NextToken(t, i).1)
  {
  }

  /** Reading a template into tokens loses nothing: rendering them gives the text back. */
  lemma {:induction false} TokenizeRoundTrip(t: string, i: nat)
    requires i <= |t|
    ensures Render(Tokenize(t, i)) == t[i..]
    decreases |t| - i
  {
    if i < |t| {
      var (tok, j) := NextToken(t, i);
      TokenizeUnfold(t, i);
      TokenizeRoundTrip(t, j);
      RenderCons(tok, Tokenize(t, j));
      JoinText(t, i, j, TokenText(tok), Render(Tokenize(t, j)));
    }
  }

  /** The text of t from i is its text up to j followed by its text from j. */
  lemma JoinText(t: string, i: nat, j: nat, front: string, back: string)
    requires i <= j <= |t| && front == t[i..j] && back == t[j..]
    ensures front + back == t[i..]
  {
    assert t[i..] == t[i..j] + t[j..];
  }

  /** A token substitution can expand with a mapping whose keys are keys. */
  predicate Expandable(tok: Token, keys: set<string>)
  {
    !tok.Invalid? && (tok.Named? ==> tok.id in keys)
  }

  /** The fault of a token that cannot be expanded. */
  function Fault(tok: Token): PyError
    requires tok.Named? || tok.Invalid?
  {
    if tok.Named? then KeyError(tok.id) else InvalidPlaceholder(tok.offset)
  }

  /** The tokens expanded left to right: the result fails exactly when some
      token has a fault, and then with the first one. */
  function Expand(ts: seq<Token>, mapping: map<string, string>): (r: Result<string>)
    ensures r.Err? <==> FirstFault(ts, mapping.Keys).Some?
    ensures r.Err? ==> r.error == FirstFault(ts, mapping.Keys).value
  {
    if ts == [] then Ok([])
    else
      match ts[0]
      case Invalid(offset) => Err(InvalidPlaceholder(offset))
      case Named(id, _) =>
        if id !in mapping then Err(KeyError(id))
        else Concat(mapping[id], Expand(ts[1..], mapping))
      case Escape => Concat([Delimiter], Expand(ts[1..], mapping))
      case Char(c) => Concat([c], Expand(ts[1..], mapping))
  }

  function Concat(prefix: string, r: Result<string>): Result<string>
  {
    match r
    case Ok(s) => Ok(prefix + s)
    case Err(e) => Err(e)
  }

  /** The offset an invalid placeholder reports: just past a '%' of t that
      starts no placeholder. */
  predicate InvalidOffset(t: string, offset: nat)
  {
    0 < offset <= |t| && InvalidAt(t, offset - 1)
  }

  /** Template(template).substitute(mapping). A KeyError names an identifier
      of the template that the mapping lacks; a ValueError points just past a
      '%' of the template that starts no placeholder. */
  function Substitute(template: string, mapping: map<string, string>): (r: Result<string>)
    ensures r.Err? && r.error.KeyError? ==> r.error.key !in mapping && IsIdentifier(r.error.key)
    ensures r.Err? && r.error.InvalidPlaceholder? ==> InvalidOffset(template, r.error.offset)
    ensures r.Err? ==> !r.error.ZeroStep?
  {
    var r := Expand(Tokenize(template, 0), mapping);
    SubstituteFault(template, mapping, Tokenize(template, 0), r);
    r
  }

  /** The fault that stops substitution is that of a token of the template. */
  lemma SubstituteFault(template: string, mapping: map<string, string>, ts: seq<Token>, r: Result<string>)
    requires ts == Tokenize(template, 0) && r == Expand(ts, mapping)
    ensures r.Err? && r.error.KeyError? ==> r.error.key !in mapping && IsIdentifier(r.error.key)
    ensures r.Err? && r.error.InvalidPlaceholder? ==> InvalidOffset(template, r.error.offset)
    ensures r.Err? ==> !r.error.ZeroStep?
  {
    if r.Err? {
      var k :| 0 <= k < |ts| && !Expandable(ts[k], mapping.Keys) && FirstFault(ts, mapping.Keys).value == Fault(ts[k]);
    }
  }

  /** Expansion succeeds exactly when every token is expandable; when it
      fails, the error is the fault of the first token that is not. */
  lemma {:induction false} ExpandOutcome(ts: seq<Token>, mapping: map<string, string>)
    ensures Expand(ts, mapping).Ok? <==> forall k :: 0 <= k < |ts| ==> Expandable(ts[k], mapping.Keys)
    ensures Expand(ts, mapping).Err? ==>
      exists k :: 0 <= k < |ts| && !Expandable(ts[k], mapping.Keys) && Expand(ts, mapping).error == Fault(ts[k])
        && forall j :: 0 <= j < k ==> Expandable(ts[j], mapping.Keys)
  {
    if ts != [] {
      ExpandOutcome(ts[1..], mapping);
      if Expand(ts, mapping).Err? && Expandable(ts[0], mapping.Keys) {
        var k :| 0 <= k < |ts[1..]| && !Expandable(ts[1..][k], mapping.Keys) && Expand(ts[1..], mapping).error == Fault(ts[1..][k])
                 && forall j :: 0 <= j < k ==> Expandable(ts[1..][j], mapping.Keys);
        assert !Expandable(ts[k + 1], mapping.Keys);
        assert forall j :: 0 <= j < k + 1 ==> Expandable(ts[j], mapping.Keys) by {
          forall j | 0 <= j < k + 1 ensures Expandable(ts[j], mapping.Keys) {
            if j > 0 { assert ts[j] == ts[1..][j - 1]; }
          }
        }
      }
    }
  }

  /** The fault of the first token that keys cannot expand, if any. It
      depends on the keys only, never on the values they map to. */
  function FirstFault(ts: seq<Token>, keys: set<string>): (r: Option<PyError>)
    ensures r.Some? ==> exists k :: 0 <= k < |ts| && !Expandable(ts[k], keys) && r.value == Fault(ts[k])
  {
    if ts == [] then None
    else if !Expandable(ts[0], keys) then Some(Fault(ts[0]))
    else
      var rest := FirstFault(ts[1..], keys);
      assert rest.Some? ==> exists k :: 0 <= k < |ts| && !Expandable(ts[k], keys) && rest.value == Fault(ts[k]) by {
        if rest.Some? {
          var k :| 0 <= k < |ts[1..]| && !Expandable(ts[1..][k], keys) && rest.value == Fault(ts[1..][k]);
          assert ts[k + 1] == ts[1..][k];
        }
      }
      rest
  }

  /** A template without '%' substitutes to itself, whatever the mapping. */
  lemma {:induction false} NoDelimiterIsLiteral(t: string, i: nat, mapping: map<string, string>)
    requires i <= |t|
    requires forall k :: i <= k < |t| ==> t[k] != Delimiter
    ensures Expand(Tokenize(t, i), mapping) == Ok(t[i..])
    decreases |t| - i
  {
    if i < |t| {
      NoDelimiterIsLiteral(t, i + 1, mapping);
      assert t[i..] == [t[i]] + t[i + 1..];
    }
  }
}
