/** The deployment helpers: turning a URI template with `{name}` and `{name:expr}`
    placeholders into an anchored regular expression, and parsing the PostgreSQL
    connection string `user@http://host:PPPP/database/password`. */
module Deploy {
  import opened Wrappers
  import opened Strings

  // ---------------------------------------------------------------------------
  // re.escape

  /** The characters `re.escape` leaves alone, and `\w` matches: ASCII letters,
      digits and the underscore. */
  predicate IsWordChar(c: char) {
    'a' <= c <= 'z' || 'A' <= c <= 'Z' || '0' <= c <= '9' || c == '_'
  }

  function EscapeChar(c: char): (r: string)
  {
    if IsWordChar(c) then [c]
    else if c == '\0' then "\\000"
    else ['\\', c]
  }

  /** `re.escape(s)`: a backslash before every character that is not a word
      character, and NUL written as `\000`. */
  function ReEscape(s: string): string {
    if s == [] then "" else EscapeChar(s[0]) + ReEscape(s[1..])
  }

  /** Escaping works character by character, so it distributes over concatenation. */
  lemma {:induction false} ReEscapeConcat(a: string, b: string)
    ensures ReEscape(a + b) == ReEscape(a) + ReEscape(b)
  {
    if a != [] {
      assert (a + b)[0] == a[0] && (a + b)[1..] == a[1..] + b;
      ReEscapeConcat(a[1..], b);
      ConcatAssoc(EscapeChar(a[0]), ReEscape(a[1..]), ReEscape(b));
    } else {
      assert a + b == b;
    }
  }

  /** Reading escaped text back: `\000` is NUL, a backslash takes the next character
      literally, anything else stands for itself. */
  function Unescape(e: string): string
    decreases |e|
  {
    if e == [] then ""
    else if e[0] == '\\' && |e| >= 4 && e[1] == '0' && e[2] == '0' && e[3] == '0' then ['\0'] + Unescape(e[4..])
    else if e[0] == '\\' && |e| >= 2 then [e[1]] + Unescape(e[2..])
    else [e[0]] + Unescape(e[1..])
  }

  /** Escaping loses nothing: the escaped text reads back as the original. */
  lemma {:induction false} UnescapeReEscape(s: string)
    ensures Unescape(ReEscape(s)) == s
  {
    if s != [] {
      var c, rest := s[0], ReEscape(s[1..]);
      var e := EscapeChar(c) + rest;
      UnescapeReEscape(s[1..]);
      if IsWordChar(c) {
        assert e[1..] == rest;
      } else if c == '\0' {
        assert e[4..] == rest;
      } else {
        assert e[1] == c && e[2..] == rest;
      }
      assert s == [c] + s[1..];
    }
  }

  /** Text of word characters only is its own escape. */
  lemma {:induction false} ReEscapeWord(s: string)
    requires forall i :: 0 <= i < |s| ==> IsWordChar(s[i])
    ensures ReEscape(s) == s
  {
    if s != [] {
      ReEscapeWord(s[1..]);
      assert s == [s[0]] + s[1..];
    }
  }

  // ---------------------------------------------------------------------------
  // param_regex: `\{(\w+)(?::([^}]+))?\}`

  /** A placeholder: its variable name and, in `{name:expr}`, its own expression. */
  datatype Placeholder = Placeholder(name: string, expr: Option<string>)

  /** A placeholder found in a template, with the position just after it. */
  datatype Found = Found(param: Placeholder, end: nat)

  predicate ValidPlaceholder(ph: Placeholder) {
    |ph.name| > 0 && (forall i :: 0 <= i < |ph.name| ==> IsWordChar(ph.name[i])) &&
    (ph.expr.Some? ==> |ph.expr.value| > 0 && '}' !in ph.expr.value)
  }

  /** How a placeholder is written in a template. */
  function PlaceholderText(ph: Placeholder): string {
    "{" + ph.name + (if ph.expr.Some? then ":" + ph.expr.value else "") + "}"
  }

  /** The end of the run of word characters that starts at `i`. */
  function WordEnd(t: string, i: nat): (r: nat)
    requires i <= |t|
    ensures i <= r <= |t|
    ensures forall k :: i <= k < r ==> IsWordChar(t[k])
    ensures r == |t| || !IsWordChar(t[r])
    decreases |t| - i
  {
    if i < |t| && IsWordChar(t[i]) then WordEnd(t, i + 1) else i
  }

  /** The position of the first `}` at or after `i`, or the end of the text. */
  function BraceFrom(t: string, i: nat): (r: nat)
    requires i <= |t|
    ensures i <= r <= |t|
    ensures forall k :: i <= k < r ==> t[k] != '}'
    ensures r == |t| || t[r] == '}'
    decreases |t| - i
  {
    if i == |t| || t[i] == '}' then i else BraceFrom(t, i + 1)
  }

  /** Whether `param_regex` matches at position `p`. The name takes every word
      character that follows the brace; an expression runs to the first `}`. */
  function MatchAt(t: string, p: nat): (r: Option<Found>)
    requires p <= |t|
    ensures r.Some? ==> p < r.value.end <= |t|
  {
    if p == |t| || t[p] != '{' then None
    else
      var e := WordEnd(t, p + 1);
      if e == p + 1 || e == |t| then None
      else if t[e] == '}' then Some(Found(Placeholder(t[p + 1..e], None), e + 1))
      else if t[e] != ':' then None
      else
        var c := BraceFrom(t, e + 1);
        if c == e + 1 || c == |t| then None
        else Some(Found(Placeholder(t[p + 1..e], Some(t[e + 1..c])), c + 1))
  }

  /** The run of word characters from `i` ends where the first other character is. */
  lemma WordEndAt(t: string, i: nat, r: nat)
    requires i <= r < |t| && !IsWordChar(t[r])
    requires forall k :: i <= k < r ==> IsWordChar(t[k])
    ensures WordEnd(t, i) == r
  {
  }

  /** The search for `}` from `i` stops at the first one. */
  lemma BraceFromAt(t: string, i: nat, r: nat)
    requires i <= r < |t| && t[r] == '}'
    requires forall k :: i <= k < r ==> t[k] != '}'
    ensures BraceFrom(t, i) == r
  {
  }

  lemma SliceBraces(t: string, p: nat, e: nat)
    requires p < e < |t| && t[p] == '{' && t[e] == '}'
    ensures t[p..e + 1] == "{" + t[p + 1..e] + "}"
  {
  }

  lemma SliceBracesExpr(t: string, p: nat, e: nat, c: nat)
    requires p < e < c < |t| && t[p] == '{' && t[e] == ':' && t[c] == '}'
    ensures t[p..c + 1] == "{" + t[p + 1..e] + (":" + t[e + 1..c]) + "}"
  {
    assert t[p..c + 1] == [t[p]] + t[p + 1..e] + [t[e]] + t[e + 1..c] + [t[c]];
  }

  /** Where the name of a written placeholder sits, and what follows it. */
  lemma NameLayout(ph: Placeholder)
    ensures var text, n := PlaceholderText(ph), |ph.name|;
            |text| >= n + 2 && text[0] == '{' && text[1..n + 1] == ph.name &&
            text[n + 1] == (if ph.expr.Some? then ':' else '}')
  {
    var n := |ph.name|;
    var tail := (if ph.expr.Some? then ":" + ph.expr.value else "") + "}";
    assert PlaceholderText(ph) == "{" + ph.name + tail;
    assert ("{" + ph.name + tail)[1..n + 1] == ph.name;
  }

  /** Where the expression of a written placeholder sits. */
  lemma ExprLayout(ph: Placeholder)
    requires ph.expr.Some?
    ensures var text, n, x := PlaceholderText(ph), |ph.name|, ph.expr.value;
            |text| == n + 3 + |x| && text[n + 2..n + 2 + |x|] == x && text[n + 2 + |x|] == '}'
  {
    var x := ph.expr.value;
    var text := "{" + ph.name + (":" + x) + "}";
    assert text[|ph.name| + 2..|ph.name| + 2 + |x|] == x;
  }

  /** A match is a well-formed placeholder, written out in the template. */
  lemma MatchAtSound(t: string, p: nat)
    requires p <= |t|
    ensures MatchAt(t, p).Some? ==>
              ValidPlaceholder(MatchAt(t, p).value.param) &&
              t[p..MatchAt(t, p).value.end] == PlaceholderText(MatchAt(t, p).value.param)
  {
    if MatchAt(t, p).Some? {
      var e := WordEnd(t, p + 1);
      var name := t[p + 1..e];
      assert forall k :: 0 <= k < |name| ==> IsWordChar(name[k]);
      if t[e] == '}' {
        SliceBraces(t, p, e);
      } else {
        var c := BraceFrom(t, e + 1);
        var expr := t[e + 1..c];
        assert '}' !in expr by {
          assert forall k :: 0 <= k < |expr| ==> expr[k] == t[e + 1 + k];
        }
        SliceBracesExpr(t, p, e, c);
      }
    }
  }

  /** A slice of the template that is known to hold `w` has `w`'s characters. */
  lemma SliceAt(t: string, p: nat, w: string, i: nat, j: nat)
    requires p + |w| <= |t| && t[p..p + |w|] == w && i <= j <= |w|
    ensures t[p + i..p + j] == w[i..j]
    ensures j < |w| ==> t[p + j] == w[j]
  {
    assert t[p + i..p + j] == w[i..j] by {
      forall k | 0 <= k < j - i
        ensures t[p + i..p + j][k] == w[i..j][k]
      {
        assert t[p + i + k] == t[p..p + |w|][i + k];
      }
    }
    if j < |w| {
      assert t[p + j] == t[p..p + |w|][j];
    }
  }

  /** A run of word characters written at `s` and followed by another character is
      the run `WordEnd` finds. */
  lemma NameRun(t: string, s: nat, x: string)
    requires s + |x| < |t| && t[s..s + |x|] == x && !IsWordChar(t[s + |x|])
    requires forall i :: 0 <= i < |x| ==> IsWordChar(x[i])
    ensures WordEnd(t, s) == s + |x|
  {
    forall k | s <= k < s + |x|
      ensures IsWordChar(t[k])
    {
      assert t[k] == t[s..s + |x|][k - s];
    }
    WordEndAt(t, s, s + |x|);
  }

  /** Text without `}` written at `s` and followed by `}` is what `BraceFrom` skips. */
  lemma ExprRun(t: string, s: nat, x: string)
    requires s + |x| < |t| && t[s..s + |x|] == x && t[s + |x|] == '}' && '}' !in x
    ensures BraceFrom(t, s) == s + |x|
  {
    forall k | s <= k < s + |x|
      ensures t[k] != '}'
    {
      assert t[k] == t[s..s + |x|][k - s];
    }
    BraceFromAt(t, s, s + |x|);
  }

  /** A run of word characters `x` at `i` in text `w` written at `p`, followed by a
      character that is not a word character. */
  lemma NameRunWithin(t: string, p: nat, w: string, i: nat, x: string)
    requires p + |w| <= |t| && t[p..p + |w|] == w
    requires i + |x| < |w| && w[i..i + |x|] == x && !IsWordChar(w[i + |x|])
    requires forall k :: 0 <= k < |x| ==> IsWordChar(x[k])
    ensures WordEnd(t, p + i) == p + i + |x| && t[p + i..p + i + |x|] == x
    ensures t[p + i + |x|] == w[i + |x|]
  {
    SliceAt(t, p, w, i, i + |x|);
    NameRun(t, p + i, x);
  }

  /** The same, for text `w` written at `p` that holds `x` from `i` and a `}` after it;
      in `t` these are the positions `s` and `c`. */
  lemma ExprRunWithin(t: string, p: nat, w: string, i: nat, x: string, s: nat, c: nat)
    requires p + |w| <= |t| && t[p..p + |w|] == w
    requires i + |x| < |w| && w[i..i + |x|] == x && w[i + |x|] == '}' && '}' !in x
    requires s == p + i && c == s + |x|
    ensures c < |t| && BraceFrom(t, s) == c && t[s..c] == x
  {
    SliceAt(t, p, w, i, i + |x|);
    ExprRun(t, s, x);
  }

  /** The name of a placeholder written at `p` is the run of word characters after `{`. */
  lemma NameInText(t: string, p: nat, ph: Placeholder)
    requires ValidPlaceholder(ph)
    requires p + |PlaceholderText(ph)| <= |t| && t[p..p + |PlaceholderText(ph)|] == PlaceholderText(ph)
    ensures var e := p + 1 + |ph.name|;
            e < |t| && t[p] == '{' && WordEnd(t, p + 1) == e && t[p + 1..e] == ph.name &&
            t[e] == (if ph.expr.Some? then ':' else '}')
  {
    var text := PlaceholderText(ph);
    NameLayout(ph);
    SliceAt(t, p, text, 0, 0);
    NameRunWithin(t, p, text, 1, ph.name);
  }

  /** The expression of a placeholder written at `p` runs to the first `}` after `:`. */
  lemma ExprInText(t: string, p: nat, ph: Placeholder)
    requires ph.expr.Some? && '}' !in ph.expr.value
    requires p + |PlaceholderText(ph)| <= |t| && t[p..p + |PlaceholderText(ph)|] == PlaceholderText(ph)
    ensures var e := p + 1 + |ph.name|;
            var c := e + 1 + |ph.expr.value|;
            c < |t| && BraceFrom(t, e + 1) == c && t[e + 1..c] == ph.expr.value
  {
    var e := p + 1 + |ph.name|;
    ExprLayout(ph);
    ExprRunWithin(t, p, PlaceholderText(ph), |ph.name| + 2, ph.expr.value, e + 1, e + 1 + |ph.expr.value|);
  }

  /** Every well-formed placeholder written at `p` is matched there, as itself. */
  lemma MatchAtComplete(t: string, p: nat, ph: Placeholder)
    requires ValidPlaceholder(ph)
    requires p + |PlaceholderText(ph)| <= |t| && t[p..p + |PlaceholderText(ph)|] == PlaceholderText(ph)
    ensures MatchAt(t, p) == Some(Found(ph, p + |PlaceholderText(ph)|))
  {
    NameInText(t, p, ph);
    if ph.expr.Some? {
      ExprInText(t, p, ph);
    }
  }

  // ---------------------------------------------------------------------------
  // uri_to_regex

  /** A template cut at its placeholders: literal text and placeholders in order. */
  datatype Piece = Lit(text: string) | Param(ph: Placeholder)

  /** The scan of `finditer`, from a cursor `pos` with the literal text pending since
      `last`: each match closes the pending literal and contributes its placeholder;
      the text after the last match is the final literal. */
  function ScanFrom(t: string, last: nat, pos: nat): seq<Piece>
    requires last <= pos <= |t|
    decreases |t| - pos
  {
    if pos == |t| then [Lit(t[last..])]
    else
      match MatchAt(t, pos)
      case Some(f) => [Lit(t[last..pos]), Param(f.param)] + ScanFrom(t, f.end, f.end)
      case None => ScanFrom(t, last, pos + 1)
  }

  function Scan(t: string): seq<Piece> {
    ScanFrom(t, 0, 0)
  }

  function PieceText(piece: Piece): string {
    match piece
    case Lit(text) => text
    case Param(ph) => PlaceholderText(ph)
  }

  /** The template text the pieces were cut from. */
  function Unparse(pieces: seq<Piece>): string {
    if pieces == [] then "" else PieceText(pieces[0]) + Unparse(pieces[1..])
  }

  lemma UnparseMatch(a: string, ph: Placeholder, rest: seq<Piece>)
    ensures Unparse([Lit(a), Param(ph)] + rest) == a + (PlaceholderText(ph) + Unparse(rest))
  {
    var pieces := [Lit(a), Param(ph)] + rest;
    assert pieces[1..][1..] == rest;
  }

  lemma SliceThree(t: string, i: nat, j: nat, k: nat)
    requires i <= j <= k <= |t|
    ensures t[i..] == t[i..j] + (t[j..k] + t[k..])
  {
    assert t[j..] == t[j..k] + t[k..];
    assert t[i..] == t[i..j] + t[j..];
  }

  lemma {:induction false} ScanFromUnparse(t: string, last: nat, pos: nat)
    requires last <= pos <= |t|
    ensures Unparse(ScanFrom(t, last, pos)) == t[last..]
    decreases |t| - pos
  {
    if pos < |t| {
      match MatchAt(t, pos)
      case Some(f) =>
        ScanFromUnparse(t, f.end, f.end);
        MatchAtSound(t, pos);
        UnparseMatch(t[last..pos], f.param, ScanFrom(t, f.end, f.end));
        SliceThree(t, last, pos, f.end);
      case None =>
        ScanFromUnparse(t, last, pos + 1);
    }
  }

  /** The scan cuts the template without losing or reordering anything: the pieces
      put back together are the template. */
  lemma ScanUnparse(t: string)
    ensures Unparse(Scan(t)) == t
  {
    ScanFromUnparse(t, 0, 0);
  }

  /** Positions where no placeholder starts are passed over. */
  lemma {:induction false} ScanSkip(t: string, last: nat, pos: nat, k: nat)
    requires last <= pos <= k <= |t|
    requires forall q :: pos <= q < k ==> MatchAt(t, q).None?
    ensures ScanFrom(t, last, pos) == ScanFrom(t, last, k)
    decreases k - pos
  {
    if pos < k {
      ScanSkip(t, last, pos + 1, k);
    }
  }

  lemma NoMatchWithoutBrace(t: string, q: nat)
    requires q < |t| && t[q] != '{'
    ensures MatchAt(t, q).None?
  {
  }

  /** `'(?P<%s>%s)' % (var_name, expr)`, the expression defaulting to `[^/]+`. */
  function Group(ph: Placeholder): string {
    "(?P<" + ph.name + ">" + (if ph.expr.Some? then ph.expr.value else "[^/]+") + ")"
  }

  function RenderPiece(piece: Piece): string {
    match piece
    case Lit(text) => ReEscape(text)
    case Param(ph) => Group(ph)
  }

  /** The regular expression between the anchors: escaped literals and named groups. */
  function Render(pieces: seq<Piece>): string {
    if pieces == [] then "" else RenderPiece(pieces[0]) + Render(pieces[1..])
  }

  /** The loop state of `uri_to_regex`: the output so far followed by the rendering
      of what the scan still has to produce is the rendering of the whole scan. */
  ghost predicate RegexSoFar(t: string, regex: string, last: nat, pos: nat)
    requires last <= pos <= |t|
  {
    regex + Render(ScanFrom(t, last, pos)) == Render(Scan(t))
  }

  /** A match appends the pending literal, escaped, and the placeholder's group. */
  lemma RegexMatchStep(t: string, regex: string, last: nat, pos: nat)
    requires last <= pos < |t| && MatchAt(t, pos).Some? && RegexSoFar(t, regex, last, pos)
    ensures var f := MatchAt(t, pos).value;
            RegexSoFar(t, regex + ReEscape(t[last..pos]) + Group(f.param), f.end, f.end)
  {
    var f := MatchAt(t, pos).value;
    var rest := ScanFrom(t, f.end, f.end);
    var pieces := [Lit(t[last..pos]), Param(f.param)] + rest;
    assert pieces[1..][1..] == rest;
    assert Render(ScanFrom(t, last, pos)) == ReEscape(t[last..pos]) + (Group(f.param) + Render(rest));
    ConcatAssoc(ReEscape(t[last..pos]), Group(f.param), Render(rest));
    ConcatAssoc(regex, ReEscape(t[last..pos]) + Group(f.param), Render(rest));
    ConcatAssoc(regex, ReEscape(t[last..pos]), Group(f.param));
  }

  /** A position where nothing matches moves the cursor and keeps the literal pending. */
  lemma RegexSkipStep(t: string, regex: string, last: nat, pos: nat)
    requires last <= pos < |t| && MatchAt(t, pos).None? && RegexSoFar(t, regex, last, pos)
    ensures RegexSoFar(t, regex, last, pos + 1)
  {
  }

  /** At the end of the template the pending literal, escaped, completes the output. */
  lemma RegexEnd(t: string, regex: string, last: nat)
    requires last <= |t| && RegexSoFar(t, regex, last, |t|)
    ensures regex + ReEscape(t[last..]) == Render(Scan(t))
  {
    assert Render([Lit(t[last..])]) == ReEscape(t[last..]) + Render([]);
  }

  /** `uri_to_regex(template)`: the loop over the matches of `param_regex` escapes the
      literal text before each match, appends the match's named group and moves past
      it; the remaining text is escaped and appended, and the whole is anchored. */
  method UriToRegex(template: string) returns (regex: string)
    ensures regex == "^" + Render(Scan(template)) + "$"
  {
    regex := "";
    var lastPos: nat := 0;
    var pos: nat := 0;
    while pos < |template|
      invariant lastPos <= pos <= |template|
      invariant RegexSoFar(template, regex, lastPos, pos)
      decreases |template| - pos
    {
      var found := MatchAt(template, pos);
      if found.Some? {
        ghost var next := regex + ReEscape(template[lastPos..pos]) + Group(found.value.param);
        RegexMatchStep(template, regex, lastPos, pos);
        assert RegexSoFar(template, next, found.value.end, found.value.end);
        regex := regex + ReEscape(template[lastPos..pos]);
        var ph := found.value.param;
        var varName := ph.name;
        var expr := if ph.expr.Some? then ph.expr.value else "[^/]+";
        expr := "(?P<" + varName + ">" + expr + ")";
        assert expr == Group(ph);
        regex := regex + expr;
        assert regex == next;
        lastPos := found.value.end;
        pos := found.value.end;
        assert RegexSoFar(template, regex, lastPos, pos);
      } else {
        RegexSkipStep(template, regex, lastPos, pos);
        pos := pos + 1;
        assert RegexSoFar(template, regex, lastPos, pos);
      }
    }
    RegexEnd(template, regex, lastPos);
    regex := regex + ReEscape(template[lastPos..]);
    regex := "^" + regex + "$";
  }

  /** A template where no placeholder matches (no `{`, or only braces such as `a{b` or
      `{}` that are not placeholders) is matched literally: the regular expression is
      its escape between the anchors. */
  lemma LiteralTemplate(t: string)
    requires forall q :: 0 <= q < |t| ==> MatchAt(t, q).None?
    ensures Scan(t) == [Lit(t)]
    ensures Render(Scan(t)) == ReEscape(t)
  {
    ScanSkip(t, 0, 0, |t|);
    assert t[0..] == t;
  }

  /** In particular a template without `{` is all literal. */
  lemma BraceFreeTemplate(t: string)
    requires '{' !in t
    ensures Scan(t) == [Lit(t)]
    ensures Render(Scan(t)) == ReEscape(t)
  {
    forall q | 0 <= q < |t|
      ensures MatchAt(t, q).None?
    {
      NoMatchWithoutBrace(t, q);
    }
    LiteralTemplate(t);
  }

  /** Text without `{` is passed over by the scan. */
  lemma SkipLiteral(t: string, last: nat, pos: nat, k: nat)
    requires last <= pos <= k <= |t|
    requires forall q :: pos <= q < k ==> t[q] != '{'
    ensures ScanFrom(t, last, pos) == ScanFrom(t, last, k)
  {
    forall q | pos <= q < k
      ensures MatchAt(t, q).None?
    {
      NoMatchWithoutBrace(t, q);
    }
    ScanSkip(t, last, pos, k);
  }

  /** The scan of a template with one match, from `i` to `e`, and no `{` elsewhere. */
  lemma ScanAround(t: string, i: nat, e: nat, ph: Placeholder)
    requires i < e <= |t| && MatchAt(t, i) == Some(Found(ph, e))
    requires forall q :: 0 <= q < i ==> t[q] != '{'
    requires forall q :: e <= q < |t| ==> t[q] != '{'
    ensures Scan(t) == [Lit(t[..i]), Param(ph), Lit(t[e..])]
  {
    SkipLiteral(t, 0, 0, i);
    SkipLiteral(t, e, e, |t|);
    assert t[0..i] == t[..i];
  }

  lemma RenderThree(x: string, ph: Placeholder, y: string)
    ensures Render([Lit(x), Param(ph), Lit(y)]) == ReEscape(x) + Group(ph) + ReEscape(y)
  {
    var pieces := [Lit(x), Param(ph), Lit(y)];
    assert pieces[1..] == [Param(ph), Lit(y)] && pieces[1..][1..] == [Lit(y)] && pieces[1..][1..][1..] == [];
    assert Render(pieces[1..][1..]) == ReEscape(y) by {
      assert Render(pieces[1..][1..]) == ReEscape(y) + Render([]);
    }
    assert Render(pieces) == ReEscape(x) + (Group(ph) + ReEscape(y));
    ConcatAssoc(ReEscape(x), Group(ph), ReEscape(y));
  }

  /** One placeholder between two literal texts: the literals are escaped, and the
      placeholder becomes `(?P<name>[^/]+)`, or `(?P<name>expr)` when it has an
      expression. */
  lemma OnePlaceholder(a: string, ph: Placeholder, b: string)
    requires '{' !in a && '{' !in b && ValidPlaceholder(ph)
    ensures Scan(a + PlaceholderText(ph) + b) == [Lit(a), Param(ph), Lit(b)]
    ensures Render(Scan(a + PlaceholderText(ph) + b)) == ReEscape(a) + Group(ph) + ReEscape(b)
  {
    var text := PlaceholderText(ph);
    var t := a + text + b;
    var e := |a| + |text|;
    assert t[..|a|] == a && t[|a|..e] == text && t[e..] == b;
    assert forall q :: 0 <= q < |a| ==> t[q] == a[q];
    assert forall q :: e <= q < |t| ==> t[q] == b[q - e];
    MatchAtComplete(t, |a|, ph);
    ScanAround(t, |a|, e, ph);
    RenderThree(a, ph, b);
  }

  // ---------------------------------------------------------------------------
  // pg_connection

  /** The fields of a connection string, the port as a number. */
  datatype ConnInfo = ConnInfo(user: string, host: string, port: nat, database: string, password: string)

  datatype ConnError = ConnectionError

  /** `n` as exactly `width` decimal digits, with leading zeros. */
  function PaddedDecimal(n: nat, width: nat): (r: string)
    ensures |r| == width && AllDigits(r)
  {
    if width == 0 then "" else PaddedDecimal(n / 10, width - 1) + [DigitChar(n % 10)]
  }

  function Pow10(k: nat): nat {
    if k == 0 then 1 else 10 * Pow10(k - 1)
  }

  /** Digits read back as the number they were written from. */
  lemma {:induction false} PaddedDecimalValue(n: nat, width: nat)
    requires n < Pow10(width)
    ensures DecimalValue(PaddedDecimal(n, width)) == n
  {
    if width > 0 {
      PaddedDecimalValue(n / 10, width - 1);
      var r := PaddedDecimal(n, width);
      assert r[..width - 1] == PaddedDecimal(n / 10, width - 1);
    }
  }

  /** A numeral of `width` digits is below `10^width` and is written back the same,
      leading zeros included. */
  lemma {:induction false} DecimalValuePadded(s: string)
    requires AllDigits(s)
    ensures DecimalValue(s) < Pow10(|s|)
    ensures PaddedDecimal(DecimalValue(s), |s|) == s
  {
    if s != [] {
      var init := s[..|s| - 1];
      DecimalValuePadded(init);
      var d := DigitValue(s[|s| - 1]);
      assert DecimalValue(s) / 10 == DecimalValue(init) && DecimalValue(s) % 10 == d;
      assert DigitChar(d) == s[|s| - 1];
      assert s == init + [s[|s| - 1]];
    }
  }

  predicate ValidField(s: string) {
    |s| > 0 && '/' !in s
  }

  /** What `POSTGRES_URI` accepts: four slash-free, non-empty text fields and a port of
      four digits. */
  predicate ValidConnInfo(c: ConnInfo) {
    ValidField(c.user) && ValidField(c.host) && ValidField(c.database) && ValidField(c.password) &&
    c.port < 10000
  }

  /** The slash-separated parts of a connection string. */
  function ConnParts(c: ConnInfo): seq<string> {
    [c.user + "@http:", "", c.host + ":" + PaddedDecimal(c.port, 4), c.database, c.password]
  }

  /** The connection string `user@http://host:PPPP/database/password`. */
  function ConnString(c: ConnInfo): string {
    Join(ConnParts(c), "/")
  }

  /** `pg_connection(conn_str)`: the string is cut at its slashes. It must have exactly
      five parts: `user@http:`, an empty part between the two slashes of `//`,
      `host:PPPP`, the database and the password, with every field non-empty. */
  function PgConnection(connStr: string): (r: Result<ConnInfo, ConnError>)
    ensures connStr == "" ==> r == Failure(ConnectionError)
  {
    var parts := Split(connStr, '/');
    if |parts| != 5 || parts[1] != "" then Failure(ConnectionError)
    else
      var head, hostPort := parts[0], parts[2];
      if |head| < 7 || head[|head| - 6..] != "@http:" then Failure(ConnectionError)
      else if |hostPort| < 6 || hostPort[|hostPort| - 5] != ':' || !AllDigits(hostPort[|hostPort| - 4..]) then
        Failure(ConnectionError)
      else if parts[3] == "" || parts[4] == "" then Failure(ConnectionError)
      else
        Success(ConnInfo(head[..|head| - 6], hostPort[..|hostPort| - 5], DecimalValue(hostPort[|hostPort| - 4..]),
                         parts[3], parts[4]))
  }

  lemma SlashFree(a: string, b: string)
    requires '/' !in a && '/' !in b
    ensures '/' !in a + b
  {
  }

  /** Every valid connection record, written out, is parsed back to itself. */
  lemma ParseConnString(c: ConnInfo)
    requires ValidConnInfo(c)
    ensures PgConnection(ConnString(c)) == Success(c)
  {
    var parts := ConnParts(c);
    var digits := PaddedDecimal(c.port, 4);
    assert '/' !in digits by {
      assert forall i :: 0 <= i < |digits| ==> IsDigit(digits[i]);
    }
    SlashFree(c.user, "@http:");
    SlashFree(c.host, ":");
    SlashFree(c.host + ":", digits);
    SplitJoin(parts, '/');
    var head, hostPort := parts[0], parts[2];
    assert head[..|head| - 6] == c.user && head[|head| - 6..] == "@http:";
    assert hostPort[..|hostPort| - 5] == c.host && hostPort[|hostPort| - 5] == ':';
    assert hostPort[|hostPort| - 4..] == digits;
    PaddedDecimalValue(c.port, 4);
  }

  /** Whatever is parsed is a valid record that writes back to the very string it came
      from; in particular the port is below 10000 and no field is empty or holds a
      slash. */
  lemma ConnStringOfParse(s: string)
    ensures PgConnection(s).Success? ==> ValidConnInfo(PgConnection(s).value) && ConnString(PgConnection(s).value) == s
  {
    if PgConnection(s).Success? {
      var c := PgConnection(s).value;
      var parts := Split(s, '/');
      SplitPiecesLackSep(s, '/');
      JoinSplit(s, '/');
      var head, hostPort := parts[0], parts[2];
      var digits := hostPort[|hostPort| - 4..];
      DecimalValuePadded(digits);
      assert head == c.user + "@http:";
      assert hostPort == c.host + ":" + digits;
      assert '/' !in c.user by {
        assert forall i :: 0 <= i < |c.user| ==> c.user[i] == head[i];
      }
      assert '/' !in c.host by {
        assert forall i :: 0 <= i < |c.host| ==> c.host[i] == hostPort[i];
      }
      assert parts[3] in parts && parts[4] in parts;
      assert ConnParts(c) == parts;
    }
  }

  /** A string is accepted exactly when it is a valid record written out. */
  lemma PgConnectionIff(s: string, c: ConnInfo)
    ensures PgConnection(s) == Success(c) <==> ValidConnInfo(c) && s == ConnString(c)
  {
    ConnStringOfParse(s);
    if ValidConnInfo(c) && s == ConnString(c) {
      ParseConnString(c);
    }
  }

  lemma DocPort()
    ensures PaddedDecimal(6432, 4) == "6432"
  {
    assert PaddedDecimal(6, 1) == "6";
    assert PaddedDecimal(64, 2) == "64";
    assert PaddedDecimal(643, 3) == "643";
  }

  lemma DocParts(c: ConnInfo)
    requires c == ConnInfo("db_user", "db.server.com", 6432, "db011", "my_secret")
    ensures ConnParts(c) == ["db_user@http:", "", "db.server.com:6432", "db011", "my_secret"]
  {
    DocPort();
    assert "db_user" + "@http:" == "db_user@http:";
    assert "db.server.com" + ":" + "6432" == "db.server.com:6432";
  }

  lemma DocJoinTail(parts: seq<string>)
    requires parts == ["db011", "my_secret"]
    ensures Join(parts, "/") == "db011/my_secret"
  {
    assert parts[1..] == ["my_secret"];
  }

  lemma DocJoinHost(parts: seq<string>)
    requires parts == ["db.server.com:6432", "db011", "my_secret"]
    ensures Join(parts, "/") == "db.server.com:6432/db011/my_secret"
  {
    assert parts[1..] == ["db011", "my_secret"];
    DocJoinTail(parts[1..]);
  }

  lemma DocJoinEmpty(parts: seq<string>)
    requires parts == ["", "db.server.com:6432", "db011", "my_secret"]
    ensures Join(parts, "/") == "/db.server.com:6432/db011/my_secret"
  {
    assert parts[1..] == ["db.server.com:6432", "db011", "my_secret"];
    DocJoinHost(parts[1..]);
    var rest := Join(parts[1..], "/");
    DocLeadingSlash(rest, "/db.server.com:6432/db011/my_secret");
    assert Join(parts, "/") == "" + "/" + rest == ['/'] + rest;
  }

  lemma DocLeadingSlash(rest: string, s: string)
    requires rest == "db.server.com:6432/db011/my_secret"
    requires s == "/db.server.com:6432/db011/my_secret"
    ensures ['/'] + rest == s
  {
  }

  lemma DocJoinHead(head: string, rest: string, s: string)
    requires head == "db_user@http:/" && rest == "/db.server.com:6432/db011/my_secret"
    requires s == "db_user@http://db.server.com:6432/db011/my_secret"
    ensures head + rest == s
  {
  }

  lemma DocJoin(parts: seq<string>, s: string)
    requires parts == ["db_user@http:", "", "db.server.com:6432", "db011", "my_secret"]
    requires s == "db_user@http://db.server.com:6432/db011/my_secret"
    ensures Join(parts, "/") == s
  {
    assert parts[1..] == ["", "db.server.com:6432", "db011", "my_secret"];
    DocJoinEmpty(parts[1..]);
    var rest := Join(parts[1..], "/");
    assert parts[0] + "/" == "db_user@http:/";
    DocJoinHead(parts[0] + "/", rest, s);
  }

  /** The documented connection string. */
  lemma DocConnString(c: ConnInfo)
    requires c == ConnInfo("db_user", "db.server.com", 6432, "db011", "my_secret")
    ensures ConnString(c) == "db_user@http://db.server.com:6432/db011/my_secret"
  {
    DocParts(c);
    DocJoin(ConnParts(c), "db_user@http://db.server.com:6432/db011/my_secret");
  }

  /** The documented call: `db_user@http://db.server.com:6432/db011/my_secret` gives
      the user, host, database and password, and the port 6432 as a number. */
  lemma DocConnection(c: ConnInfo)
    requires c == ConnInfo("db_user", "db.server.com", 6432, "db011", "my_secret")
    ensures PgConnection("db_user@http://db.server.com:6432/db011/my_secret") == Success(c)
  {
    DocConnString(c);
    assert ValidConnInfo(c);
    ParseConnString(c);
  }
}
