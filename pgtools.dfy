/** The SQL invocation compiler: each parameter value is dispatched on its exact type
    to a formatter class, which checks the value and renders it as a PostgreSQL
    literal; the literals become the argument list of `SELECT * FROM schema.action(...)`. */
module PgTools {
  import opened Wrappers
  import opened Strings
  import opened PyValues

  /** The formatter classes. */
  datatype ArgClass = NumArg | TextArg | BooleanArg | ArrayArg | JSONArg

  /** Each class's `param_type`: the classes `validate` accepts an instance of. */
  function ParamTypes(c: ArgClass): set<PyType> {
    match c
    case NumArg => {IntType}
    case TextArg => {StrType, UnicodeType}
    case BooleanArg => {BoolType}
    case ArrayArg => {ListType}
    case JSONArg => {DictType}
  }

  /** Whether the class's `formatter` template is `'{}'` rather than `{}`. */
  predicate IsQuoted(c: ArgClass) {
    c == TextArg || c == ArrayArg || c == JSONArg
  }

  /** The dispatch table from a value's exact type to its formatter class. */
  const FUNC_TYPES: map<PyType, ArgClass> :=
    map[IntType := NumArg, StrType := TextArg, UnicodeType := TextArg, DictType := JSONArg,
        BoolType := BooleanArg, ListType := ArrayArg]

  /** What compiling a parameter can raise: the dispatch table has no entry for the
      value's type, `validate` rejects the value, or a byte-string template is filled
      with non-ASCII unicode text. */
  datatype CompileError =
    | KeyError(key: PyType)
    | FunctionParamError(expected: ArgClass)
    | UnicodeEncodeError

  /** Python's `s[1:-1]`. */
  function Inner(s: string): string {
    if |s| >= 2 then s[1..|s| - 1] else ""
  }

  /** `.replace("u'", "").replace("'", "")` */
  function StripQuotes(s: string): string {
    Replace(Replace(s, "u'", ""), "'", "")
  }

  /** `ArrayArg.format`: the list's `str` without its brackets, stripped of quotes,
      between braces. */
  function ArrayBody(items: seq<Value>): string {
    "{" + StripQuotes(Inner(Repr(Arr(items)))) + "}"
  }

  /** `self.format()` of a value `validate` accepted, converted to the byte string that
      fills the class's template. Only non-ASCII text cannot be converted. */
  function Format(c: ArgClass, v: Value): (r: Result<string, CompileError>)
    requires IsInstance(v, ParamTypes(c))
    ensures r.Failure? <==> c == TextArg && TypeOf(v) == UnicodeType
    ensures r.Failure? ==> r.error == UnicodeEncodeError
  {
    match c
    case NumArg => Success(if v.Bool? then (if v.b then "True" else "False") else IntToDecimal(v.i))
    case TextArg => if IsAscii(v.s) then Success(v.s) else Failure(UnicodeEncodeError)
    case BooleanArg => Success(if v.b then "TRUE" else "FALSE")
    case ArrayArg => Success(ArrayBody(v.items))
    case JSONArg => Success(Dumps(v))
  }

  /** `validate`: the `isinstance` check against `param_type`, then the template. */
  function Validate(c: ArgClass, v: Value): (r: Result<string, CompileError>)
    ensures !IsInstance(v, ParamTypes(c)) ==> r == Failure(FunctionParamError(c))
    ensures IsInstance(v, ParamTypes(c)) && r.Failure? ==> r.error == UnicodeEncodeError
    ensures r.Success? <==> IsInstance(v, ParamTypes(c)) && !(c == TextArg && TypeOf(v) == UnicodeType)
    ensures r.Success? && IsQuoted(c) ==> |r.value| >= 2 && r.value[0] == '\'' && r.value[|r.value| - 1] == '\''
  {
    if !IsInstance(v, ParamTypes(c)) then Failure(FunctionParamError(c))
    else
      var body :- Format(c, v);
      Success(if IsQuoted(c) then "'" + body + "'" else body)
  }

  /** Every type the dispatch table knows is accepted by the class it maps to. */
  lemma FuncTypesMatchParamTypes()
    ensures forall t :: t in FUNC_TYPES ==> t in ParamTypes(FUNC_TYPES[t])
  {
  }

  /** `FUNC_TYPES[type(val)](val).validate()`. It fails only with `KeyError` for a type
      the table lacks or with `UnicodeEncodeError` for non-ASCII text: the
      `isinstance` check never rejects a value that reached it through the table. */
  function CompileParam(v: Value): (r: Result<string, CompileError>)
    ensures r.Success? <==> TypeOf(v) in FUNC_TYPES && TypeOf(v) != UnicodeType
    ensures r.Failure? ==> r.error == if TypeOf(v) in FUNC_TYPES then UnicodeEncodeError else KeyError(TypeOf(v))
  {
    var t := TypeOf(v);
    if t !in FUNC_TYPES then Failure(KeyError(t))
    else
      FuncTypesMatchParamTypes();
      assert t in Bases(t) * ParamTypes(FUNC_TYPES[t]);
      Validate(FUNC_TYPES[t], v)
  }

  /** The list comprehension over the parameters: literals in input order, or the
      error of the first parameter that cannot be compiled. */
  function CompileParams(ps: seq<Value>): (r: Result<seq<string>, CompileError>)
    ensures r.Success? <==> forall i :: 0 <= i < |ps| ==> CompileParam(ps[i]).Success?
    ensures r.Success? ==> |r.value| == |ps| && forall i :: 0 <= i < |ps| ==> CompileParam(ps[i]) == Success(r.value[i])
    ensures r.Failure? ==> exists i :: 0 <= i < |ps| && CompileParam(ps[i]) == Failure(r.error) &&
                                       forall j :: 0 <= j < i ==> CompileParam(ps[j]).Success?
  {
    if ps == [] then Success([])
    else
      var head :- CompileParam(ps[0]);
      var tail :- CompileParams(ps[1..]);
      Success([head] + tail)
  }

  function SelectPrefix(schema: string, action: string): string {
    "SELECT * FROM " + schema + "." + action
  }

  /** `api_compiler(schema, action, params)`. Without parameters the query names the
      view or function bare; otherwise the literals follow in parentheses. */
  function ApiCompiler(schema: string, action: string, params: Option<seq<Value>>): (r: Result<string, CompileError>)
    ensures params.None? || params.value == [] ==> r == Success("SELECT * FROM " + schema + "." + action)
    ensures r.Success? ==> "SELECT * FROM " + schema + "." + action <= r.value
    ensures r.Failure? <==> params.Some? && exists i :: 0 <= i < |params.value| && CompileParam(params.value[i]).Failure?
  {
    var sql := SelectPrefix(schema, action);
    if params.None? || params.value == [] then Success(sql)
    else
      var literals :- CompileParams(params.value);
      Success(sql + "(" + Join(literals, ", ") + ")")
  }

  /** With parameters, the query is the prefix and the parameters' literals joined by
      `, ` in input order, in parentheses. */
  lemma CompileJoinsLiterals(schema: string, action: string, ps: seq<Value>, literals: seq<string>)
    requires |ps| > 0 && |literals| == |ps|
    requires forall i :: 0 <= i < |ps| ==> CompileParam(ps[i]) == Success(literals[i])
    ensures ApiCompiler(schema, action, Some(ps)) ==
            Success("SELECT * FROM " + schema + "." + action + "(" + Join(literals, ", ") + ")")
  {
    var r := CompileParams(ps);
    assert r.Success?;
    assert r.value == literals;
  }

  /** The first parameter that cannot be compiled decides the error, and no query text
      is produced. */
  lemma CompileFailsAtFirstBadParam(schema: string, action: string, ps: seq<Value>, i: nat)
    requires i < |ps| && CompileParam(ps[i]).Failure?
    requires forall j :: 0 <= j < i ==> CompileParam(ps[j]).Success?
    ensures ApiCompiler(schema, action, Some(ps)) == Failure(CompileParam(ps[i]).error)
  {
    var r := CompileParams(ps);
    assert r.Failure?;
    var k :| 0 <= k < |ps| && CompileParam(ps[k]) == Failure(r.error) &&
             forall j :: 0 <= j < k ==> CompileParam(ps[j]).Success?;
    assert k == i;
  }

  /** The literal each scalar kind renders as. Integers are bare decimal text, booleans
      the keywords `TRUE`/`FALSE` (never the numeric rule), ASCII text sits between
      single quotes unchanged, and non-ASCII text cannot fill the byte-string template. */
  lemma ScalarLiterals(v: Value)
    ensures v.Int? && MIN_INT <= v.i <= MAX_INT ==> CompileParam(v) == Success(IntToDecimal(v.i))
    ensures v.Bool? ==> CompileParam(v) == Success(if v.b then "TRUE" else "FALSE")
    ensures v.Str? && IsAscii(v.s) ==> CompileParam(v) == Success("'" + v.s + "'")
    ensures v.Str? && !IsAscii(v.s) ==> CompileParam(v) == Failure(UnicodeEncodeError)
  {
  }

  /** None, longs and OrderedDicts have no entry in the dispatch table. */
  lemma UnmappedTypes(v: Value)
    ensures v.Int? && !(MIN_INT <= v.i <= MAX_INT) ==> CompileParam(v) == Failure(KeyError(LongType))
    ensures v.Nil? ==> CompileParam(v) == Failure(KeyError(NoneType))
    ensures v.OrderedObj? ==> CompileParam(v) == Failure(KeyError(OrderedDictType))
  {
  }

  // ---------------------------------------------------------------------------
  // Arrays

  /** An array item whose `repr` the quote stripping leaves readable: a number, a
      boolean, or plain text. */
  predicate IsScalarItem(v: Value) {
    v.Int? || v.Bool? || (v.Str? && IsPlainText(v.s))
  }

  /** What a scalar item contributes to an array literal. Text loses its quotes, and
      text ending in `u` also loses that `u`: it and the closing quote form `u'`. */
  function ItemText(v: Value): string
    requires IsScalarItem(v)
  {
    match v
    case Int(i) => Repr(v)
    case Bool(b) => if b then "True" else "False"
    case Str(s) => if |s| > 0 && s[|s| - 1] == 'u' then s[..|s| - 1] else s
  }

  function ItemTexts(items: seq<Value>): (r: seq<string>)
    requires forall i :: 0 <= i < |items| ==> IsScalarItem(items[i])
    ensures |r| == |items|
  {
    if items == [] then [] else [ItemText(items[0])] + ItemTexts(items[1..])
  }

  lemma StripQuotesAbsent(s: string)
    requires '\'' !in s
    ensures StripQuotes(s) == s
  {
    ReplaceAbsent(s, "u'", "");
    ReplaceAbsent(s, "'", "");
  }

  /** Stripping quotes works piecewise across a cut that does not split a `u'`. */
  lemma StripQuotesConcat(x: string, y: string)
    requires !(|x| > 0 && |y| > 0 && x[|x| - 1] == 'u' && y[0] == '\'')
    ensures StripQuotes(x + y) == StripQuotes(x) + StripQuotes(y)
  {
    ReplacePairConcat(x, y, "u'", "");
    ReplaceCharConcat(Replace(x, "u'", ""), Replace(y, "u'", ""), "'", "");
  }

  lemma DecimalHasNoQuote(i: int)
    ensures '\'' !in IntToDecimal(i) && |IntToDecimal(i)| > 0
    ensures IntToDecimal(i)[|IntToDecimal(i)| - 1] != 'u'
  {
    var d := NatToDecimal(if i < 0 then -i else i);
    assert IntToDecimal(i) == (if i < 0 then "-" else "") + d;
    assert forall k :: 0 <= k < |d| ==> IsDigit(d[k]);
  }

  lemma StripNumberItem(v: Value)
    requires v.Int?
    ensures StripQuotes(Repr(v)) == Repr(v)
    ensures |Repr(v)| > 0 && Repr(v)[|Repr(v)| - 1] != 'u'
  {
    DecimalHasNoQuote(v.i);
    var d := IntToDecimal(v.i);
    var r := d + (if TypeOf(v) == LongType then "L" else "");
    assert Repr(v) == r;
    assert '\'' !in r by {
      assert forall k :: 0 <= k < |r| ==> (k < |d| ==> r[k] == d[k]) && (k >= |d| ==> r[k] == 'L');
    }
    StripQuotesAbsent(r);
  }

  /** The stripped forms of the quote marks themselves and of the item separator. */
  lemma StripMarks()
    ensures StripQuotes("'") == "" && StripQuotes("u'") == "" && StripQuotes(", ") == ", "
  {
    StripQuotesAbsent(", ");
  }

  /** Text without quotes followed by the closing quote of its `repr`: the quote goes,
      and so does a final `u`, which the quote turns into `u'`. */
  lemma StripClosedText(s: string)
    requires '\'' !in s
    ensures StripQuotes(s + "'") == if |s| > 0 && s[|s| - 1] == 'u' then s[..|s| - 1] else s
  {
    StripMarks();
    if |s| > 0 && s[|s| - 1] == 'u' {
      var t := s[..|s| - 1];
      assert s + "'" == t + "u'";
      assert '\'' !in t by {
        assert forall k :: 0 <= k < |t| ==> t[k] == s[k];
      }
      StripQuotesConcat(t, "u'");
      StripQuotesAbsent(t);
    } else {
      StripQuotesConcat(s, "'");
      StripQuotesAbsent(s);
    }
  }

  lemma StripTextItem(s: string)
    requires IsPlainText(s)
    ensures StripQuotes(Repr(Str(s))) == ItemText(Str(s))
    ensures Repr(Str(s)) == "'" + s + "'"
  {
    ReprPlainText(s);
    ConcatAssoc("'", s, "'");
    StripQuotesConcat("'", s + "'");
    StripMarks();
    assert '\'' !in s by {
      assert forall k :: 0 <= k < |s| ==> s[k] != '\'';
    }
    StripClosedText(s);
  }

  /** One item's `repr`, once stripped, is its item text; it does not end in `u`, so
      it can be cut out of the joined list. */
  lemma StripItem(v: Value)
    requires IsScalarItem(v)
    ensures StripQuotes(Repr(v)) == ItemText(v)
    ensures |Repr(v)| > 0 && Repr(v)[|Repr(v)| - 1] != 'u'
  {
    if v.Int? {
      StripNumberItem(v);
    } else if v.Bool? {
      StripQuotesAbsent(if v.b then "True" else "False");
    } else {
      StripTextItem(v.s);
    }
  }

  lemma {:induction false} StripItems(items: seq<Value>)
    requires forall i :: 0 <= i < |items| ==> IsScalarItem(items[i])
    ensures StripQuotes(ReprItems(items)) == Join(ItemTexts(items), ", ")
  {
    if |items| == 1 {
      StripItem(items[0]);
    } else if |items| > 1 {
      var head, rest := Repr(items[0]), ReprItems(items[1..]);
      var text, texts := ItemText(items[0]), Join(ItemTexts(items[1..]), ", ");
      assert ReprItems(items) == head + (", " + rest) by {
        ConcatAssoc(head, ", ", rest);
      }
      assert StripQuotes(head + (", " + rest)) == text + StripQuotes(", " + rest) by {
        StripItem(items[0]);
        StripQuotesConcat(head, ", " + rest);
      }
      assert StripQuotes(", " + rest) == ", " + texts by {
        StripQuotesConcat(", ", rest);
        StripMarks();
        StripItems(items[1..]);
      }
      assert Join(ItemTexts(items), ", ") == text + (", " + texts) by {
        var all := ItemTexts(items);
        assert all[0] == text && all[1..] == ItemTexts(items[1..]);
        ConcatAssoc(text, ", ", texts);
      }
    }
  }

  /** A list always reaches `ArrayArg`; its braced body is rendered between single quotes. */
  lemma CompileArray(items: seq<Value>, text: string)
    requires ArrayBody(items) == "{" + text + "}"
    ensures CompileParam(Arr(items)) == Success("'{" + text + "}'")
  {
    assert "'" + ("{" + text + "}") + "'" == "'{" + text + "}'";
  }

  /** The list's `str` without its brackets is its items' `repr`s joined by `, `. */
  lemma ArrayBodyOfScalars(items: seq<Value>)
    requires forall i :: 0 <= i < |items| ==> IsScalarItem(items[i])
    ensures ArrayBody(items) == "{" + Join(ItemTexts(items), ", ") + "}"
  {
    var inner := ReprItems(items);
    assert Repr(Arr(items)) == "[" + inner + "]";
    assert Inner("[" + inner + "]") == inner;
    StripItems(items);
  }

  /** An array of numbers, booleans and plain text renders as `'{...}'` holding the
      item texts joined by `, `: quotes vanish, and so does a `u` that ends a text. */
  lemma ArrayLiteral(items: seq<Value>)
    requires forall i :: 0 <= i < |items| ==> IsScalarItem(items[i])
    ensures CompileParam(Arr(items)) == Success("'{" + Join(ItemTexts(items), ", ") + "}'")
  {
    ArrayBodyOfScalars(items);
    CompileArray(items, Join(ItemTexts(items), ", "));
  }

  // ---------------------------------------------------------------------------
  // Quoting

  /** Reads the body of a standard SQL string constant after its opening quote: a
      doubled quote stands for one quote and a lone quote ends the constant. Gives the
      characters denoted and how many were consumed, closing quote included. */
  function ReadQuotedBody(t: string): (r: Option<(string, nat)>)
    ensures r.Some? ==> |r.value.0| < r.value.1 <= |t|
    decreases |t|
  {
    if t == [] then None
    else if t[0] != '\'' then
      match ReadQuotedBody(t[1..])
      case None => None
      case Some((s, n)) => Some(([t[0]] + s, n + 1))
    else if |t| > 1 && t[1] == '\'' then
      match ReadQuotedBody(t[2..])
      case None => None
      case Some((s, n)) => Some(("'" + s, n + 2))
    else Some(("", 1))
  }

  /** Reads a SQL string constant at the start of `t`. */
  function ReadSqlString(t: string): (r: Option<(string, nat)>)
    ensures r.Some? ==> r.value.1 <= |t|
  {
    if t == [] || t[0] != '\'' then None
    else
      match ReadQuotedBody(t[1..])
      case None => None
      case Some((s, n)) => Some((s, n + 1))
  }

  /** Text put between single quotes without doubling its quotes reads back as one
      whole SQL constant denoting that text exactly when it holds no single quote. */
  lemma {:induction false} QuotedBodyReadsBack(b: string)
    ensures ReadQuotedBody(b + "'") == Some((b, |b| + 1)) <==> '\'' !in b
  {
    var t := b + "'";
    if b == [] {
      assert t == "'";
    } else if b[0] != '\'' {
      QuotedBodyReadsBack(b[1..]);
      assert t[1..] == b[1..] + "'";
      assert b == [b[0]] + b[1..];
      assert '\'' in b <==> '\'' in b[1..];
    } else if |b| > 1 && b[1] == '\'' {
      assert t[2..] == b[2..] + "'";
    } else {
      assert t[0] == '\'';
    }
  }

  /** Text put between single quotes as it is reads back, as one whole SQL constant, as
      that text exactly when it holds no single quote. */
  lemma SqlStringReadsBack(b: string)
    ensures ReadSqlString("'" + b + "'") == Some((b, |b| + 2)) <==> '\'' !in b
  {
    QuotedBodyReadsBack(b);
    assert ("'" + b + "'")[1..] == b + "'";
  }

  /** Text renders unescaped: its literal reads back as the same text exactly when the
      text has no single quote; otherwise the constant ends early or means other text. */
  lemma TextLiteralReadsBack(s: string)
    requires IsAscii(s)
    ensures CompileParam(Str(s)) == Success("'" + s + "'")
    ensures ReadSqlString("'" + s + "'") == Some((s, |s| + 2)) <==> '\'' !in s
  {
    ScalarLiterals(Str(s));
    SqlStringReadsBack(s);
  }

  /** A dictionary always reaches `JSONArg`; its JSON text is rendered between single
      quotes. */
  lemma CompileDict(es: seq<(string, Value)>, text: string)
    requires Dumps(Obj(es)) == text
    ensures CompileParam(Obj(es)) == Success("'" + text + "'")
  {
  }

  /** A dictionary's JSON text is not escaped either: a single quote inside one of its
      strings breaks the literal the same way. */
  lemma JsonLiteralReadsBack(es: seq<(string, Value)>, text: string)
    requires Dumps(Obj(es)) == text
    ensures CompileParam(Obj(es)) == Success("'" + text + "'")
    ensures ReadSqlString("'" + text + "'") == Some((text, |text| + 2)) <==> '\'' !in text
  {
    CompileDict(es, text);
    SqlStringReadsBack(text);
  }

  /** A constant ends at the first quote that is not doubled: whatever follows it is
      no longer part of the constant. */
  lemma {:induction false} QuotedBodyEndsAtLoneQuote(x: string, y: string)
    requires '\'' !in x && (y == [] || y[0] != '\'')
    ensures ReadQuotedBody(x + "'" + y) == Some((x, |x| + 1))
  {
    var t := x + "'" + y;
    if x == [] {
      assert t == "'" + y;
      if y != [] {
        assert t[1] == y[0];
      }
    } else {
      assert t[0] == x[0];
      assert t[1..] == x[1..] + "'" + y;
      assert x == [x[0]] + x[1..];
      QuotedBodyEndsAtLoneQuote(x[1..], y);
    }
  }

  lemma SqlStringEndsAtLoneQuote(x: string, y: string)
    requires '\'' !in x && (y == [] || y[0] != '\'')
    ensures ReadSqlString("'" + x + "'" + y) == Some((x, |x| + 2))
  {
    assert ("'" + x + "'" + y)[1..] == x + "'" + y;
    QuotedBodyEndsAtLoneQuote(x, y);
  }

  /** `O'Brien` renders as `'O'Brien'`: the SQL constant is just `O`, closed after
      three characters, and `Brien'` is left over as query text. */
  lemma UnescapedQuoteExample()
    ensures CompileParam(Str("O'Brien")) == Success("'O'Brien'")
    ensures ReadSqlString("'O'Brien'") == Some(("O", 3))
  {
    assert "'" + "O'Brien" + "'" == "'O'Brien'";
    assert "'" + "O" + "'" + "Brien'" == "'O'Brien'";
    assert CompileParam(Str("O'Brien")) == Success("'" + "O'Brien" + "'") by {
      assert IsAscii("O'Brien");
      ScalarLiterals(Str("O'Brien"));
    }
    SqlStringEndsAtLoneQuote("O", "Brien'");
  }

  // ---------------------------------------------------------------------------
  // The documented examples

  /** Plain text that does not end in `u` contributes itself to an array literal. */
  lemma PlainTextItem(s: string)
    requires IsPlainText(s) && (s == [] || s[|s| - 1] != 'u')
    ensures IsScalarItem(Str(s)) && ItemText(Str(s)) == s
  {
  }

  lemma ItemTextsCons(v: Value, rest: seq<Value>)
    requires IsScalarItem(v) && forall i :: 0 <= i < |rest| ==> IsScalarItem(rest[i])
    ensures forall i :: 0 <= i < |[v] + rest| ==> IsScalarItem(([v] + rest)[i])
    ensures ItemTexts([v] + rest) == [ItemText(v)] + ItemTexts(rest)
  {
    assert ([v] + rest)[1..] == rest;
  }

  /** The items of the documented example's array are plain text and keep their text. */
  lemma DocExampleItems(items: seq<Value>)
    requires items == [Str("a"), Str("b"), Str("c")]
    ensures forall i :: 0 <= i < |items| ==> IsScalarItem(items[i])
    ensures ItemTexts(items) == ["a", "b", "c"]
  {
    PlainTextItem("a");
    PlainTextItem("b");
    PlainTextItem("c");
    ItemTextsCons(Str("c"), []);
    assert [Str("c")] + [] == [Str("c")] && ["c"] + [] == ["c"];
    ItemTextsCons(Str("b"), [Str("c")]);
    assert [Str("b")] + [Str("c")] == [Str("b"), Str("c")] && ["b"] + ["c"] == ["b", "c"];
    ItemTextsCons(Str("a"), [Str("b"), Str("c")]);
    assert [Str("a")] + [Str("b"), Str("c")] == items && ["a"] + ["b", "c"] == ["a", "b", "c"];
  }

  /** The array of the documented example renders as `'{a, b, c}'`. */
  lemma DocExampleArray(items: seq<Value>)
    requires items == [Str("a"), Str("b"), Str("c")]
    ensures CompileParam(Arr(items)) == Success("'{a, b, c}'")
  {
    assert "'{" + "a, b, c" + "}'" == "'{a, b, c}'";
    assert Join(["a", "b", "c"], ", ") == "a, b, c" by {
      assert ["a", "b", "c"][1..] == ["b", "c"];
      assert ["b", "c"][1..] == ["c"];
    }
    DocExampleItems(items);
    ArrayLiteral(items);
  }

  /** The parameters of the documented call compile to `1`, `'{a, b, c}'` and `TRUE`. */
  lemma DocExampleLiterals(ps: seq<Value>, literals: seq<string>)
    requires ps == [Int(1), Arr([Str("a"), Str("b"), Str("c")]), Bool(true)]
    requires literals == ["1", "'{a, b, c}'", "TRUE"]
    ensures forall i :: 0 <= i < |ps| ==> CompileParam(ps[i]) == Success(literals[i])
  {
    assert ps[0] == Int(1) && ps[1] == Arr([Str("a"), Str("b"), Str("c")]) && ps[2] == Bool(true);
    assert literals[0] == "1" && literals[1] == "'{a, b, c}'" && literals[2] == "TRUE";
    assert IntToDecimal(1) == "1";
    ScalarLiterals(ps[0]);
    DocExampleArray(ps[1].items);
    ScalarLiterals(ps[2]);
  }

  /** The documented call's literals, joined by `, `. */
  lemma DocExampleJoin(literals: seq<string>)
    requires literals == ["1", "'{a, b, c}'", "TRUE"]
    ensures Join(literals, ", ") == "1, '{a, b, c}', TRUE"
  {
    assert literals[1..][1..] == ["TRUE"];
    assert Join(literals[1..][1..], ", ") == "TRUE";
    assert literals[1..] == ["'{a, b, c}'", "TRUE"];
    assert Join(literals[1..], ", ") == "'{a, b, c}', TRUE";
  }

  /** The documented call's literals, joined into its query text. */
  lemma DocExampleQueryText(literals: seq<string>)
    requires literals == ["1", "'{a, b, c}'", "TRUE"]
    ensures "SELECT * FROM " + "cms" + "." + "migrate" + "(" + Join(literals, ", ") + ")"
         == "SELECT * FROM cms.migrate(1, '{a, b, c}', TRUE)"
  {
    DocExampleJoin(literals);
    DocExamplePrefix("SELECT * FROM " + "cms" + "." + "migrate" + "(");
    DocExampleCall("SELECT * FROM cms.migrate(", Join(literals, ", ") + ")");
    ConcatAssoc("SELECT * FROM " + "cms" + "." + "migrate" + "(", Join(literals, ", "), ")");
  }

  lemma DocExamplePrefix(prefix: string)
    requires prefix == "SELECT * FROM " + "cms" + "." + "migrate" + "("
    ensures prefix == "SELECT * FROM cms.migrate("
  {
  }

  lemma DocExampleCall(prefix: string, args: string)
    requires prefix == "SELECT * FROM cms.migrate(" && args == "1, '{a, b, c}', TRUE)"
    ensures prefix + args == "SELECT * FROM cms.migrate(1, '{a, b, c}', TRUE)"
  {
  }

  /** The documented call `api_compiler('cms', 'migrate', [1, ['a', 'b', 'c'], True])`. */
  lemma DocExampleWithParams(ps: seq<Value>)
    requires ps == [Int(1), Arr([Str("a"), Str("b"), Str("c")]), Bool(true)]
    ensures ApiCompiler("cms", "migrate", Some(ps)) == Success("SELECT * FROM cms.migrate(1, '{a, b, c}', TRUE)")
  {
    var literals := ["1", "'{a, b, c}'", "TRUE"];
    DocExampleQueryText(literals);
    DocExampleLiterals(ps, literals);
    CompileJoinsLiterals("cms", "migrate", ps, literals);
  }

  lemma DocExampleWithoutParams()
    ensures ApiCompiler("cms", "log_view", None) == Success("SELECT * FROM cms.log_view")
  {
    var r := ApiCompiler("cms", "log_view", None);
    assert r == Success("SELECT * FROM " + "cms" + "." + "log_view");
    assert "SELECT * FROM " + "cms" + "." + "log_view" == "SELECT * FROM cms.log_view";
  }

  /** A text item ending in `u` loses that `u` inside an array literal. */
  lemma TrailingUExample()
    ensures CompileParam(Arr([Str("menu"), Str("ok")])) == Success("'{men, ok}'")
  {
    assert "'{" + "men, ok" + "}'" == "'{men, ok}'";
    var items := [Str("menu"), Str("ok")];
    assert IsScalarItem(items[0]) && IsScalarItem(items[1]) by {
      assert IsPlainText("menu") && IsPlainText("ok");
    }
    assert ItemTexts(items) == ["men", "ok"] by {
      assert "menu"[..3] == "men";
      assert items[1..] == [Str("ok")];
    }
    assert Join(["men", "ok"], ", ") == "men, ok" by {
      assert ["men", "ok"][1..] == ["ok"];
    }
    ArrayLiteral(items);
  }
}
