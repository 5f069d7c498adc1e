/** The run-time values the parameter compiler receives, as Python 2 sees them:
    each value's exact type, `repr` (used by `str` of a list) and the JSON text
    `json.dumps` produces for it. */
module PyValues {
  import opened Strings

  /** A decoded parameter value. `Obj` is a plain `dict` whose entries are listed in
      the dictionary's iteration order; `OrderedObj` is a `collections.OrderedDict`. */
  datatype Value =
    | Nil
    | Bool(b: bool)
    | Int(i: int)
    | Str(s: string)
    | Arr(items: seq<Value>)
    | Obj(entries: seq<(string, Value)>)
    | OrderedObj(entries: seq<(string, Value)>)

  /** The exact Python 2 classes a modelled value can have: `type(v)`. */
  datatype PyType =
    | NoneType | BoolType | IntType | LongType | StrType | UnicodeType
    | ListType | DictType | OrderedDictType

  /** Bounds of a Python 2 `int` on a 64-bit build (`-sys.maxint - 1 .. sys.maxint`);
      integers beyond them are `long`. */
  const MIN_INT: int := -0x8000_0000_0000_0000
  const MAX_INT: int := 0x7fff_ffff_ffff_ffff

  /** `type(v)`: decoded text is a byte string when it is pure ASCII and `unicode`
      otherwise; a whole number is an `int` when it fits the machine word. */
  function TypeOf(v: Value): PyType {
    match v
    case Nil => NoneType
    case Bool(_) => BoolType
    case Int(i) => if MIN_INT <= i <= MAX_INT then IntType else LongType
    case Str(s) => if IsAscii(s) then StrType else UnicodeType
    case Arr(_) => ListType
    case Obj(_) => DictType
    case OrderedObj(_) => OrderedDictType
  }

  /** The classes an object of exact type `t` is an instance of, among the modelled
      ones: `bool` derives from `int` and `OrderedDict` from `dict`. */
  function Bases(t: PyType): (r: set<PyType>)
    ensures t in r
  {
    match t
    case BoolType => {BoolType, IntType}
    case OrderedDictType => {OrderedDictType, DictType}
    case _ => {t}
  }

  /** `isinstance(v, types)` */
  predicate IsInstance(v: Value, types: set<PyType>) {
    Bases(TypeOf(v)) * types != {}
  }

  // ---------------------------------------------------------------------------
  // repr

  /** The quote `repr` puts around text: a double quote only when the text holds a
      single quote and no double quote. */
  function QuoteFor(s: string): char {
    if '\'' in s && '"' !in s then '"' else '\''
  }

  /** How `repr` writes one character of text quoted with `q`. */
  function ReprChar(c: char, q: char): (r: string)
    requires q == '\'' || q == '"'
    ensures |r| > 0
  {
    if c == q || c == '\\' then ['\\', c]
    else if c as int >= 0x10000 then "\\U" + HexDigits(c as int, 8)
    else if c as int >= 0x100 then "\\u" + HexDigits(c as int, 4)
    else if c == '\t' then "\\t"
    else if c == '\n' then "\\n"
    else if c == '\r' then "\\r"
    else if c as int < 0x20 || c as int >= 0x7f then "\\x" + HexDigits(c as int, 2)
    else [c]
  }

  function ReprChars(s: string, q: char): (r: string)
    requires q == '\'' || q == '"'
  {
    if s == [] then "" else ReprChar(s[0], q) + ReprChars(s[1..], q)
  }

  /** `repr` of text: `u` before a unicode string, then the quoted, escaped characters. */
  function ReprText(s: string): (r: string)
  {
    var q := QuoteFor(s);
    (if IsAscii(s) then "" else "u") + [q] + ReprChars(s, q) + [q]
  }

  /** `repr(v)`. */
  function Repr(v: Value): (r: string)
  {
    match v
    case Nil => "None"
    case Bool(b) => if b then "True" else "False"
    case Int(i) => IntToDecimal(i) + (if TypeOf(v) == LongType then "L" else "")
    case Str(s) => ReprText(s)
    case Arr(items) => "[" + ReprItems(items) + "]"
    case Obj(es) => "{" + ReprEntries(es) + "}"
    case OrderedObj(es) => if es == [] then "OrderedDict()" else "OrderedDict([" + ReprPairs(es) + "])"
  }

  /** The list items' `repr`s joined with `, `. */
  function ReprItems(items: seq<Value>): (r: string)
  {
    if |items| == 0 then ""
    else if |items| == 1 then Repr(items[0])
    else Repr(items[0]) + ", " + ReprItems(items[1..])
  }

  function ReprEntry(e: (string, Value)): (r: string)
  {
    ReprText(e.0) + ": " + Repr(e.1)
  }

  /** A dict's `key: value` pairs joined with `, `. */
  function ReprEntries(es: seq<(string, Value)>): (r: string)
  {
    if |es| == 0 then ""
    else if |es| == 1 then ReprEntry(es[0])
    else ReprEntry(es[0]) + ", " + ReprEntries(es[1..])
  }

  function ReprPair(e: (string, Value)): (r: string)
  {
    "(" + ReprText(e.0) + ", " + Repr(e.1) + ")"
  }

  /** An OrderedDict's items as the `repr` of a list of `(key, value)` tuples. */
  function ReprPairs(es: seq<(string, Value)>): (r: string)
  {
    if |es| == 0 then ""
    else if |es| == 1 then ReprPair(es[0])
    else ReprPair(es[0]) + ", " + ReprPairs(es[1..])
  }

  /** Text whose `repr` is just the text between single quotes: printable ASCII with
      no single quote and no backslash. */
  predicate IsPlainText(s: string) {
    forall i :: 0 <= i < |s| ==> 0x20 <= s[i] as int < 0x7f && s[i] != '\'' && s[i] != '\\'
  }

  lemma {:induction false} ReprCharsPlain(s: string)
    requires IsPlainText(s)
    ensures ReprChars(s, '\'') == s
  {
    if s != [] {
      ReprCharsPlain(s[1..]);
      assert s == [s[0]] + s[1..];
    }
  }

  /** Plain text is written as itself between single quotes. */
  lemma ReprPlainText(s: string)
    requires IsPlainText(s)
    ensures ReprText(s) == "'" + s + "'"
  {
    ReprCharsPlain(s);
  }

  // ---------------------------------------------------------------------------
  // json.dumps, with its default settings: `, ` and `: ` separators and every
  // character outside printable ASCII escaped.

  function JsonChar(c: char): (r: string)
    ensures |r| > 0
  {
    if c == '\\' then "\\\\"
    else if c == '"' then "\\\""
    else if c == '\n' then "\\n"
    else if c == '\r' then "\\r"
    else if c == '\t' then "\\t"
    else if c as int == 0x08 then "\\b"
    else if c as int == 0x0c then "\\f"
    else if 0x20 <= c as int < 0x7f then [c]
    else if c as int < 0x10000 then "\\u" + HexDigits(c as int, 4)
    else
      var n := c as int - 0x10000;
      "\\u" + HexDigits(0xd800 + n / 0x400, 4) + "\\u" + HexDigits(0xdc00 + n % 0x400, 4)
  }

  function JsonChars(s: string): (r: string)
  {
    if s == [] then "" else JsonChar(s[0]) + JsonChars(s[1..])
  }

  /** A JSON string literal. */
  function JsonString(s: string): (r: string)
  {
    "\"" + JsonChars(s) + "\""
  }

  /** `json.dumps(v)` with the default settings. */
  function Dumps(v: Value): (r: string)
  {
    match v
    case Nil => "null"
    case Bool(b) => if b then "true" else "false"
    case Int(i) => IntToDecimal(i)
    case Str(s) => JsonString(s)
    case Arr(items) => "[" + DumpsItems(items) + "]"
    case Obj(es) => "{" + DumpsEntries(es) + "}"
    case OrderedObj(es) => "{" + DumpsEntries(es) + "}"
  }

  function DumpsItems(items: seq<Value>): (r: string)
  {
    if |items| == 0 then ""
    else if |items| == 1 then Dumps(items[0])
    else Dumps(items[0]) + ", " + DumpsItems(items[1..])
  }

  function DumpsEntry(e: (string, Value)): (r: string)
  {
    JsonString(e.0) + ": " + Dumps(e.1)
  }

  function DumpsEntries(es: seq<(string, Value)>): (r: string)
  {
    if |es| == 0 then ""
    else if |es| == 1 then DumpsEntry(es[0])
    else DumpsEntry(es[0]) + ", " + DumpsEntries(es[1..])
  }
}
