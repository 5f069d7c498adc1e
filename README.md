# dbapi-viewer core, modelled in Dafny

dbapi-viewer publishes the functions (UDFs) and views of a PostgreSQL database as
HTTP endpoints. This project models the three pieces of it that have behaviour
worth stating, and proves properties of them.

- **The SQL invocation compiler** (`pgtools.dfy`, module `PgTools`).
  `api_compiler(schema, action, params)` builds `SELECT * FROM schema.action(...)`.
  It dispatches each parameter on its exact Python 2 type through `FUNC_TYPES`.
  The formatter classes (`NumArg`, `TextArg`, `BooleanArg`, `ArrayArg`, `JSONArg`)
  then check the value and render it as a PostgreSQL literal. The parameter values,
  with their exact types, `repr` and `json.dumps` text, are in `values.dfy`
  (module `PyValues`).
- **Request decoding and the index page data** (`api.dfy`, module `Api`).
  `request_to_params` decodes the request's JSON object with an `OrderedDict` hook
  and returns its values. `index_handler` groups the catalog records
  into one entry per namespace, each listing its UDFs and its views. It is a method
  whose loop appends to the `namespaces` list.
- **URI templates and connection strings** (`deploy.dfy`, module `Deploy`).
  `uri_to_regex` turns a route template with `{name}` / `{name:expr}` placeholders
  into an anchored regular expression. It is a method with the source's
  accumulator loop. `pg_connection` parses
  `user@http://host:PPPP/database/password`.

`strings.dfy` (module `Strings`) holds the text utilities these need:
- `join` and split;
- `str.replace`;
- decimal numerals.

`wrappers.dfy` holds `Option` and `Result`.

Points where the code and its documentation part ways follow the code:
- The module docstring of `api.py` shows the query in lower case (`select * from`).
  The code emits `SELECT * FROM`.
- The docstring describes turning a request object into a call. A request whose
  object has a nested object as a value is decoded to an `OrderedDict`. Its exact
  type is no key of `FUNC_TYPES`, so compiling it raises `KeyError`
  (`Api.NestedObjectRejected`). `JSONArg` is therefore reachable only with a plain
  `dict`.
- Text and JSON literals are put between single quotes with no escaping. A value
  holding `'` ends the SQL string early (`PgTools.UnescapedQuoteExample`,
  `PgTools.SqlStringReadsBack`).
- `ArrayArg` removes every `u'` from the list's `repr`. A text element ending in
  `u` therefore loses that `u` (`PgTools.TrailingUExample`).

## Model

| member | source | states |
|---|---|---|
| PgTools.Validate | dbapi_viewer/pgtools.py:59-66 | a value that is not an instance of the class's `param_type` gives `FunctionParamError`; otherwise the template is filled, failing only for non-ASCII `unicode` text in `'{}'`; quoted classes give text between single quotes |
| PgTools.Format | dbapi_viewer/pgtools.py:68-114 | `format()` of each class, converted for the byte-string template, fails exactly for non-ASCII `unicode` text under `TextArg` |
| PgTools.FuncTypesMatchParamTypes | dbapi_viewer/pgtools.py:117-127 | every type in `FUNC_TYPES` is in its class's `param_type`, so `validate` never raises `FunctionParamError` through `api_compiler` |
| PgTools.CompileParam | dbapi_viewer/pgtools.py:156 | a parameter compiles exactly when its exact type is a `FUNC_TYPES` key and it is not non-ASCII text; otherwise `KeyError(type)` or `UnicodeEncodeError` |
| PgTools.CompileParams | dbapi_viewer/pgtools.py:156 | the comprehension succeeds iff every parameter does, keeps their order, and otherwise fails with the first failing parameter's error |
| PgTools.ApiCompiler | dbapi_viewer/pgtools.py:130-158 | no or empty parameters give exactly `SELECT * FROM schema.action`; any result extends that prefix; failure iff some parameter fails |
| PgTools.CompileJoinsLiterals | dbapi_viewer/pgtools.py:148-158 | with parameters, the query is the prefix, `(`, the literals joined by `, ` in input order, `)` |
| PgTools.CompileFailsAtFirstBadParam | dbapi_viewer/pgtools.py:156 | the whole compile fails with the error of the first bad parameter; no partial text |
| PgTools.ScalarLiterals | dbapi_viewer/pgtools.py:72-93 | an `int` renders as bare decimal, a `bool` as `TRUE`/`FALSE` (never by the number rule), ASCII text as `'s'`, non-ASCII text fails |
| PgTools.UnmappedTypes | dbapi_viewer/pgtools.py:117-127 | `long`, `None` and `OrderedDict` values raise `KeyError` of their type |
| PgTools.StripItems | dbapi_viewer/pgtools.py:103 | `StripQuotes` (removing `u'`, then `'`) applied to the `repr` of a list of scalars leaves the element texts joined by `, ` |
| PgTools.StripClosedText | dbapi_viewer/pgtools.py:103 | a quoted element loses its quotes, and also its last `u` if it ends in one |
| PgTools.StripQuotesConcat | dbapi_viewer/pgtools.py:103 | the stripping works piecewise unless a `u` meets a following `'` |
| PgTools.ArrayBodyOfScalars | dbapi_viewer/pgtools.py:102-104 | `ArrayBody` (`ArrayArg.format`) of scalars is `{` + element texts joined by `, ` + `}` |
| PgTools.ArrayLiteral | dbapi_viewer/pgtools.py:96-104 | a list of scalars compiles to `'{` + element texts joined by `, ` + `}'` |
| PgTools.CompileArray | dbapi_viewer/pgtools.py:96-104 | a list compiles to its formatted body between single quotes |
| PgTools.CompileDict | dbapi_viewer/pgtools.py:107-114 | a plain `dict` compiles to its JSON text between single quotes |
| PgTools.TextLiteralReadsBack | dbapi_viewer/pgtools.py:79-83 | ASCII text compiles to `'s'`, which reads back as an SQL string as `s` iff `s` holds no `'` |
| PgTools.JsonLiteralReadsBack | dbapi_viewer/pgtools.py:107-114 | a `dict` literal reads back as its JSON text iff that text holds no `'` |
| PgTools.QuotedBodyReadsBack | dbapi_viewer/pgtools.py:82 | an SQL string body closed by `'` reads back whole iff it holds no `'` |
| PgTools.SqlStringReadsBack | dbapi_viewer/pgtools.py:82 | `'b'` reads back as the SQL string `b` iff `b` holds no `'` |
| PgTools.QuotedBodyEndsAtLoneQuote | dbapi_viewer/pgtools.py:82 | an SQL string body ends at the first lone `'` |
| PgTools.SqlStringEndsAtLoneQuote | dbapi_viewer/pgtools.py:82 | an SQL string ends at the first lone `'`; the rest is outside the string |
| PgTools.UnescapedQuoteExample | dbapi_viewer/pgtools.py:79-83 | `O'Brien` compiles to `'O'Brien'`, whose SQL string is only `O` |
| PgTools.TrailingUExample | dbapi_viewer/pgtools.py:103 | `['menu', 'ok']` compiles to `'{men, ok}'` |
| PgTools.DocExampleArray | dbapi_viewer/pgtools.py:143 | `['a', 'b', 'c']` compiles to `'{a, b, c}'` |
| PgTools.DocExampleLiterals | dbapi_viewer/pgtools.py:142-143 | `1`, `['a', 'b', 'c']` and `True` compile to `1`, `'{a, b, c}'` and `TRUE` |
| PgTools.DocExampleWithParams | dbapi_viewer/pgtools.py:142-143 | `api_compiler('cms', 'migrate', [1, ['a', 'b', 'c'], True])` gives `SELECT * FROM cms.migrate(1, '{a, b, c}', TRUE)` |
| PgTools.DocExampleWithoutParams | dbapi_viewer/pgtools.py:144-145 | `api_compiler('cms', 'log_view')` gives `SELECT * FROM cms.log_view` |
| PyValues.ReprPlainText | dbapi_viewer/pgtools.py:103 | the `repr` of plain text is the text between single quotes |
| Strings.IntToDecimalRoundTrip | dbapi_viewer/pgtools.py:75 | the decimal text of an integer parses back to it |
| Strings.RemoveCharLeavesNone | dbapi_viewer/pgtools.py:103 | `.replace("'", "")` leaves no `'` and removes exactly the `'` characters |
| Strings.ReplacePairConcat | dbapi_viewer/pgtools.py:103 | `.replace("u'", "")` works piecewise unless a `u` and a `'` meet at the seam |
| Api.FirstOccurrences | dbapi_viewer/api.py:56 | the first-occurrence key list has exactly the keys of the input |
| Api.SetItemKeys | dbapi_viewer/api.py:56 | storing a key keeps the key order, appending a new key at the end |
| Api.SetItemLookup | dbapi_viewer/api.py:56 | after storing `k`, `k` maps to the new value and other keys are unchanged |
| Api.SetItemDistinct | dbapi_viewer/api.py:56 | storing keeps the keys distinct |
| Api.OrderedFromPairsSpec | dbapi_viewer/api.py:53-57 | the `OrderedDict` built from the pairs has distinct keys, exactly the pairs' keys, and each key's last value |
| Api.OrderedKeysFirstOccurrences | dbapi_viewer/api.py:53-57 | its keys are in order of first appearance |
| Api.OrderedFromDistinctPairs | dbapi_viewer/api.py:53-57 | pairs with distinct keys are kept as they are |
| Api.LookupDistinct | dbapi_viewer/api.py:59 | with distinct keys, each key maps to its own value |
| Api.FromJsonMembers | dbapi_viewer/api.py:53-57 | the pairs handed to the hook are the members, in document order, each value decoded |
| Api.RequestToParams | dbapi_viewer/api.py:32-62 | an absent or empty payload gives `[]`; a payload that is not JSON gives `InvalidParamsError`; a decoded object gives its values; any other JSON value raises (`.values()` is missing) |
| Api.ParamsPerDistinctKey | dbapi_viewer/api.py:53-59 | one value per distinct key, in order of first appearance, each the key's last value |
| Api.ParamsInDeclarationOrder | dbapi_viewer/api.py:53-59 | with distinct keys, the values are the members' values in declaration order |
| Api.UnmappedJsonValues | dbapi_viewer/api.py:56 | a decoded nested object (`OrderedDict`) or `null` raises `KeyError` when compiled |
| Api.LastValueAt | dbapi_viewer/api.py:53-56 | with the `OrderedDict` hook a key keeps the value of its last pair |
| Api.NestedObjectRejected | dbapi_viewer/api.py:56 | a request whose object holds a nested object or `null` as the last value of some key (repeated keys allowed) decodes, but its query does not compile |
| Api.DocRequestParams | dbapi_viewer/api.py:4 | `{"name": "pav", "age": [1, 2, 3, 4]}` gives `['pav', [1, 2, 3, 4]]` |
| Api.DocRequestArray | dbapi_viewer/api.py:8 | `[1, 2, 3, 4]` compiles to `'{1, 2, 3, 4}'` |
| Api.DocRequestExample | dbapi_viewer/api.py:4-8 | the documented request gives `SELECT * FROM search.entities('pav', '{1, 2, 3, 4}')` |
| Api.DuplicateKeyExample | dbapi_viewer/api.py:53-59 | `{"a": 1, "b": 2, "a": 3}` gives `[3, 2]` |
| Api.StrLtIrreflexive | dbapi_viewer/api.py:70 | the text order `sorted` uses is irreflexive |
| Api.StrLtTransitive | dbapi_viewer/api.py:70 | the text order is transitive |
| Api.StrLtTotal | dbapi_viewer/api.py:70 | any two different texts are ordered |
| Api.InsertSorted | dbapi_viewer/api.py:70 | inserting into an ascending list keeps it ascending and adds exactly the new text |
| Api.SortedLength | dbapi_viewer/api.py:69-70 | an ascending list of distinct texts is as long as its set |
| Api.SortedUnique | dbapi_viewer/api.py:70 | two ascending lists with the same elements are equal |
| Api.SortedNamespaces | dbapi_viewer/api.py:70 | `sorted(list(set(...)))` over `Namespaces` (the records' namespaces): ascending, no duplicates, exactly the namespaces |
| Api.SortedNamespacesUnique | dbapi_viewer/api.py:69-70 | every ascending list of the namespaces is that one, and its length is the count |
| Api.Select | dbapi_viewer/api.py:75-80 | the filtered records are exactly those of the namespace and type |
| Api.SelectConcat | dbapi_viewer/api.py:75-80 | the filter keeps the records' input order |
| Api.EntriesMember | dbapi_viewer/api.py:83-86 | an entry is listed iff it carries the name, endpoint and params of a listed record |
| Api.InfoForEntries | dbapi_viewer/api.py:75-87 | `InfoFor` (one namespace's entry): its `functions` come exactly from its `UDF` records and its `views` from its `view` records |
| Api.VisitStep | dbapi_viewer/api.py:74-88 | one loop step appends the chosen namespace's entry and keeps the loop invariant |
| Api.VisitedAll | dbapi_viewer/api.py:74-88 | after the loop there is one entry per distinct namespace, each built from its records |
| Api.IndexHandler | dbapi_viewer/api.py:65-88 | `namespaces_count` is the number of distinct namespaces; `schemas` is them ascending without duplicates; `namespaces` has one entry per namespace, each with its UDFs and views |
| Deploy.ReEscapeConcat | dbapi_viewer/deploy.py:35 | escaping distributes over concatenation |
| Deploy.UnescapeReEscape | dbapi_viewer/deploy.py:35 | escaped text reads back as the original |
| Deploy.ReEscapeWord | dbapi_viewer/deploy.py:35 | text of word characters is its own escape |
| Deploy.WordEnd | dbapi_viewer/deploy.py:15 | `(\w+)` takes the longest run of word characters |
| Deploy.BraceFrom | dbapi_viewer/deploy.py:16 | `([^}]+)` runs to the first `}` |
| Deploy.MatchAt | dbapi_viewer/deploy.py:13-18 | a match at `p` ends after `p`, within the template |
| Deploy.MatchAtSound | dbapi_viewer/deploy.py:13-18 | a match is a well-formed placeholder (a word-character name, an optional expression without `}`) written out at that position |
| Deploy.MatchAtComplete | dbapi_viewer/deploy.py:13-18 | every well-formed placeholder written at a position is matched there, as itself |
| Deploy.ScanFromUnparse | dbapi_viewer/deploy.py:34-41 | the scan from any state loses nothing of the text still ahead |
| Deploy.ScanUnparse | dbapi_viewer/deploy.py:34-41 | the literals and placeholders the scan finds, put back together, are the template |
| Deploy.ScanSkip | dbapi_viewer/deploy.py:34 | positions where nothing matches are passed over |
| Deploy.NoMatchWithoutBrace | dbapi_viewer/deploy.py:14 | no match starts at a character other than `{` |
| Deploy.RegexMatchStep | dbapi_viewer/deploy.py:35-40 | one match appends the escaped pending literal and the placeholder's group, keeping the loop invariant |
| Deploy.RegexSkipStep | dbapi_viewer/deploy.py:34 | a position without a match keeps the loop invariant |
| Deploy.RegexEnd | dbapi_viewer/deploy.py:41 | the escaped text after the last match completes the output |
| Deploy.UriToRegex | dbapi_viewer/deploy.py:21-43 | the result is `^` + `Render(Scan(template))` + `$`: `Scan` splits the template into literals and placeholders in order, and `Render` escapes each literal and turns each placeholder into its `Group` |
| Deploy.LiteralTemplate | dbapi_viewer/deploy.py:34-42 | a template where no placeholder matches (such as `a{b` or `/x/{}`) becomes `^` + its escape + `$` |
| Deploy.BraceFreeTemplate | dbapi_viewer/deploy.py:34-42 | a template without `{` becomes `^` + its escape + `$` |
| Deploy.OnePlaceholder | dbapi_viewer/deploy.py:34-42 | `a{name}b` becomes `^` + escape(a) + `(?P<name>[^/]+)` + escape(b) + `$`, and `{name:expr}` gives `(?P<name>expr)` |
| Deploy.PaddedDecimal | dbapi_viewer/deploy.py:49 | the port written with exactly four digits |
| Deploy.PaddedDecimalValue | dbapi_viewer/deploy.py:92 | four digits read back as the port they were written from |
| Deploy.DecimalValuePadded | dbapi_viewer/deploy.py:92 | `int()` of four digits is below 10000 and writes back to the same digits |
| Deploy.PgConnection | dbapi_viewer/deploy.py:61-94 | the default empty string raises `ConnectionError` |
| Deploy.ParseConnString | dbapi_viewer/deploy.py:46-52 | every valid record, written out, parses back to itself |
| Deploy.ConnStringOfParse | dbapi_viewer/deploy.py:86-92 | a parse gives non-empty, slash-free fields and a port below 10000, and writes back to the input |
| Deploy.PgConnectionIff | dbapi_viewer/deploy.py:86-94 | a string parses to a record iff the record is valid and the string is that record written out; anything else raises `ConnectionError` |
| Deploy.DocConnection | dbapi_viewer/deploy.py:76-83 | `db_user@http://db.server.com:6432/db011/my_secret` gives user, host, database, password and port 6432 |

## Left out

- `PGPlugin` (dbapi_viewer/pgtools.py:161-228): the database connection, reading the SQL file and the web framework plugin. These are I/O and foreign libraries.
- `SQL_DIR` (dbapi_viewer/pgtools.py:26): a file-system path.
- `main_handler` (dbapi_viewer/api.py:93-122): reading the request and running the query are I/O.
- The `bottle.jinja2_template` call (dbapi_viewer/api.py:90): the model stops at the `schema_root` value it receives.
- `deploy_service` (dbapi_viewer/deploy.py:97-130): the command line, the server and the database version probe.
- `dbapi_viewer/wsgi.py`, `__init__.py`, `webpack.config.js` and `setup.py` are not part of this model.
- The JSON parser is a parameter: `loads` returns the parsed document, or nothing for malformed text (`JSONDecodeError`).
- `json.dumps` is a hand-written serialiser with the library's default settings.
- Floats are left out, because Python's float text is not modelled. So are `tuple` and `buffer` parameters. A decoded request never contains them.
- PyValues.TypeOf: `int` is bounded for a 64-bit build; other widths are not modelled.
- PyValues.TypeOf: text carries no `str`/`unicode` tag. ASCII text is a byte `str` and any other text is `unicode`, which is what simplejson's C scanner hands back for a request. The pure-Python decoder, or a direct caller of `api_compiler`, can also pass ASCII `unicode` or a non-ASCII byte `str`, and those two cases are not modelled: `[u"it's"]` is rendered by `ArrayArg` as `'{u"its"}'` (only `u'` and `'` are removed, so the `u` of the `u"` prefix stays), while the model gives `'{"its"}'`; and `TextArg` puts a non-ASCII byte `str` between quotes without error, while the model reports `UnicodeEncodeError` for all non-ASCII text.
- Deploy.ReEscape: follows the Python 2.7 rule (letters, digits and `_` kept, NUL as `\000`, a backslash before anything else); other Python versions escape fewer characters.
- Deploy.MatchAt and Deploy.PgConnection are hand-written scanners equivalent to the two regular expressions; the regular-expression engine itself is not modelled.
- Api.StrLt: `sorted` on text is code-point order; byte-string against `unicode` comparison and locale are not modelled.
- Api.IndexHandler: the order of `namespaces` follows set iteration, which Python leaves unspecified. The method picks namespaces in an arbitrary order and states no order.
- Api.IndexHandler: `args` carries the record's `api_params` as an opaque value.
- Plain `dict` parameters (`Obj`) keep a fixed entry order; Python 2's hash-based `dict` order is not modelled.
