/** The request side of the HTTP API: turning the raw `args` text of a call into the
    parameter list the SQL compiler receives, and the catalogue overview the index
    page is rendered from. */
module Api {
  import opened Wrappers
  import opened Strings
  import opened PyValues
  import opened PgTools

  // ---------------------------------------------------------------------------
  // Ordered dictionaries, as association lists

  /** The keys of an association list, in order. */
  function Keys<V>(es: seq<(string, V)>): seq<string> {
    seq(|es|, i requires 0 <= i < |es| => es[i].0)
  }

  /** The values of an association list, in order: `od.values()`. */
  function Values(es: seq<(string, Value)>): seq<Value> {
    seq(|es|, i requires 0 <= i < |es| => es[i].1)
  }

  predicate DistinctKeys<V>(es: seq<(string, V)>) {
    forall i, j :: 0 <= i < j < |es| ==> es[i].0 != es[j].0
  }

  /** `od[k]`: the value stored under `k`, if any. */
  function Lookup(es: seq<(string, Value)>, k: string): Option<Value> {
    if es == [] then None
    else if es[0].0 == k then Some(es[0].1)
    else Lookup(es[1..], k)
  }

  /** The value of the last pair with key `k`: the one no later pair overrides. */
  function LastValue(pairs: seq<(string, Value)>, k: string): Option<Value> {
    if pairs == [] then None
    else if pairs[|pairs| - 1].0 == k then Some(pairs[|pairs| - 1].1)
    else LastValue(pairs[..|pairs| - 1], k)
  }

  /** The keys in order of first appearance, each once. */
  function FirstOccurrences(ks: seq<string>): (r: seq<string>)
    ensures forall k :: k in r <==> k in ks
  {
    if ks == [] then []
    else
      var prefix := ks[..|ks| - 1];
      assert forall k :: k in ks <==> k in prefix || k == ks[|ks| - 1] by {
        assert ks == prefix + [ks[|ks| - 1]];
      }
      if ks[|ks| - 1] in prefix then FirstOccurrences(prefix)
      else FirstOccurrences(prefix) + [ks[|ks| - 1]]
  }

  lemma KeysTail<V>(es: seq<(string, V)>)
    requires es != []
    ensures Keys(es) == [es[0].0] + Keys(es[1..])
  {
  }

  lemma DistinctKeysCons(x: (string, Value), rest: seq<(string, Value)>)
    ensures DistinctKeys([x] + rest) <==> x.0 !in Keys(rest) && DistinctKeys(rest)
  {
    var es := [x] + rest;
    assert es[1..] == rest;
    if x.0 in Keys(rest) {
      var j :| 0 <= j < |rest| && Keys(rest)[j] == x.0;
      assert es[0].0 == es[j + 1].0;
    }
    if DistinctKeys(es) {
      forall i, j | 0 <= i < j < |rest|
        ensures rest[i].0 != rest[j].0
      {
        assert es[i + 1] == rest[i] && es[j + 1] == rest[j];
      }
    }
    if x.0 !in Keys(rest) && DistinctKeys(rest) {
      forall i, j | 0 <= i < j < |es|
        ensures es[i].0 != es[j].0
      {
        if i == 0 {
          assert Keys(rest)[j - 1] == es[j].0;
        } else {
          assert es[i] == rest[i - 1] && es[j] == rest[j - 1];
        }
      }
    }
  }

  /** Storing `od[k] = v`: the first entry with key `k` takes the new value in place;
      without one, the new pair goes last. */
  function SetItem(es: seq<(string, Value)>, k: string, v: Value): (r: seq<(string, Value)>)
  {
    if es == [] then [(k, v)]
    else if es[0].0 == k then [(k, v)] + es[1..]
    else [es[0]] + SetItem(es[1..], k, v)
  }

  /** Storing a key changes the key list only by appending a new key at the end. */
  lemma {:induction false} SetItemKeys(es: seq<(string, Value)>, k: string, v: Value)
    ensures forall key :: key in Keys(SetItem(es, k, v)) <==> key in Keys(es) || key == k
    ensures k in Keys(es) ==> Keys(SetItem(es, k, v)) == Keys(es)
    ensures k !in Keys(es) ==> SetItem(es, k, v) == es + [(k, v)]
  {
    if es != [] {
      var r := SetItem(es, k, v);
      KeysTail(es);
      KeysTail(r);
      if es[0].0 == k {
        assert r[1..] == es[1..];
        assert Keys(r) == Keys(es) && Keys(es)[0] == k;
      } else {
        SetItemKeys(es[1..], k, v);
        var rest := SetItem(es[1..], k, v);
        assert r[1..] == rest;
        forall key
          ensures key in Keys(r) <==> key in Keys(es) || key == k
        {
          assert key in Keys(r) <==> key == es[0].0 || key in Keys(rest);
          assert key in Keys(es) <==> key == es[0].0 || key in Keys(es[1..]);
        }
        assert es == [es[0]] + es[1..];
        if k !in Keys(es) {
          assert r == [es[0]] + (es[1..] + [(k, v)]);
          assert [es[0]] + (es[1..] + [(k, v)]) == ([es[0]] + es[1..]) + [(k, v)];
        }
      }
    } else {
      assert Keys(SetItem(es, k, v)) == [k];
    }
  }

  /** Storing a key keeps the keys distinct. */
  lemma {:induction false} SetItemDistinct(es: seq<(string, Value)>, k: string, v: Value)
    requires DistinctKeys(es)
    ensures DistinctKeys(SetItem(es, k, v))
  {
    if es != [] {
      assert es == [es[0]] + es[1..];
      DistinctKeysCons(es[0], es[1..]);
      if es[0].0 == k {
        DistinctKeysCons((k, v), es[1..]);
      } else {
        SetItemDistinct(es[1..], k, v);
        SetItemKeys(es[1..], k, v);
        DistinctKeysCons(es[0], SetItem(es[1..], k, v));
      }
    }
  }

  /** After `od[k] = v` the key `k` looks up `v` and every other key is unaffected. */
  lemma {:induction false} SetItemLookup(es: seq<(string, Value)>, k: string, v: Value, key: string)
    ensures Lookup(SetItem(es, k, v), key) == if key == k then Some(v) else Lookup(es, key)
  {
    if es != [] && es[0].0 != k {
      SetItemLookup(es[1..], k, v, key);
      assert SetItem(es, k, v)[1..] == SetItem(es[1..], k, v);
    }
  }

  /** `OrderedDict(pairs)`: the pairs are stored one after another. */
  function OrderedFromPairs(pairs: seq<(string, Value)>): (r: seq<(string, Value)>)
  {
    if pairs == [] then []
    else SetItem(OrderedFromPairs(pairs[..|pairs| - 1]), pairs[|pairs| - 1].0, pairs[|pairs| - 1].1)
  }

  lemma KeysSnoc(pairs: seq<(string, Value)>)
    requires pairs != []
    ensures Keys(pairs) == Keys(pairs[..|pairs| - 1]) + [pairs[|pairs| - 1].0]
  {
  }

  /** An OrderedDict built from pairs has distinct keys, exactly the keys of the pairs,
      and under each key the value of the key's last pair. */
  lemma {:induction false} OrderedFromPairsSpec(pairs: seq<(string, Value)>)
    ensures DistinctKeys(OrderedFromPairs(pairs))
    ensures forall key :: key in Keys(OrderedFromPairs(pairs)) <==> key in Keys(pairs)
    ensures forall key :: Lookup(OrderedFromPairs(pairs), key) == LastValue(pairs, key)
  {
    if pairs != [] {
      var prefix := pairs[..|pairs| - 1];
      var last := pairs[|pairs| - 1];
      var od := OrderedFromPairs(prefix);
      OrderedFromPairsSpec(prefix);
      KeysSnoc(pairs);
      SetItemKeys(od, last.0, last.1);
      SetItemDistinct(od, last.0, last.1);
      forall key
        ensures Lookup(OrderedFromPairs(pairs), key) == LastValue(pairs, key)
      {
        SetItemLookup(od, last.0, last.1, key);
      }
    }
  }

  /** The OrderedDict's keys come in the order of their first appearance among the
      pairs, each once. */
  lemma {:induction false} OrderedKeysFirstOccurrences(pairs: seq<(string, Value)>)
    ensures Keys(OrderedFromPairs(pairs)) == FirstOccurrences(Keys(pairs))
  {
    if pairs != [] {
      var prefix := pairs[..|pairs| - 1];
      var last := pairs[|pairs| - 1];
      assert Keys(pairs)[..|pairs| - 1] == Keys(prefix);
      KeysSnoc(pairs);
      OrderedKeysFirstOccurrences(prefix);
      OrderedFromPairsSpec(prefix);
      SetItemKeys(OrderedFromPairs(prefix), last.0, last.1);
    }
  }

  /** Pairs with distinct keys are kept exactly as they are, in order. */
  lemma {:induction false} OrderedFromDistinctPairs(pairs: seq<(string, Value)>)
    requires DistinctKeys(pairs)
    ensures OrderedFromPairs(pairs) == pairs
  {
    if pairs != [] {
      var prefix := pairs[..|pairs| - 1];
      var last := pairs[|pairs| - 1];
      OrderedFromDistinctPairs(prefix);
      assert last.0 !in Keys(prefix);
      SetItemKeys(prefix, last.0, last.1);
      assert prefix + [last] == pairs;
    }
  }

  /** In an association list with distinct keys each entry is what its key looks up. */
  lemma {:induction false} LookupDistinct(es: seq<(string, Value)>, i: nat)
    requires DistinctKeys(es) && i < |es|
    ensures Lookup(es, es[i].0) == Some(es[i].1)
  {
    if i > 0 {
      LookupDistinct(es[1..], i - 1);
    }
  }

  // ---------------------------------------------------------------------------
  // request_to_params

  /** A JSON document as the decoder reads it; numbers are whole numbers. */
  datatype Json =
    | JNull
    | JBool(b: bool)
    | JInt(n: int)
    | JStr(s: string)
    | JArr(items: seq<Json>)
    | JObj(members: seq<(string, Json)>)

  /** The Python value the decoder builds for a document when every object goes
      through `object_pairs_hook=OrderedDict`. */
  function FromJson(j: Json): Value {
    match j
    case JNull => Nil
    case JBool(b) => Bool(b)
    case JInt(n) => Int(n)
    case JStr(s) => Str(s)
    case JArr(items) => Arr(FromJsonItems(items))
    case JObj(members) => OrderedObj(OrderedFromPairs(FromJsonMembers(members)))
  }

  function FromJsonItems(items: seq<Json>): (r: seq<Value>)
    ensures |r| == |items|
  {
    if items == [] then [] else [FromJson(items[0])] + FromJsonItems(items[1..])
  }

  function FromJsonMember(m: (string, Json)): (string, Value) {
    (m.0, FromJson(m.1))
  }

  /** The `(key, value)` pairs handed to the hook, in document order. */
  function FromJsonMembers(ms: seq<(string, Json)>): (r: seq<(string, Value)>)
    ensures |r| == |ms|
    ensures forall i :: 0 <= i < |ms| ==> r[i] == FromJsonMember(ms[i])
  {
    if ms == [] then [] else [FromJsonMember(ms[0])] + FromJsonMembers(ms[1..])
  }

  /** Why a payload is refused: it is not JSON, or it is JSON but not an object, which
      has no `.values()`. */
  datatype ParamsError = InvalidParamsError | AttributeError

  /** `request_to_params(raw)`, with the JSON parser as the parameter `loads` (`None`
      when the text does not parse). An absent or empty payload gives no parameters;
      an object gives its values. */
  function RequestToParams(raw: Option<string>, loads: string -> Option<Json>): (r: Result<seq<Value>, ParamsError>)
    ensures raw.None? || raw == Some("") ==> r == Success([])
    ensures raw.Some? && raw.value != "" ==> (r == Failure(InvalidParamsError) <==> loads(raw.value).None?)
    ensures raw.Some? && raw.value != "" && loads(raw.value).Some? ==> (r.Success? <==> loads(raw.value).value.JObj?)
    ensures r.Failure? ==> raw.Some? && raw.value != ""
  {
    if raw.None? || raw.value == "" then Success([])
    else
      match loads(raw.value)
      case None => Failure(InvalidParamsError)
      case Some(JObj(members)) => Success(Values(OrderedFromPairs(FromJsonMembers(members))))
      case Some(_) => Failure(AttributeError)
  }

  /** An object's parameters are one value per distinct key, in order of the key's
      first appearance, each the value of the key's last occurrence. */
  lemma ParamsPerDistinctKey(raw: Option<string>, loads: string -> Option<Json>, members: seq<(string, Json)>)
    requires raw.Some? && raw.value != "" && loads(raw.value) == Some(JObj(members))
    ensures var r := RequestToParams(raw, loads);
            var ks := FirstOccurrences(Keys(members));
            r.Success? && |r.value| == |ks| &&
            forall i :: 0 <= i < |ks| ==> Some(r.value[i]) == LastValue(FromJsonMembers(members), ks[i])
  {
    var pairs := FromJsonMembers(members);
    var od := OrderedFromPairs(pairs);
    assert Keys(pairs) == Keys(members);
    OrderedKeysFirstOccurrences(pairs);
    OrderedFromPairsSpec(pairs);
    forall i | 0 <= i < |od|
      ensures Some(od[i].1) == LastValue(pairs, od[i].0)
    {
      LookupDistinct(od, i);
    }
  }

  /** An object without repeated keys gives its values in declaration order. */
  lemma ParamsInDeclarationOrder(raw: Option<string>, loads: string -> Option<Json>, members: seq<(string, Json)>)
    requires raw.Some? && raw.value != "" && loads(raw.value) == Some(JObj(members))
    requires DistinctKeys(members)
    ensures var r := RequestToParams(raw, loads);
            r.Success? && |r.value| == |members| &&
            forall i :: 0 <= i < |members| ==> r.value[i] == FromJson(members[i].1)
  {
    var pairs := FromJsonMembers(members);
    assert DistinctKeys(pairs);
    OrderedFromDistinctPairs(pairs);
  }

  /** A nested object arrives as an `OrderedDict`, whose exact type the dispatch table
      lacks; a `null` arrives as `None`. Either makes the compile fail. */
  lemma UnmappedJsonValues(j: Json)
    requires j.JObj? || j.JNull?
    ensures CompileParam(FromJson(j)) == Failure(KeyError(if j.JObj? then OrderedDictType else NoneType))
  {
  }

  /** The value a key last took is the one in its last pair. */
  lemma LastValueAt(pairs: seq<(string, Value)>, k: nat)
    requires k < |pairs| && forall j :: k < j < |pairs| ==> pairs[j].0 != pairs[k].0
    ensures LastValue(pairs, pairs[k].0) == Some(pairs[k].1)
    decreases |pairs|
  {
    if k < |pairs| - 1 {
      LastValueAt(pairs[..|pairs| - 1], k);
    }
  }

  /** A call whose object holds a nested object, or `null`, as the last value of some key
      (repeated keys allowed) compiles to no query. */
  lemma NestedObjectRejected(raw: Option<string>, loads: string -> Option<Json>, members: seq<(string, Json)>,
                             schema: string, action: string, k: nat)
    requires raw.Some? && raw.value != "" && loads(raw.value) == Some(JObj(members))
    requires k < |members| && (members[k].1.JObj? || members[k].1.JNull?)
    requires forall j :: k < j < |members| ==> members[j].0 != members[k].0
    ensures RequestToParams(raw, loads).Success?
    ensures ApiCompiler(schema, action, Some(RequestToParams(raw, loads).value)).Failure?
  {
    var pairs := FromJsonMembers(members);
    var ks := FirstOccurrences(Keys(members));
    ParamsPerDistinctKey(raw, loads, members);
    LastValueAt(pairs, k);
    assert members[k].0 == Keys(members)[k];
    assert members[k].0 in ks;
    var i :| 0 <= i < |ks| && ks[i] == members[k].0;
    var ps := RequestToParams(raw, loads).value;
    assert ps[i] == FromJson(members[k].1);
    UnmappedJsonValues(members[k].1);
    assert CompileParam(ps[i]).Failure?;
  }

  // The documented request `{"name": "pav", "age": [1, 2, 3, 4]}` to `search.entities`.

  lemma DocRequestParams(raw: Option<string>, loads: string -> Option<Json>, members: seq<(string, Json)>)
    requires members == [("name", JStr("pav")), ("age", JArr([JInt(1), JInt(2), JInt(3), JInt(4)]))]
    requires raw.Some? && raw.value != "" && loads(raw.value) == Some(JObj(members))
    ensures RequestToParams(raw, loads) == Success([Str("pav"), Arr([Int(1), Int(2), Int(3), Int(4)])])
  {
    assert DistinctKeys(members) by {
      assert members[0].0 == "name" && members[1].0 == "age";
      assert "name"[0] != "age"[0];
    }
    var items := [JInt(1), JInt(2), JInt(3), JInt(4)];
    assert FromJsonItems(items) == [Int(1), Int(2), Int(3), Int(4)] by {
      assert items[1..] == [JInt(2), JInt(3), JInt(4)];
      assert items[1..][1..] == [JInt(3), JInt(4)];
      assert items[1..][1..][1..] == [JInt(4)];
    }
    ParamsInDeclarationOrder(raw, loads, members);
    var r := RequestToParams(raw, loads).value;
    assert r[0] == FromJson(JStr("pav")) == Str("pav");
    assert r[1] == FromJson(JArr(items)) == Arr(FromJsonItems(items));
    assert r == [r[0], r[1]];
  }

  /** A one-digit number contributes its digit to an array literal. */
  lemma DigitItem(v: Value)
    requires v.Int? && 0 <= v.i < 10
    ensures IsScalarItem(v) && ItemText(v) == [DigitChar(v.i)]
  {
    assert TypeOf(v) == IntType;
  }

  lemma {:induction false} ItemTextsAt(items: seq<Value>)
    requires forall i :: 0 <= i < |items| ==> IsScalarItem(items[i])
    ensures forall i :: 0 <= i < |items| ==> ItemTexts(items)[i] == ItemText(items[i])
  {
    if items != [] {
      ItemTextsAt(items[1..]);
      assert forall i :: 1 <= i < |items| ==> items[1..][i - 1] == items[i];
    }
  }

  lemma DocRequestArrayBody(items: seq<Value>)
    requires items == [Int(1), Int(2), Int(3), Int(4)]
    ensures forall i :: 0 <= i < |items| ==> IsScalarItem(items[i])
    ensures ItemTexts(items) == ["1", "2", "3", "4"]
  {
    DigitItem(items[0]);
    DigitItem(items[1]);
    DigitItem(items[2]);
    DigitItem(items[3]);
    assert [DigitChar(1)] == "1" && [DigitChar(2)] == "2" && [DigitChar(3)] == "3" && [DigitChar(4)] == "4";
    ItemTextsAt(items);
  }

  lemma DocRequestJoin(texts: seq<string>)
    requires texts == ["1", "2", "3", "4"]
    ensures Join(texts, ", ") == "1, 2, 3, 4"
  {
    assert texts[1..][1..][1..] == ["4"];
    assert Join(texts[1..][1..][1..], ", ") == "4";
    assert texts[1..][1..] == ["3", "4"];
    assert Join(texts[1..][1..], ", ") == "3, 4";
    assert texts[1..] == ["2", "3", "4"];
    assert Join(texts[1..], ", ") == "2, 3, 4";
  }

  lemma DocRequestArray(items: seq<Value>)
    requires items == [Int(1), Int(2), Int(3), Int(4)]
    ensures CompileParam(Arr(items)) == Success("'{1, 2, 3, 4}'")
  {
    assert "'{" + "1, 2, 3, 4" + "}'" == "'{1, 2, 3, 4}'";
    DocRequestArrayBody(items);
    DocRequestJoin(["1", "2", "3", "4"]);
    ArrayLiteral(items);
  }

  lemma DocRequestLiterals(ps: seq<Value>, literals: seq<string>)
    requires ps == [Str("pav"), Arr([Int(1), Int(2), Int(3), Int(4)])]
    requires literals == ["'pav'", "'{1, 2, 3, 4}'"]
    ensures forall i :: 0 <= i < |ps| ==> CompileParam(ps[i]) == Success(literals[i])
  {
    assert "'" + "pav" + "'" == "'pav'";
    assert IsAscii("pav");
    ScalarLiterals(ps[0]);
    DocRequestArray(ps[1].items);
  }

  lemma DocRequestQueryText(literals: seq<string>)
    requires literals == ["'pav'", "'{1, 2, 3, 4}'"]
    ensures "SELECT * FROM " + "search" + "." + "entities" + "(" + Join(literals, ", ") + ")"
         == "SELECT * FROM search.entities('pav', '{1, 2, 3, 4}')"
  {
    assert literals[1..] == ["'{1, 2, 3, 4}'"];
    assert Join(literals, ", ") == "'pav', '{1, 2, 3, 4}'";
    DocRequestPrefix("SELECT * FROM " + "search" + "." + "entities" + "(");
    DocRequestCall("SELECT * FROM search.entities(", Join(literals, ", ") + ")");
    ConcatAssoc("SELECT * FROM " + "search" + "." + "entities" + "(", Join(literals, ", "), ")");
  }

  lemma DocRequestPrefix(prefix: string)
    requires prefix == "SELECT * FROM " + "search" + "." + "entities" + "("
    ensures prefix == "SELECT * FROM search.entities("
  {
  }

  lemma DocRequestCall(prefix: string, args: string)
    requires prefix == "SELECT * FROM search.entities(" && args == "'pav', '{1, 2, 3, 4}')"
    ensures prefix + args == "SELECT * FROM search.entities('pav', '{1, 2, 3, 4}')"
  {
  }

  /** The documented request: its object's values become the call's two literals. */
  lemma DocRequestExample(raw: Option<string>, loads: string -> Option<Json>, members: seq<(string, Json)>)
    requires members == [("name", JStr("pav")), ("age", JArr([JInt(1), JInt(2), JInt(3), JInt(4)]))]
    requires raw.Some? && raw.value != "" && loads(raw.value) == Some(JObj(members))
    ensures RequestToParams(raw, loads).Success?
    ensures ApiCompiler("search", "entities", Some(RequestToParams(raw, loads).value))
         == Success("SELECT * FROM search.entities('pav', '{1, 2, 3, 4}')")
  {
    DocRequestParams(raw, loads, members);
    var ps := [Str("pav"), Arr([Int(1), Int(2), Int(3), Int(4)])];
    var literals := ["'pav'", "'{1, 2, 3, 4}'"];
    DocRequestQueryText(literals);
    DocRequestLiterals(ps, literals);
    CompileJoinsLiterals("search", "entities", ps, literals);
  }

  /** A repeated key keeps its first position and its last value:
      `{"a": 1, "b": 2, "a": 3}` gives `[3, 2]`. */
  lemma DuplicateKeyExample(raw: Option<string>, loads: string -> Option<Json>, members: seq<(string, Json)>)
    requires members == [("a", JInt(1)), ("b", JInt(2)), ("a", JInt(3))]
    requires raw.Some? && raw.value != "" && loads(raw.value) == Some(JObj(members))
    ensures RequestToParams(raw, loads) == Success([Int(3), Int(2)])
  {
    var pairs := FromJsonMembers(members);
    assert pairs == [("a", Int(1)), ("b", Int(2)), ("a", Int(3))];
    assert "a" != "b";
    assert pairs[..2] == [("a", Int(1)), ("b", Int(2))];
    assert pairs[..2][..1] == [("a", Int(1))];
    assert pairs[..2][..1][..0] == [];
    assert OrderedFromPairs(pairs[..2][..1]) == [("a", Int(1))];
    assert OrderedFromPairs(pairs[..2]) == [("a", Int(1)), ("b", Int(2))] by {
      assert SetItem([("a", Int(1))], "b", Int(2)) == [("a", Int(1))] + SetItem([], "b", Int(2));
    }
    var od := OrderedFromPairs(pairs);
    assert od == [("a", Int(3)), ("b", Int(2))] by {
      assert [("a", Int(1)), ("b", Int(2))][1..] == [("b", Int(2))];
    }
    assert Values(od) == [Int(3), Int(2)];
  }

  // ---------------------------------------------------------------------------
  // The index page's catalogue overview

  /** Python's `<` on text: code-point lexicographic order, a proper prefix first. */
  predicate StrLt(a: string, b: string)
    decreases |a|
  {
    if a == [] then b != []
    else b != [] && (a[0] < b[0] || (a[0] == b[0] && StrLt(a[1..], b[1..])))
  }

  lemma {:induction false} StrLtIrreflexive(a: string)
    ensures !StrLt(a, a)
    decreases |a|
  {
    if a != [] {
      StrLtIrreflexive(a[1..]);
    }
  }

  lemma {:induction false} StrLtTransitive(a: string, b: string, c: string)
    requires StrLt(a, b) && StrLt(b, c)
    ensures StrLt(a, c)
    decreases |a|
  {
    if a != [] && a[0] == b[0] && b[0] == c[0] {
      StrLtTransitive(a[1..], b[1..], c[1..]);
    }
  }

  /** Any two different texts are ordered one way or the other. */
  lemma {:induction false} StrLtTotal(a: string, b: string)
    requires a != b
    ensures StrLt(a, b) || StrLt(b, a)
    decreases |a|
  {
    if a != [] && b != [] && a[0] == b[0] {
      assert a == [a[0]] + a[1..] && b == [b[0]] + b[1..];
      StrLtTotal(a[1..], b[1..]);
    }
  }

  /** Ascending without repetitions. */
  predicate StrictlySorted(s: seq<string>) {
    forall i, j :: 0 <= i < j < |s| ==> StrLt(s[i], s[j])
  }

  lemma SortedCons(x: string, xs: seq<string>)
    requires StrictlySorted(xs) && (xs != [] ==> StrLt(x, xs[0]))
    ensures StrictlySorted([x] + xs)
  {
    var s := [x] + xs;
    forall i, j | 0 <= i < j < |s|
      ensures StrLt(s[i], s[j])
    {
      if i == 0 && j > 1 {
        StrLtTransitive(x, xs[0], xs[j - 1]);
      }
    }
  }

  /** The first element of an ascending sequence is below every other element. */
  lemma SortedHeadLeast(s: seq<string>, x: string)
    requires StrictlySorted(s) && x in s
    ensures x == s[0] || StrLt(s[0], x)
  {
  }

  /** Inserting `x` into an ascending sequence of distinct texts. */
  function InsertSorted(xs: seq<string>, x: string): (r: seq<string>)
    requires StrictlySorted(xs)
    ensures StrictlySorted(r)
    ensures forall y :: y in r <==> y in xs || y == x
  {
    if xs == [] then [x]
    else if x == xs[0] then xs
    else if StrLt(x, xs[0]) then
      SortedCons(x, xs);
      [x] + xs
    else
      StrLtTotal(x, xs[0]);
      var rest := InsertSorted(xs[1..], x);
      assert xs == [xs[0]] + xs[1..];
      assert rest != [] ==> StrLt(xs[0], rest[0]) by {
        if rest != [] {
          assert rest[0] in rest;
        }
      }
      SortedCons(xs[0], rest);
      [xs[0]] + rest
  }

  /** An ascending sequence of distinct texts has as many elements as its set. */
  lemma {:induction false} SortedLength(s: seq<string>)
    requires StrictlySorted(s)
    ensures |(set x | x in s)| == |s|
  {
    if s != [] {
      SortedLength(s[1..]);
      StrLtIrreflexive(s[0]);
      assert s[0] !in s[1..];
      assert (set x | x in s) == {s[0]} + (set x | x in s[1..]) by {
        assert s == [s[0]] + s[1..];
      }
    }
  }

  /** A sequence with no members is empty. */
  lemma NoMembersEmpty(t: seq<string>)
    requires forall x :: x !in t
    ensures t == []
  {
    forall x
      ensures multiset(t)[x] == 0
    {
      assert x !in t;
    }
    assert multiset(t) == multiset{};
  }

  /** Two ascending sequences of distinct texts with the same elements are equal: the
      sorted list of a set is unique. */
  lemma {:induction false} SortedUnique(s: seq<string>, t: seq<string>)
    requires StrictlySorted(s) && StrictlySorted(t)
    requires forall x :: x in s <==> x in t
    ensures s == t
    decreases |s|
  {
    if s == [] {
      NoMembersEmpty(t);
    } else {
      assert s[0] in s && s[0] in t;
      SortedHeadLeast(t, s[0]);
      SortedHeadLeast(s, t[0]);
      if s[0] != t[0] {
        StrLtTransitive(s[0], t[0], s[0]);
        StrLtIrreflexive(s[0]);
        assert false;
      }
      StrLtIrreflexive(s[0]);
      forall x
        ensures x in s[1..] <==> x in t[1..]
      {
        assert s == [s[0]] + s[1..] && t == [t[0]] + t[1..];
        assert x in s <==> x == s[0] || x in s[1..];
        assert x in t <==> x == t[0] || x in t[1..];
        assert x in s[1..] ==> StrLt(s[0], x) by {
          if x in s[1..] {
            var k :| 0 <= k < |s[1..]| && s[1..][k] == x;
            assert s[k + 1] == x;
          }
        }
        assert x in t[1..] ==> StrLt(t[0], x) by {
          if x in t[1..] {
            var k :| 0 <= k < |t[1..]| && t[1..][k] == x;
            assert t[k + 1] == x;
          }
        }
      }
      SortedUnique(s[1..], t[1..]);
      assert s == [s[0]] + s[1..] && t == [t[0]] + t[1..];
    }
  }

  /** One row of the `api_view` catalogue: a function or view exposed by the API. */
  datatype CatalogRecord = CatalogRecord(namespace: string, apiType: string, name: string, endpoint: string, params: Value)

  /** A function or view as listed on the index page. */
  datatype Endpoint = Endpoint(name: string, uri: string, args: Value)

  /** A namespace's entry: its functions (`UDF` records) and its views. */
  datatype SchemaInfo = SchemaInfo(name: string, functions: seq<Endpoint>, views: seq<Endpoint>)

  /** The `schema_root` dictionary handed to the index template. */
  datatype SchemaRoot = SchemaRoot(namespacesCount: nat, schemas: seq<string>, namespaces: seq<SchemaInfo>)

  /** `set([i['api_namespace'] for i in schema_data])` */
  function Namespaces(records: seq<CatalogRecord>): set<string> {
    set rec | rec in records :: rec.namespace
  }

  /** `sorted(set(...))` of the namespaces, built by inserting them one by one. */
  function SortedNamespaces(records: seq<CatalogRecord>): (r: seq<string>)
    ensures StrictlySorted(r)
    ensures forall ns :: ns in r <==> ns in Namespaces(records)
  {
    if records == [] then []
    else
      var prefix := records[..|records| - 1];
      var last := records[|records| - 1];
      assert forall ns :: ns in Namespaces(records) <==> ns in Namespaces(prefix) || ns == last.namespace by {
        assert records == prefix + [last];
      }
      InsertSorted(SortedNamespaces(prefix), last.namespace)
  }

  /** The sorted namespace list is the only ascending list without repetitions that
      holds exactly the distinct namespaces, and it is as long as their count. */
  lemma SortedNamespacesUnique(records: seq<CatalogRecord>, s: seq<string>)
    requires StrictlySorted(s) && forall ns :: ns in s <==> ns in Namespaces(records)
    ensures s == SortedNamespaces(records)
    ensures |s| == |Namespaces(records)|
  {
    SortedUnique(s, SortedNamespaces(records));
    SortedLength(s);
    assert (set x | x in s) == Namespaces(records);
  }

  /** The records of namespace `ns` and type `apiType`, in input order. */
  function Select(records: seq<CatalogRecord>, ns: string, apiType: string): (r: seq<CatalogRecord>)
    ensures forall rec :: rec in r <==> rec in records && rec.namespace == ns && rec.apiType == apiType
  {
    if records == [] then []
    else
      assert forall rec :: rec in records <==> rec == records[0] || rec in records[1..] by {
        assert records == [records[0]] + records[1..];
      }
      (if records[0].namespace == ns && records[0].apiType == apiType then [records[0]] else [])
      + Select(records[1..], ns, apiType)
  }

  /** Selecting keeps the input order: it distributes over concatenation. */
  lemma {:induction false} SelectConcat(a: seq<CatalogRecord>, b: seq<CatalogRecord>, ns: string, apiType: string)
    ensures Select(a + b, ns, apiType) == Select(a, ns, apiType) + Select(b, ns, apiType)
  {
    if a == [] {
      assert a + b == b;
    } else {
      assert (a + b)[0] == a[0] && (a + b)[1..] == a[1..] + b;
      SelectConcat(a[1..], b, ns, apiType);
      var head := if a[0].namespace == ns && a[0].apiType == apiType then [a[0]] else [];
      assert head + (Select(a[1..], ns, apiType) + Select(b, ns, apiType))
          == (head + Select(a[1..], ns, apiType)) + Select(b, ns, apiType);
    }
  }

  /** `{'name': i['api_name'], 'uri': i['api_endpoint'], 'args': i['api_params']}` */
  function EndpointOf(rec: CatalogRecord): Endpoint {
    Endpoint(rec.name, rec.endpoint, rec.params)
  }

  function Entries(rs: seq<CatalogRecord>): seq<Endpoint> {
    seq(|rs|, i requires 0 <= i < |rs| => EndpointOf(rs[i]))
  }

  /** The entry the index lists for namespace `ns`. */
  function InfoFor(records: seq<CatalogRecord>, ns: string): SchemaInfo {
    SchemaInfo(ns, Entries(Select(records, ns, "UDF")), Entries(Select(records, ns, "view")))
  }

  lemma EntriesMember(rs: seq<CatalogRecord>, e: Endpoint)
    ensures e in Entries(rs) <==> exists rec :: rec in rs && e == EndpointOf(rec)
  {
    if e in Entries(rs) {
      var i :| 0 <= i < |rs| && Entries(rs)[i] == e;
      assert rs[i] in rs;
    }
    if exists rec :: rec in rs && e == EndpointOf(rec) {
      var rec :| rec in rs && e == EndpointOf(rec);
      var i :| 0 <= i < |rs| && rs[i] == rec;
      assert Entries(rs)[i] == e;
    }
  }

  /** A namespace's entry lists as functions exactly the endpoints of its `UDF`
      records and as views exactly those of its `view` records; records of any other
      type appear in neither. */
  lemma InfoForEntries(records: seq<CatalogRecord>, ns: string, e: Endpoint)
    ensures InfoFor(records, ns).name == ns
    ensures e in InfoFor(records, ns).functions <==>
              exists rec :: rec in records && rec.namespace == ns && rec.apiType == "UDF" && e == EndpointOf(rec)
    ensures e in InfoFor(records, ns).views <==>
              exists rec :: rec in records && rec.namespace == ns && rec.apiType == "view" && e == EndpointOf(rec)
  {
    EntriesMember(Select(records, ns, "UDF"), e);
    EntriesMember(Select(records, ns, "view"), e);
  }

  /** The state of the loop over the namespaces: `done` lists the namespaces visited
      so far, each once, `infos` holds their entries in the same order, and
      `remaining` the namespaces still to visit. */
  predicate Visited(records: seq<CatalogRecord>, names: set<string>, remaining: set<string>,
                    done: seq<string>, infos: seq<SchemaInfo>)
  {
    remaining <= names &&
    |done| == |infos| && |done| + |remaining| == |names| &&
    (forall i :: 0 <= i < |done| ==> infos[i] == InfoFor(records, done[i])) &&
    (forall i :: 0 <= i < |done| ==> done[i] in names && done[i] !in remaining) &&
    (forall ns :: ns in names && ns !in remaining ==> ns in done) &&
    (forall i, j :: 0 <= i < j < |done| ==> done[i] != done[j])
  }

  /** Visiting one more namespace and appending its entry keeps the loop state. */
  lemma VisitStep(records: seq<CatalogRecord>, names: set<string>, remaining: set<string>,
                  done: seq<string>, infos: seq<SchemaInfo>, schema: string)
    requires Visited(records, names, remaining, done, infos) && schema in remaining
    ensures Visited(records, names, remaining - {schema}, done + [schema], infos + [InfoFor(records, schema)])
  {
    var done', infos', remaining' := done + [schema], infos + [InfoFor(records, schema)], remaining - {schema};
    forall i | 0 <= i < |done'|
      ensures done'[i] in names && done'[i] !in remaining'
      ensures infos'[i] == InfoFor(records, done'[i])
    {
      if i < |done| {
        assert done'[i] == done[i] && infos'[i] == infos[i];
      }
    }
    forall i, j | 0 <= i < j < |done'|
      ensures done'[i] != done'[j]
    {
      assert done'[i] == done[i] && done[i] !in remaining;
      if j < |done| {
        assert done'[j] == done[j];
      }
    }
    forall ns | ns in names && ns !in remaining'
      ensures ns in done'
    {
      assert ns == schema || (ns in names && ns !in remaining);
    }
  }

  /** Once every namespace is visited, each has exactly one entry. */
  lemma VisitedAll(records: seq<CatalogRecord>, names: set<string>, done: seq<string>, infos: seq<SchemaInfo>)
    requires Visited(records, names, {}, done, infos)
    ensures |infos| == |names|
    ensures forall i :: 0 <= i < |infos| ==> infos[i] == InfoFor(records, infos[i].name)
    ensures forall ns :: ns in names <==> exists i :: 0 <= i < |infos| && infos[i].name == ns
    ensures forall i, j :: 0 <= i < j < |infos| ==> infos[i].name != infos[j].name
  {
    forall i | 0 <= i < |infos|
      ensures infos[i].name == done[i]
    {
    }
    forall ns | ns in names
      ensures exists i :: 0 <= i < |infos| && infos[i].name == ns
    {
      var i :| 0 <= i < |done| && done[i] == ns;
      assert infos[i].name == ns;
    }
  }

  /** `index_handler` without the template call: the number of distinct namespaces,
      their sorted list, and one entry per namespace listing its functions and views.
      The entries come in the unspecified order in which the set of namespaces is
      iterated. */
  method IndexHandler(records: seq<CatalogRecord>) returns (root: SchemaRoot)
    ensures root.namespacesCount == |Namespaces(records)|
    ensures StrictlySorted(root.schemas) && forall ns :: ns in root.schemas <==> ns in Namespaces(records)
    ensures |root.schemas| == root.namespacesCount
    ensures |root.namespaces| == root.namespacesCount
    ensures forall i :: 0 <= i < |root.namespaces| ==> root.namespaces[i] == InfoFor(records, root.namespaces[i].name)
    ensures forall ns :: ns in Namespaces(records) <==>
              exists i :: 0 <= i < |root.namespaces| && root.namespaces[i].name == ns
    ensures forall i, j :: 0 <= i < j < |root.namespaces| ==> root.namespaces[i].name != root.namespaces[j].name
  {
    var names := Namespaces(records);
    var schemas := SortedNamespaces(records);
    SortedNamespacesUnique(records, schemas);
    root := SchemaRoot(|names|, schemas, []);
    var remaining := names;
    ghost var done: seq<string> := [];
    while remaining != {}
      invariant root.namespacesCount == |names| && root.schemas == schemas
      invariant Visited(records, names, remaining, done, root.namespaces)
      decreases |remaining|
    {
      var schema :| schema in remaining;
      var views := Select(records, schema, "view");
      var udfs := Select(records, schema, "UDF");
      var info := SchemaInfo(schema, Entries(udfs), Entries(views));
      VisitStep(records, names, remaining, done, root.namespaces, schema);
      root := root.(namespaces := root.namespaces + [info]);
      remaining := remaining - {schema};
      done := done + [schema];
    }
    VisitedAll(records, names, done, root.namespaces);
  }
}
