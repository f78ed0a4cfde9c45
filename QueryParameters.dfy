/**
 * The query-parameter table a simulation builds once from its URL's search
 * string (`?name=value&name=value...`), and the lookup `getQueryParameter`.
 * `decodeURIComponent` is a parameter `decode` of the model: its
 * percent-decoding is not modelled.
 */
module QueryParameters {
  import opened Wrappers

  /** The pieces joined back together with the separator between them. */
  function Join(parts: seq<string>, sep: char): string
    requires |parts| > 0
    decreases |parts|
  {
    if |parts| == 1 then parts[0] else parts[0] + [sep] + Join(parts[1..], sep)
  }

  /**
   * `String.prototype.split` with a one-character separator: the maximal
   * runs between separators, in order, empty ones included; "" gives [""].
   */
  function Split(s: string, sep: char): (parts: seq<string>)
    decreases |s|
    ensures |parts| > 0
    ensures forall i :: 0 <= i < |parts| ==> sep !in parts[i]
    ensures Join(parts, sep) == s
  {
    if |s| == 0 then
      [""]
    else
      var rest := Split(s[1..], sep);
      if s[0] == sep then
        var parts := [""] + rest;
        assert parts[1..] == rest;
        parts
      else
        var parts := [[s[0]] + rest[0]] + rest[1..];
        assert parts[1..] == rest[1..];
        assert s == [s[0]] + s[1..];
        parts
  }

  /** A string without the separator is one piece. */
  lemma {:induction false} SplitWithoutSeparator(a: string, sep: char)
    requires sep !in a
    ensures Split(a, sep) == [a]
    decreases |a|
  {
    if |a| > 0 {
      SplitWithoutSeparator(a[1..], sep);
      assert a == [a[0]] + a[1..];
    }
  }

  /** Splitting at the first separator: the text before it is the first piece. */
  lemma {:induction false} SplitAtFirstSeparator(a: string, b: string, sep: char)
    requires sep !in a
    ensures Split(a + [sep] + b, sep) == [a] + Split(b, sep)
    decreases |a|
  {
    if |a| == 0 {
      assert a + [sep] + b == [sep] + b;
      assert ([sep] + b)[1..] == b;
    } else {
      assert (a + [sep] + b)[1..] == a[1..] + [sep] + b;
      SplitAtFirstSeparator(a[1..], b, sep);
      assert a == [a[0]] + a[1..];
    }
  }

  /** Split undoes Join for pieces free of the separator. */
  lemma {:induction false} SplitJoin(parts: seq<string>, sep: char)
    requires |parts| > 0 && forall i :: 0 <= i < |parts| ==> sep !in parts[i]
    ensures Split(Join(parts, sep), sep) == parts
    decreases |parts|
  {
    if |parts| == 1 {
      SplitWithoutSeparator(parts[0], sep);
    } else {
      SplitJoin(parts[1..], sep);
      SplitAtFirstSeparator(parts[0], Join(parts[1..], sep), sep);
      assert parts == [parts[0]] + parts[1..];
    }
  }

  /** The parameters of a search string: its first character (the `?`) dropped, the rest split on `&`; none when it is empty. */
  function Params(search: string): (params: seq<string>)
    ensures |search| == 0 ==> params == []
    ensures |search| > 0 ==> |params| > 0 && Join(params, '&') == search[1..]
  {
    if |search| == 0 then [] else Split(search[1..], '&')
  }

  /** The key of a `name=value` parameter: the text before its first `=`, or all of it. */
  function PairKey(param: string): (key: string)
    ensures '=' !in key
    ensures key == param || (|key| < |param| && param[..|key|] == key && param[|key|] == '=')
  {
    var pair := Split(param, '=');
    if |pair| == 1 then
      pair[0]
    else
      assert param == pair[0] + ['='] + Join(pair[1..], '=');
      assert param[..|pair[0]|] == pair[0];
      pair[0]
  }

  /**
   * The value of a parameter: the decoded text between its first and second
   * `=`. With no `=` the second piece is `undefined`, which
   * `decodeURIComponent` turns into the text "undefined" before decoding.
   */
  function PairValue(param: string, decode: string -> string): string
  {
    var pair := Split(param, '=');
    if |pair| >= 2 then decode(pair[1]) else decode("undefined")
  }

  /** The table after recording the given parameters in order; a later key overwrites an earlier one. */
  function ParamsMap(params: seq<string>, decode: string -> string): map<string, string>
    decreases |params|
  {
    if |params| == 0 then
      map[]
    else
      var last := params[|params| - 1];
      ParamsMap(params[..|params| - 1], decode)[PairKey(last) := PairValue(last, decode)]
  }

  /** A key is in the table exactly when some parameter has it. */
  lemma {:induction false} ParamsMapKeys(params: seq<string>, decode: string -> string, k: string)
    ensures k in ParamsMap(params, decode) <==> exists i :: 0 <= i < |params| && PairKey(params[i]) == k
    decreases |params|
  {
    if |params| > 0 {
      var init := params[..|params| - 1];
      ParamsMapKeys(init, decode, k);
      assert forall i :: 0 <= i < |init| ==> init[i] == params[i];
    }
  }

  /** A key's entry is the value of the last parameter that has it. */
  lemma {:induction false} ParamsMapLastWins(params: seq<string>, decode: string -> string, i: nat)
    requires i < |params|
    requires forall j :: i < j < |params| ==> PairKey(params[j]) != PairKey(params[i])
    ensures PairKey(params[i]) in ParamsMap(params, decode)
    ensures ParamsMap(params, decode)[PairKey(params[i])] == PairValue(params[i], decode)
    decreases |params|
  {
    if i < |params| - 1 {
      var init := params[..|params| - 1];
      assert init[i] == params[i];
      forall j | i < j < |init| ensures PairKey(init[j]) != PairKey(init[i]) {
        assert init[j] == params[j];
      }
      ParamsMapLastWins(init, decode, i);
    }
  }

  /** The table `queryParamsMap` for a search string. */
  function QueryParamsMap(search: string, decode: string -> string): map<string, string>
  {
    ParamsMap(Params(search), decode)
  }

  /** The loop that fills `queryParamsMap`, one parameter at a time. */
  method BuildQueryParamsMap(search: string, decode: string -> string) returns (m: map<string, string>)
    ensures m == QueryParamsMap(search, decode)
    ensures |search| == 0 ==> m == map[]
  {
    m := map[];
    if |search| > 0 {
      var params := Split(search[1..], '&');
      var i := 0;
      while i < |params|
        invariant 0 <= i <= |params|
        invariant m == ParamsMap(params[..i], decode)
      {
        var nameValuePair := Split(params[i], '=');
        var value := if |nameValuePair| >= 2 then decode(nameValuePair[1]) else decode("undefined");
        assert params[..i + 1][..i] == params[..i];
        m := m[nameValuePair[0] := value];
        i := i + 1;
      }
      assert params[..i] == params;
    }
  }

  /** `getQueryParameter`: the table's entry for the key, or undefined (None) when there is none. */
  function GetQueryParameter(queryParamsMap: map<string, string>, key: string): (r: Option<string>)
    ensures r.Some? <==> key in queryParamsMap
    ensures r.Some? ==> r.value == queryParamsMap[key]
  {
    if key in queryParamsMap then Some(queryParamsMap[key]) else None
  }

  /** A lookup finds a value exactly when some parameter of the search string has that key. */
  lemma LookupFindsParameter(search: string, decode: string -> string, key: string)
    ensures GetQueryParameter(QueryParamsMap(search, decode), key).Some? <==>
              exists i :: 0 <= i < |Params(search)| && PairKey(Params(search)[i]) == key
  {
    ParamsMapKeys(Params(search), decode, key);
  }

  /** Every `=` after the second is discarded with whatever follows it. */
  lemma ValueStopsAtSecondEquals(name: string, value: string, rest: string, decode: string -> string)
    requires '=' !in name && '=' !in value
    ensures PairKey(name + "=" + value + "=" + rest) == name
    ensures PairValue(name + "=" + value + "=" + rest, decode) == decode(value)
  {
    var param := name + "=" + value + "=" + rest;
    assert param == name + ['='] + (value + ['='] + rest);
    SplitAtFirstSeparator(name, value + ['='] + rest, '=');
    SplitAtFirstSeparator(value, rest, '=');
  }

  /** A parameter without `=` is recorded under its whole text with the decoded "undefined". */
  lemma BareNameIsRecorded(name: string, decode: string -> string)
    requires '=' !in name
    ensures PairKey(name) == name
    ensures PairValue(name, decode) == decode("undefined")
  {
    SplitWithoutSeparator(name, '=');
  }

  /** With `?a=1&a=2` the table keeps the last value of `a`, not the first. */
  lemma LastOccurrenceWins(name: string, v1: string, v2: string, decode: string -> string)
    requires '=' !in name && '=' !in v1 && '=' !in v2
    requires '&' !in name && '&' !in v1 && '&' !in v2
    ensures QueryParamsMap("?" + name + "=" + v1 + "&" + name + "=" + v2, decode) == map[name := decode(v2)]
  {
    var p1, p2 := name + "=" + v1, name + "=" + v2;
    var search := "?" + name + "=" + v1 + "&" + name + "=" + v2;
    assert search[1..] == p1 + ['&'] + p2;
    assert Join([p1, p2], '&') == p1 + ['&'] + Join([p2], '&');
    PairHasNoAmpersand(name, v1);
    PairHasNoAmpersand(name, v2);
    SplitJoin([p1, p2], '&');
    assert Params(search) == [p1, p2];
    SimplePair(name, v1, decode);
    SimplePair(name, v2, decode);
    assert [p1, p2][..1] == [p1];
    assert [p1][..0] == [];
    assert ParamsMap([p1], decode) == map[name := decode(v1)];
    assert ParamsMap([p1, p2], decode) == map[name := decode(v1)][name := decode(v2)];
  }

  lemma PairHasNoAmpersand(name: string, value: string)
    requires '&' !in name && '&' !in value
    ensures '&' !in name + "=" + value
  {
  }

  lemma SimplePair(name: string, value: string, decode: string -> string)
    requires '=' !in name && '=' !in value
    ensures PairKey(name + "=" + value) == name
    ensures PairValue(name + "=" + value, decode) == decode(value)
  {
    SplitAtFirstSeparator(name, value, '=');
    SplitWithoutSeparator(value, '=');
  }
}
