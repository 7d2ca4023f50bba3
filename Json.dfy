/** The JSON values the data files hold, and the two ways the source reads
    them through nlohmann::json: `j[key]` converted to a type (the user
    loaders) and `j.value(key, default)` (every other loader and
    `from_json`). A conversion that nlohmann reports by throwing is None. */
module Json {
  import opened Wrappers

  /** A JSON value. Numbers are integers: every number the files hold is a
      count, an index or a whole number of seconds. */
  datatype Json =
    | Null
    | Bool(b: bool)
    | Num(n: int)
    | Str(s: string)
    | Arr(items: seq<Json>)
    | Obj(fields: map<string, Json>)

  /** `get<std::string>()`. */
  function AsString(j: Json): Option<string> {
    if j.Str? then Some(j.s) else None
  }

  /** `get<int>()`. */
  function AsInt(j: Json): Option<int> {
    if j.Num? then Some(j.n) else None
  }

  /** `get<std::vector<T>>()` on the items of an array: every item must
      convert, and the list holds the converted items in order. */
  function Each<T>(items: seq<Json>, get: Json -> Option<T>): (r: Option<seq<T>>)
    ensures r.Some? <==> forall i :: 0 <= i < |items| ==> get(items[i]).Some?
    ensures r.Some? ==> |r.value| == |items| && forall i :: 0 <= i < |items| ==> get(items[i]) == Some(r.value[i])
  {
    if |items| == 0 then Some([])
    else
      var x := get(items[0]);
      var rest := Each(items[1..], get);
      if x.Some? && rest.Some? then Some([x.value] + rest.value) else None
  }

  /** `get<std::vector<T>>()` on any value: only an array converts. */
  function ListOf<T>(j: Json, get: Json -> Option<T>): Option<seq<T>> {
    if j.Arr? then Each(j.items, get) else None
  }

  /** The items of the array that `to_json` writes for a vector. */
  function Items<T>(xs: seq<T>, put: T -> Json): (r: seq<Json>)
    ensures |r| == |xs|
  {
    if |xs| == 0 then [] else [put(xs[0])] + Items(xs[1..], put)
  }

  /** Reading back the array written for a vector gives the vector, when the
      item conversion undoes the item encoding. */
  lemma {:induction false} EachItems<T>(xs: seq<T>, put: T -> Json, get: Json -> Option<T>)
    requires forall x :: get(put(x)) == Some(x)
    ensures Each(Items(xs, put), get) == Some(xs)
  {
    if |xs| > 0 {
      EachItems(xs[1..], put, get);
      assert Items(xs, put)[1..] == Items(xs[1..], put);
      assert [xs[0]] + xs[1..] == xs;
    }
  }

  /** `j[key]` converted with get, as the user loaders read a field: j must
      be an object holding key (a const lookup of a missing key is
      undefined) and the field must convert. */
  function Field<T>(j: Json, key: string, get: Json -> Option<T>): Option<T> {
    if j.Obj? && key in j.fields then get(j.fields[key]) else None
  }

  /** `j.value(key, d)`: a type error unless j is an object, d when the key
      is missing, otherwise the field converted with get (a type error when
      it does not convert). */
  function Value<T>(j: Json, key: string, d: T, get: Json -> Option<T>): Option<T> {
    if !j.Obj? then None
    else if key !in j.fields then Some(d)
    else get(j.fields[key])
  }

  /** `j.value(key, std::vector<T>{})`. */
  function ValueList<T>(j: Json, key: string, get: Json -> Option<T>): Option<seq<T>> {
    Value(j, key, [], (x: Json) => ListOf(x, get))
  }

  /** The vector of strings `to_json` writes. */
  function Strings(ss: seq<string>): Json {
    Arr(Items(ss, (s: string) => Str(s)))
  }

  /** The vector of integers `to_json` writes. */
  function Ints(xs: seq<int>): Json {
    Arr(Items(xs, (x: int) => Num(x)))
  }

  /** A written vector of strings reads back as itself. */
  lemma StringsRoundTrip(ss: seq<string>)
    ensures ListOf(Strings(ss), AsString) == Some(ss)
  {
    EachItems(ss, (s: string) => Str(s), AsString);
  }

  /** A written vector of integers reads back as itself. */
  lemma IntsRoundTrip(xs: seq<int>)
    ensures ListOf(Ints(xs), AsInt) == Some(xs)
  {
    EachItems(xs, (x: int) => Num(x), AsInt);
  }
}
