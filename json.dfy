/** The JSON values that `response.json()` can produce, and the few JavaScript
    operations the application applies to them. */
module Json {
  import opened Wrappers
  import JsText

  /** A parsed JSON value. Numbers are integers here; object members keep their textual order. */
  datatype Json =
    | JNull
    | JBool(b: bool)
    | JNumber(n: int)
    | JString(s: string)
    | JArray(items: seq<Json>)
    | JObject(members: seq<(string, Json)>)

  /** JavaScript truthiness: `null`, `false`, `0` and `""` are falsy, arrays and objects are truthy. */
  predicate Truthy(j: Json) {
    match j
    case JNull => false
    case JBool(b) => b
    case JNumber(n) => n != 0
    case JString(s) => s != ""
    case JArray(_) => true
    case JObject(_) => true
  }

  /** `Array.isArray(data) && data.every(item => typeof item === 'string')`, returning those strings. */
  function StringItems(j: Json): (r: Option<seq<string>>)
    ensures r.Some? <==> j.JArray? && forall i :: 0 <= i < |j.items| ==> j.items[i].JString?
    ensures r.Some? ==> |r.value| == |j.items| && forall i :: 0 <= i < |j.items| ==> j.items[i] == JString(r.value[i])
  {
    if j.JArray? && forall i :: 0 <= i < |j.items| ==> j.items[i].JString?
    then Some(seq(|j.items|, i requires 0 <= i < |j.items| => j.items[i].s))
    else None
  }

  /** The strings of a district list, wrapped as the JSON array that carries them. */
  function StringArray(xs: seq<string>): (j: Json)
    ensures StringItems(j) == Some(xs)
  {
    var j := JArray(seq(|xs|, i requires 0 <= i < |xs| => JString(xs[i])));
    assert StringItems(j).value == xs;
    j
  }

  /** A last member named `key` before one more member of another name stays the last one. */
  lemma LastMemberExtend(members: seq<(string, Json)>, key: string, v: Json)
    requires members != [] && members[|members| - 1].0 != key
    requires var init := members[..|members| - 1];
             exists i :: 0 <= i < |init| && init[i] == (key, v) && forall j :: i < j < |init| ==> init[j].0 != key
    ensures exists i :: 0 <= i < |members| && members[i] == (key, v)
                        && forall j :: i < j < |members| ==> members[j].0 != key
  {
    var init := members[..|members| - 1];
    var i :| 0 <= i < |init| && init[i] == (key, v) && forall j :: i < j < |init| ==> init[j].0 != key;
    assert members[i] == (key, v);
    forall j | i < j < |members| ensures members[j].0 != key {
      if j < |init| {
        assert init[j] == members[j];
      }
    }
  }

  /** The value of the last member named `key` (JSON.parse keeps the last duplicate), if any. */
  function Member(members: seq<(string, Json)>, key: string): (r: Option<Json>)
    ensures r.Some? <==> exists i :: 0 <= i < |members| && members[i].0 == key
    ensures r.Some? ==> exists i :: 0 <= i < |members| && members[i] == (key, r.value)
                                    && forall j :: i < j < |members| ==> members[j].0 != key
  {
    if members == [] then None
    else if members[|members| - 1].0 == key then Some(members[|members| - 1].1)
    else
      var r := Member(members[..|members| - 1], key);
      assert forall i :: 0 <= i < |members| - 1 ==> members[..|members| - 1][i] == members[i];
      if r.Some? then LastMemberExtend(members, key, r.value); r else r
  }

  /** `data.error` for a value that is not `null`: objects are looked up, every other value has no such property. */
  function ErrorProperty(j: Json): Option<Json>
    requires !j.JNull?
  {
    if j.JObject? then Member(j.members, "error") else None
  }

  /** An object with its own `toString` member: a JSON value is never callable, so `String` of it
      finds no method that returns a primitive and throws a TypeError. */
  predicate OwnToString(members: seq<(string, Json)>) {
    exists i :: 0 <= i < |members| && members[i].0 == "toString"
  }

  /** `String(value)`, the message `new Error(value)` carries, or `None` where the conversion throws.
      Arrays join their items with commas, printing a `null` item as nothing; objects print as
      `[object Object]` unless they have their own `toString`. */
  function ToJsString(j: Json): (r: Option<string>)
    decreases j
  {
    match j
    case JNull => Some("null")
    case JBool(b) => Some(if b then "true" else "false")
    case JNumber(n) => Some(JsText.IntToDecimal(n))
    case JString(s) => Some(s)
    case JArray(items) =>
      var parts := seq(|items|, i requires 0 <= i < |items| =>
                                  if items[i].JNull? then Some("") else ToJsString(items[i]));
      if forall i :: 0 <= i < |parts| ==> parts[i].Some?
      then Some(JsText.Join(",", seq(|parts|, i requires 0 <= i < |parts| && parts[i].Some? => parts[i].value)))
      else None
    case JObject(members) => if OwnToString(members) then None else Some("[object Object]")
  }

  /** A string converts to itself, every other scalar to a non-empty text, and an object to
      `[object Object]` exactly when it has no `toString` of its own. */
  lemma ToJsStringScalars(j: Json)
    requires !j.JArray?
    ensures j.JString? ==> ToJsString(j) == Some(j.s)
    ensures !j.JString? && !j.JObject? ==> ToJsString(j).Some? && ToJsString(j).value != ""
    ensures j.JObject? ==> (ToJsString(j).None? <==> OwnToString(j.members))
    ensures ToJsString(j).Some? && j.JObject? ==> ToJsString(j).value == "[object Object]"
  {
  }

  /** An array converts exactly when each of its items that is not `null` does, so an object with its
      own `toString` anywhere inside the array makes the conversion throw. */
  lemma {:induction false} ToJsStringArray(items: seq<Json>)
    ensures ToJsString(JArray(items)).None? <==>
            exists i :: 0 <= i < |items| && !items[i].JNull? && ToJsString(items[i]).None?
  {
    var parts := seq(|items|, i requires 0 <= i < |items| =>
                                if items[i].JNull? then Some("") else ToJsString(items[i]));
    assert forall i :: 0 <= i < |items| ==> parts[i] == (if items[i].JNull? then Some("") else ToJsString(items[i]));
  }
}
