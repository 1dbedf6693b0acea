/** One API example card (ApiCallExampleCard): its parameter form, the request URL it builds
    from the form and the primary base URL, and how it turns the answer into a response or an
    error message. */
module ExampleCard {
  import opened Wrappers
  import JsText
  import Json
  import opened Fetch
  import opened Records
  import FormUrlEncoded

  datatype ParamDefault = NoDefault | TextDefault(text: string) | NumberDefault(number: int)

  /** A declared query parameter; its label, placeholder and input type only affect rendering and are left out. */
  datatype ApiParam = ApiParam(name: string, defaultValue: ParamDefault)

  datatype ApiExample = ApiExample(id: string, pathTemplate: string, queryParams: seq<ApiParam>)

  const NoBaseUrl := "主 API 基础URL未设置。API调用需要此URL。"
  const UnknownError := "发生未知错误。"
  /** The TypeError a JavaScript engine (V8's wording) throws for `data.error` when the body is `null`. */
  const NullErrorAccess := "Cannot read properties of null (reading 'error')"
  /** The TypeError V8 throws when `String` finds no method that yields a primitive. */
  const PrimitiveConversion := "Cannot convert object to primitive value"

  /** `String(p.defaultValue)` when a default is declared, `''` otherwise. */
  function DefaultText(p: ApiParam): string {
    match p.defaultValue
    case NoDefault => ""
    case TextDefault(t) => t
    case NumberDefault(n) => JsText.IntToDecimal(n)
  }

  function Names(params: seq<ApiParam>): (names: seq<string>)
    ensures |names| == |params| && forall i :: 0 <= i < |params| ==> names[i] == params[i].name
  {
    seq(|params|, i requires 0 <= i < |params| => params[i].name)
  }

  /** The dictionary the `forEach` over the declared parameters builds, one write per parameter. */
  function InitialValues(params: seq<ApiParam>): Record {
    if params == [] then []
    else
      var last := params[|params| - 1];
      Put(InitialValues(params[..|params| - 1]), last.name, DefaultText(last))
  }

  /** The initial dictionary has distinct keys, exactly the declared names. */
  lemma {:induction false} InitialValuesKeys(params: seq<ApiParam>)
    ensures DistinctKeys(InitialValues(params))
    ensures forall k :: k in Keys(InitialValues(params)) <==> k in Names(params)
  {
    if params != [] {
      var init := params[..|params| - 1];
      var last := params[|params| - 1];
      InitialValuesKeys(init);
      PutDistinct(InitialValues(init), last.name, DefaultText(last));
      assert Names(params) == Names(init) + [last.name];
    }
  }

  /** The entries a form starts with when no name is declared twice: one per parameter, in declaration order. */
  function DeclaredEntries(params: seq<ApiParam>): (r: Record)
    ensures |r| == |params|
  {
    seq(|params|, i requires 0 <= i < |params| => (params[i].name, DefaultText(params[i])))
  }

  /** One more parameter adds its entry at the end. */
  lemma DeclaredEntriesSnoc(params: seq<ApiParam>)
    requires params != []
    ensures var last := params[|params| - 1];
            DeclaredEntries(params) == DeclaredEntries(params[..|params| - 1]) + [(last.name, DefaultText(last))]
  {
  }

  /** With distinct names, no earlier entry carries the last parameter's name. */
  lemma LastEntryNew(params: seq<ApiParam>)
    requires params != []
    requires forall i, j :: 0 <= i < j < |params| ==> params[i].name != params[j].name
    ensures var r := DeclaredEntries(params[..|params| - 1]);
            forall i :: 0 <= i < |r| ==> r[i].0 != params[|params| - 1].name
  {
  }

  lemma {:induction false} InitialValuesInOrder(params: seq<ApiParam>)
    requires forall i, j :: 0 <= i < j < |params| ==> params[i].name != params[j].name
    ensures InitialValues(params) == DeclaredEntries(params)
  {
    if params != [] {
      var init := params[..|params| - 1];
      var last := params[|params| - 1];
      InitialValuesInOrder(init);
      LastEntryNew(params);
      PutNew(DeclaredEntries(init), last.name, DefaultText(last));
      DeclaredEntriesSnoc(params);
    }
  }

  /** Declaring one more parameter adds its name at the end. */
  lemma NamesSnoc(params: seq<ApiParam>)
    requires params != []
    ensures Names(params) == Names(params[..|params| - 1]) + [params[|params| - 1].name]
  {
  }

  /** With distinct names, the last parameter's name is not among the earlier ones. */
  lemma LastNameNew(params: seq<ApiParam>)
    requires params != []
    requires forall i, j :: 0 <= i < j < |params| ==> params[i].name != params[j].name
    ensures params[|params| - 1].name !in Names(params[..|params| - 1])
  {
    var init := params[..|params| - 1];
    forall i | 0 <= i < |init| ensures Names(init)[i] != params[|params| - 1].name {
      assert init[i] == params[i];
    }
  }

  /** Writing the last parameter's default keeps every earlier parameter's value. */
  lemma InitialValuesDefaultAt(params: seq<ApiParam>, i: nat)
    requires i < |params|
    requires forall i, j :: 0 <= i < j < |params| ==> params[i].name != params[j].name
    requires var init := params[..|params| - 1];
             forall j :: 0 <= j < |init| ==> Get(InitialValues(init), init[j].name) == Some(DefaultText(init[j]))
    ensures Get(InitialValues(params), params[i].name) == Some(DefaultText(params[i]))
  {
    var init := params[..|params| - 1];
    var last := params[|params| - 1];
    PutGet(InitialValues(init), last.name, DefaultText(last), params[i].name);
    if i < |params| - 1 {
      assert init[i] == params[i];
    }
  }

  /** For distinct declared names (as every example declares), the keys come in declaration
      order and each holds its parameter's default text. */
  lemma {:induction false} InitialValuesDefaults(params: seq<ApiParam>)
    requires forall i, j :: 0 <= i < j < |params| ==> params[i].name != params[j].name
    ensures Keys(InitialValues(params)) == Names(params)
    ensures forall i :: 0 <= i < |params| ==> Get(InitialValues(params), params[i].name) == Some(DefaultText(params[i]))
  {
    if params != [] {
      var init := params[..|params| - 1];
      InitialValuesDefaults(init);
      NamesSnoc(params);
      LastNameNew(params);
      forall i | 0 <= i < |params| ensures Get(InitialValues(params), params[i].name) == Some(DefaultText(params[i])) {
        InitialValuesDefaultAt(params, i);
      }
    }
  }

  /** The lazy initialiser of `paramValues`. */
  method InitialParamValues(params: seq<ApiParam>) returns (initialParams: Record)
    ensures initialParams == InitialValues(params)
  {
    initialParams := [];
    var i := 0;
    while i < |params|
      invariant 0 <= i <= |params|
      invariant initialParams == InitialValues(params[..i])
    {
      var p := params[i];
      assert params[..i + 1][..i] == params[..i];
      if p.defaultValue != NoDefault {
        initialParams := Put(initialParams, p.name, DefaultText(p));
      } else {
        initialParams := Put(initialParams, p.name, "");
      }
      i := i + 1;
    }
    assert params[..i] == params;
  }

  /** The entries the `for...in` loop appends to the query: those whose value is truthy, that is, not empty. */
  function Kept(values: Record): seq<(string, string)> {
    if values == [] then []
    else (if values[0].1 != "" then [values[0]] else []) + Kept(values[1..])
  }

  /** An entry is kept exactly when it is in the dictionary with a non-empty value; so `"0"` is kept. */
  lemma {:induction false} KeptMembers(values: Record)
    ensures forall p :: p in Kept(values) <==> p in values && p.1 != ""
  {
    if values != [] {
      KeptMembers(values[1..]);
      assert values == [values[0]] + values[1..];
    }
  }

  /** Filtering distributes over concatenation, so kept entries stay in dictionary order. */
  lemma {:induction false} KeptAppend(xs: Record, ys: Record)
    ensures Kept(xs + ys) == Kept(xs) + Kept(ys)
  {
    if xs == [] {
      assert xs + ys == ys;
    } else {
      assert (xs + ys)[1..] == xs[1..] + ys;
      KeptAppend(xs[1..], ys);
    }
  }

  /** The query holds the key k exactly when `paramValues[k]` is a non-empty string, and then with that value. */
  lemma KeptKeys(values: Record, k: string)
    requires DistinctKeys(values)
    ensures (exists v :: (k, v) in Kept(values)) <==> Get(values, k).Some? && Get(values, k).value != ""
    ensures forall v :: (k, v) in Kept(values) ==> Get(values, k) == Some(v)
  {
    KeptMembers(values);
    forall v | (k, v) in Kept(values) ensures Get(values, k) == Some(v) {
      var i :| 0 <= i < |values| && values[i] == (k, v);
      GetEntry(values, i);
    }
    if Get(values, k).Some? && Get(values, k).value != "" {
      assert (k, Get(values, k).value) in Kept(values);
    }
  }

  /** The `for...in` loop of `handleSubmit`: it appends `key, paramValues[key]` for every key whose
      value is truthy. With distinct keys, `paramValues[key]` is the value stored beside the key. */
  method QueryEntries(paramValues: Record) returns (query: seq<(string, string)>)
    ensures query == Kept(paramValues)
  {
    query := [];
    var i := 0;
    while i < |paramValues|
      invariant 0 <= i <= |paramValues|
      invariant query == Kept(paramValues[..i])
    {
      var (key, value) := paramValues[i];
      KeptAppend(paramValues[..i], [paramValues[i]]);
      assert paramValues[..i + 1] == paramValues[..i] + [paramValues[i]];
      if value != "" {
        query := query + [(key, value)];
      }
      i := i + 1;
    }
    assert paramValues[..i] == paramValues;
  }

  /** `${apiBaseUrl.replace(/\/$/, '')}${example.pathTemplate}?${query.toString()}` */
  function RequestUrl(apiBaseUrl: string, pathTemplate: string, values: Record): string {
    JsText.StripTrailingSlash(apiBaseUrl) + pathTemplate + "?" + FormUrlEncoded.Serialize(Kept(values))
  }

  /** The URL is the base less one trailing slash, the path and a `?` that is always there,
      followed by a query string that parses back to exactly the kept entries. */
  lemma RequestUrlQuery(apiBaseUrl: string, pathTemplate: string, values: Record)
    ensures var prefix := JsText.StripTrailingSlash(apiBaseUrl) + pathTemplate + "?";
            var url := RequestUrl(apiBaseUrl, pathTemplate, values);
            |prefix| <= |url| && url[..|prefix|] == prefix
            && FormUrlEncoded.ParseQuery(url[|prefix|..]) == Kept(values)
  {
    var prefix := JsText.StripTrailingSlash(apiBaseUrl) + pathTemplate + "?";
    var q := FormUrlEncoded.Serialize(Kept(values));
    assert RequestUrl(apiBaseUrl, pathTemplate, values) == prefix + q;
    assert (prefix + q)[|prefix|..] == q;
    FormUrlEncoded.ParseSerialize(Kept(values));
  }

  function StatusMessage(status: nat): string {
    "请求失败，状态码: " + JsText.NatToDecimal(status)
  }

  /** `err.message || "发生未知错误。"` */
  function OrUnknown(message: string): (m: string)
    ensures m != ""
    ensures message != "" ==> m == message
    ensures message == "" ==> m == UnknownError
  {
    if message != "" then message else UnknownError
  }

  /** The message of what `throw new Error(data.error || status message)` throws for a body that is
      not `null`: the new error's, or the TypeError's when `data.error` cannot become a string. */
  function ThrownMessage(data: Json.Json, status: nat): string
    requires !data.JNull?
  {
    match Json.ErrorProperty(data)
    case Some(e) =>
      if !Json.Truthy(e) then StatusMessage(status)
      else if Json.ToJsString(e).Some? then Json.ToJsString(e).value
      else PrimitiveConversion
    case None => StatusMessage(status)
  }

  /** The `try` block of `handleSubmit`: the body is parsed before `ok` is looked at, so an
      unparsable body reports the parse error even for a failed status. */
  function ResponseOutcome(a: Attempt): (r: Result<Json.Json, string>)
    ensures r.Ok? <==> a.Response? && a.ok && a.body.Parsed?
    ensures r.Ok? ==> r.value == a.body.value
    ensures r.Err? ==> r.error != ""
    ensures a.TransportFailure? ==> r == Err(OrUnknown(a.message))
    ensures a.Response? && a.body.Unparsable? ==> r == Err(OrUnknown(a.body.message))
    ensures a.Response? && !a.ok && a.body.Parsed? && a.body.value.JNull? ==> r == Err(NullErrorAccess)
  {
    match a
    case TransportFailure(message) => Err(OrUnknown(message))
    case Response(ok, status, body) =>
      match body
      case Unparsable(message) => Err(OrUnknown(message))
      case Parsed(data) =>
        if ok then Ok(data)
        else if data.JNull? then Err(NullErrorAccess)
        else Err(OrUnknown(ThrownMessage(data, status)))
  }

  /** A failed status whose body carries a non-empty `error` string reports that string. */
  lemma ResponseErrorField(status: nat, members: seq<(string, Json.Json)>, message: string)
    requires Json.Member(members, "error") == Some(Json.JString(message)) && message != ""
    ensures ResponseOutcome(Response(false, status, Parsed(Json.JObject(members)))) == Err(message)
  {
  }

  /** A failed status whose body has no truthy `error` reports the status code. */
  lemma ResponseStatusCode(status: nat, data: Json.Json)
    requires !data.JNull?
    requires var e := Json.ErrorProperty(data); e.None? || !Json.Truthy(e.value)
    ensures ResponseOutcome(Response(false, status, Parsed(data))) == Err(StatusMessage(status))
  {
    assert StatusMessage(status) != "";
  }

  /** A failed status whose `error` is an object with its own `toString` reports the TypeError
      that `new Error` raises while converting it. */
  lemma ResponseUnconvertibleError(status: nat, members: seq<(string, Json.Json)>, e: Json.Json)
    requires Json.Member(members, "error") == Some(e)
    requires e.JObject? && Json.OwnToString(e.members)
    ensures ResponseOutcome(Response(false, status, Parsed(Json.JObject(members)))) == Err(PrimitiveConversion)
  {
  }

  /** The form and the request state of one card. JavaScript's `null` response is `None`, so an
      ok answer whose body is `null` leaves the same state as no response. */
  class Card {
    const example: ApiExample
    var paramValues: Record
    var response: Option<Json.Json>
    var error: Option<string>
    var isLoading: bool
    var requestUrl: Option<string>

    /** A JavaScript object never holds a key twice. */
    ghost predicate Valid()
      reads this
    {
      DistinctKeys(paramValues)
    }

    constructor (example: ApiExample)
      ensures this.example == example && Valid()
      ensures paramValues == InitialValues(example.queryParams)
      ensures response == None && error == None && !isLoading && requestUrl == None
    {
      this.example := example;
      var initial := InitialParamValues(example.queryParams);
      InitialValuesKeys(example.queryParams);
      paramValues := initial;
      response := None;
      error := None;
      isLoading := false;
      requestUrl := None;
    }

    /** `handleParamChange`: the named key takes the new value; nothing else changes. */
    method HandleParamChange(paramName: string, value: string)
      requires Valid()
      modifies this`paramValues
      ensures Valid()
      ensures paramValues == Put(old(paramValues), paramName, value)
    {
      PutDistinct(paramValues, paramName, value);
      paramValues := Put(paramValues, paramName, value);
    }

    /** `handleSubmit` against the primary base URL, with the answer to its request supplied by `fetch`. */
    method HandleSubmit(apiBaseUrl: string, fetch: string -> Attempt)
      requires Valid()
      modifies this`response, this`error, this`isLoading, this`requestUrl
      ensures Valid()
      ensures apiBaseUrl == "" ==>
                error == Some(NoBaseUrl) && response == old(response)
                && isLoading == old(isLoading) && requestUrl == old(requestUrl)
      ensures apiBaseUrl != "" ==>
                var url := RequestUrl(apiBaseUrl, example.pathTemplate, paramValues);
                requestUrl == Some(url) && !isLoading
                && match ResponseOutcome(fetch(url))
                   case Ok(data) => response == (if data.JNull? then None else Some(data)) && error == None
                   case Err(message) => response == None && error == Some(message)
    {
      if apiBaseUrl == "" {
        error := Some(NoBaseUrl);
        return;
      }
      isLoading := true;
      error := None;
      response := None;

      var query := QueryEntries(paramValues);
      var fullUrl := JsText.StripTrailingSlash(apiBaseUrl) + example.pathTemplate + "?" + FormUrlEncoded.Serialize(query);
      assert fullUrl == RequestUrl(apiBaseUrl, example.pathTemplate, paramValues);
      requestUrl := Some(fullUrl);

      var outcome := ResponseOutcome(fetch(fullUrl));
      match outcome {
        case Ok(data) =>
          response := if data.JNull? then None else Some(data);
        case Err(message) =>
          error := Some(message);
          response := None;
      }
      isLoading := false;
    }
  }
}

/** The "/roads" example card and the requests it makes. */
module RoadsExample {
  import JsText
  import opened ExampleCard

  const Roads := ApiExample("get-roads-complex", "/roads", [
    ApiParam("district", NoDefault),
    ApiParam("street", NoDefault),
    ApiParam("name", NoDefault),
    ApiParam("page", NumberDefault(1)),
    ApiParam("pageSize", NumberDefault(20))
  ])

  lemma RoadsNamesDistinct()
    ensures forall i, j :: 0 <= i < j < |Roads.queryParams| ==> Roads.queryParams[i].name != Roads.queryParams[j].name
  {
    var ps := Roads.queryParams;
    assert Names(ps) == ["district", "street", "name", "page", "pageSize"];
  }

  /** Undeclared defaults start empty; numeric defaults start as their decimal text. */
  lemma RoadsInitialValues()
    ensures InitialValues(Roads.queryParams)
            == [("district", ""), ("street", ""), ("name", ""), ("page", "1"), ("pageSize", "20")]
  {
    RoadsNamesDistinct();
    InitialValuesInOrder(Roads.queryParams);
    RoadsEntries();
  }

  lemma RoadsEntries()
    ensures DeclaredEntries(Roads.queryParams)
            == [("district", ""), ("street", ""), ("name", ""), ("page", "1"), ("pageSize", "20")]
  {
    var ps := Roads.queryParams;
    var e := DeclaredEntries(ps);
    assert e[0] == ("district", "") && e[1] == ("street", "") && e[2] == ("name", "");
    assert e[3] == ("page", "1");
    assert DefaultText(ps[4]) == "20" by {
      assert JsText.NatToDecimal(20) == JsText.NatToDecimal(2) + [JsText.DigitChar(0)];
    }
    assert e[4] == ("pageSize", "20");
  }

  /** Blank fields are not sent: untouched, the card asks only for the first page of twenty. */
  lemma RoadsDefaultQuery()
    ensures Kept(InitialValues(Roads.queryParams)) == [("page", "1"), ("pageSize", "20")]
  {
    RoadsInitialValues();
    var r := [("district", ""), ("street", ""), ("name", ""), ("page", "1"), ("pageSize", "20")];
    assert r[1..][1..][1..] == [("page", "1"), ("pageSize", "20")];
  }
}
