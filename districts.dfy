/** Loading the district list for the dropdowns: the App component's district state and its
    `fetchDistricts`, which tries the secondary base URL, then the primary one, and keeps the
    first list that arrives intact. */
module Districts {
  import opened Wrappers
  import JsText
  import Json
  import opened Fetch

  const PrimaryDefaultBaseUrl := "https://guangzhou-api-v2.526404.xyz"
  const SecondaryDefaultBaseUrl := "https://guangzhou-api-v2.2748685958.workers.dev"

  const SecondaryName := "备选URL"
  const PrimaryName := "主URL"

  /** Shown when both base URLs are blank; no request is made then. */
  const NoUrlConfigured := "主API基础URL和备选API基础URL均未设置。"
  /** Shown when every candidate failed and none left a message. */
  const NothingLoaded := "无法从任何配置的URL加载行政区列表。"

  /** One entry of `urlsToTry`: a normalised base URL and the name used in messages. */
  datatype Candidate = Candidate(url: string, name: string)

  /** The base URL as `fetchDistricts` uses it: trimmed, then one trailing slash removed. */
  function Normalize(base: string): string {
    JsText.StripTrailingSlash(JsText.Trim(base))
  }

  /** `urlsToTry`: the secondary URL when it is not blank, then the primary URL when it is not blank. */
  function Candidates(secondary: string, primary: string): (cs: seq<Candidate>)
    ensures |cs| <= 2
    ensures cs == [] <==> JsText.Trim(secondary) == "" && JsText.Trim(primary) == ""
    ensures JsText.Trim(secondary) != "" ==> cs[0] == Candidate(Normalize(secondary), SecondaryName)
    ensures JsText.Trim(primary) != "" ==> cs[|cs| - 1] == Candidate(Normalize(primary), PrimaryName)
    ensures |cs| == 2 <==> JsText.Trim(secondary) != "" && JsText.Trim(primary) != ""
  {
    (if JsText.Trim(secondary) != "" then [Candidate(Normalize(secondary), SecondaryName)] else [])
    + (if JsText.Trim(primary) != "" then [Candidate(Normalize(primary), PrimaryName)] else [])
  }

  /** What a candidate's URL keeps of the configured value: the trimmed text, less at most one final slash. */
  lemma CandidateUrl(base: string)
    ensures var t := JsText.Trim(base);
            Normalize(base) == t || Normalize(base) + "/" == t
    ensures Normalize(base) == [] || !JsText.IsWhiteSpace(Normalize(base)[0])
  {
    JsText.TrimSlice(base);
  }

  /** The request `fetchDistricts` sends for a candidate. */
  function DistrictsUrl(c: Candidate): string {
    c.url + "/districts"
  }

  /** `${name} (${url})`, kept in `lastUsedUrlForDistricts` after a success. */
  function Label(c: Candidate): string {
    c.name + " (" + c.url + ")"
  }

  function StatusFailure(c: Candidate, status: nat): string {
    "从 " + c.name + " (" + c.url + ") 获取行政区失败 - 状态: " + JsText.NatToDecimal(status)
  }

  function MalformedData(c: Candidate): string {
    "从 " + c.name + " (" + c.url + ") 获取的行政区数据格式不正确。"
  }

  /** The result of one iteration of the loop over `urlsToTry`. */
  datatype AttemptResult = Loaded(districts: seq<string>) | Failed(message: string)

  /** One candidate against the answer its request received. The status is checked before the
      body is read; only an array of strings is accepted. */
  function TryCandidate(c: Candidate, a: Attempt): (r: AttemptResult)
    ensures r.Loaded? <==> a.Response? && a.ok && a.body.Parsed? && Json.StringItems(a.body.value).Some?
    ensures r.Loaded? ==> Json.StringArray(r.districts) == Json.JArray(a.body.value.items)
    ensures a.TransportFailure? ==> r == Failed(a.message)
    ensures a.Response? && !a.ok ==> r == Failed(StatusFailure(c, a.status))
    ensures a.Response? && a.ok && a.body.Unparsable? ==> r == Failed(a.body.message)
    ensures a.Response? && a.ok && a.body.Parsed? && Json.StringItems(a.body.value).None? ==> r == Failed(MalformedData(c))
  {
    match a
    case TransportFailure(message) => Failed(message)
    case Response(ok, status, body) =>
      if !ok then Failed(StatusFailure(c, status))
      else match body
        case Unparsable(message) => Failed(message)
        case Parsed(data) =>
          match Json.StringItems(data)
          case Some(items) => Loaded(items)
          case None => Failed(MalformedData(c))
  }

  /** The fallback chain's result: the index of the candidate that loaded and its list, or one
      error message per candidate. */
  datatype Outcome = Success(index: nat, districts: seq<string>) | Exhausted(errors: seq<string>)

  /** Puts failures that happened before the rest of the chain in front of its outcome. */
  function Prefix(errors: seq<string>, o: Outcome): Outcome {
    match o
    case Success(k, d) => Success(k + |errors|, d)
    case Exhausted(es) => Exhausted(errors + es)
  }

  lemma PrefixPrefix(es: seq<string>, fs: seq<string>, o: Outcome)
    ensures Prefix(es, Prefix(fs, o)) == Prefix(es + fs, o)
  {
    if o.Exhausted? {
      assert es + (fs + o.errors) == (es + fs) + o.errors;
    }
  }

  /** The candidates tried in order, stopping at the first that loads. */
  function Resolve(cs: seq<Candidate>, fetch: string -> Attempt): (o: Outcome)
    ensures o.Success? ==> o.index < |cs|
                           && TryCandidate(cs[o.index], fetch(DistrictsUrl(cs[o.index]))) == Loaded(o.districts)
    ensures o.Exhausted? ==> |o.errors| == |cs|
  {
    if cs == [] then Exhausted([])
    else match TryCandidate(cs[0], fetch(DistrictsUrl(cs[0])))
      case Loaded(d) => Success(0, d)
      case Failed(m) =>
        var rest := Resolve(cs[1..], fetch);
        assert rest.Success? ==> cs[1..][rest.index] == cs[rest.index + 1];
        Prefix([m], rest)
  }

  /** `Resolve` succeeds at index k exactly when candidate k loads and every earlier one failed. */
  lemma {:induction false} ResolveSuccess(cs: seq<Candidate>, fetch: string -> Attempt, k: nat, d: seq<string>)
    ensures Resolve(cs, fetch) == Success(k, d) <==>
              k < |cs| && TryCandidate(cs[k], fetch(DistrictsUrl(cs[k]))) == Loaded(d)
              && forall j :: 0 <= j < k ==> TryCandidate(cs[j], fetch(DistrictsUrl(cs[j]))).Failed?
  {
    if cs != [] && k > 0 {
      ResolveSuccess(cs[1..], fetch, k - 1, d);
      forall j | 0 <= j < k - 1 && j < |cs| - 1 ensures cs[1..][j] == cs[j + 1] { }
    }
  }

  /** `Resolve` is exhausted exactly when no candidate loads; its errors are the candidates' messages, in order. */
  lemma {:induction false} ResolveExhausted(cs: seq<Candidate>, fetch: string -> Attempt)
    ensures Resolve(cs, fetch).Exhausted? <==>
              forall j :: 0 <= j < |cs| ==> TryCandidate(cs[j], fetch(DistrictsUrl(cs[j]))).Failed?
    ensures Resolve(cs, fetch).Exhausted? ==>
              forall j :: 0 <= j < |cs| ==>
                TryCandidate(cs[j], fetch(DistrictsUrl(cs[j]))) == Failed(Resolve(cs, fetch).errors[j])
  {
    if cs != [] {
      ResolveExhausted(cs[1..], fetch);
      forall j | 0 <= j < |cs| - 1 ensures cs[1..][j] == cs[j + 1] { }
    }
  }

  /** Running the chain on the candidates left over after some failures continues it. */
  lemma ResolveStep(cs: seq<Candidate>, fetch: string -> Attempt, i: nat, m: string)
    requires i < |cs| && TryCandidate(cs[i], fetch(DistrictsUrl(cs[i]))) == Failed(m)
    ensures Resolve(cs[i..], fetch) == Prefix([m], Resolve(cs[i + 1..], fetch))
  {
    assert cs[i..][1..] == cs[i + 1..];
  }

  /** The requests made for the first n candidates. */
  function Urls(cs: seq<Candidate>): (us: seq<string>)
    ensures |us| == |cs| && forall i :: 0 <= i < |cs| ==> us[i] == DistrictsUrl(cs[i])
  {
    seq(|cs|, i requires 0 <= i < |cs| => DistrictsUrl(cs[i]))
  }

  /** The requests made before the loop stops are the first requests of the full list, in order. */
  lemma UrlsPrefix(cs: seq<Candidate>, k: nat)
    requires k <= |cs|
    ensures Urls(cs[..k]) == Urls(cs)[..k]
    ensures Urls(cs[..k]) + Urls(cs[k..]) == Urls(cs)
  {
  }

  /** One more request extends the list of requests by that candidate's URL. */
  lemma UrlsSnoc(cs: seq<Candidate>, i: nat)
    requires i < |cs|
    ensures Urls(cs[..i + 1]) == Urls(cs[..i]) + [DistrictsUrl(cs[i])]
  {
  }

  /** A chain whose first candidate loads stops there. */
  lemma ResolveFirst(cs: seq<Candidate>, fetch: string -> Attempt, d: seq<string>)
    requires cs != [] && TryCandidate(cs[0], fetch(DistrictsUrl(cs[0]))) == Loaded(d)
    ensures Resolve(cs, fetch) == Success(0, d)
  {
  }

  /** The chain's outcome once the loop reaches a candidate that loads after i failures. */
  lemma ResolveAt(cs: seq<Candidate>, fetch: string -> Attempt, es: seq<string>, i: nat, d: seq<string>)
    requires i < |cs| && |es| == i
    requires Resolve(cs, fetch) == Prefix(es, Resolve(cs[i..], fetch))
    requires TryCandidate(cs[i], fetch(DistrictsUrl(cs[i]))) == Loaded(d)
    ensures Resolve(cs, fetch) == Success(i, d)
  {
    assert cs[i..][0] == cs[i];
    ResolveFirst(cs[i..], fetch, d);
  }

  /** The loop stopping at candidate i leaves the state `Settle` describes. */
  lemma SettleAt(cs: seq<Candidate>, fetch: string -> Attempt, i: nat, d: seq<string>)
    requires i < |cs| && Resolve(cs, fetch) == Success(i, d)
    ensures Settle(cs, fetch) == View(d, None, Some(Label(cs[i])), Urls(cs[..i + 1]))
  {
  }

  /** The loop running out of candidates, with one failure each, leaves the state `Settle` describes. */
  lemma SettleAfterAll(cs: seq<Candidate>, fetch: string -> Attempt, es: seq<string>)
    requires cs != [] && |es| == |cs|
    requires Resolve(cs, fetch) == Prefix(es, Resolve(cs[|cs|..], fetch))
    ensures Settle(cs, fetch) == View([], Some(CombinedError(es)), None, Urls(cs[..|cs|]))
  {
    assert cs[|cs|..] == [] && cs[..|cs|] == cs;
    assert es + [] == es;
  }

  /** `combinedErrors.filter(Boolean).join('; ') || NothingLoaded` */
  function CombinedError(errors: seq<string>): (r: string)
    ensures r != ""
    ensures JsText.NonEmpty(errors) == [] ==> r == NothingLoaded
    ensures JsText.NonEmpty(errors) != [] ==> r == JsText.Join("; ", JsText.NonEmpty(errors))
  {
    var joined := JsText.Join("; ", JsText.NonEmpty(errors));
    JsText.JoinEmpty("; ", JsText.NonEmpty(errors));
    if joined != "" then joined else NothingLoaded
  }

  /** The district state after `fetchDistricts`, with the requests it sent. */
  datatype View = View(districts: seq<string>, error: Option<string>, lastUsed: Option<string>, attempted: seq<string>)

  /** The district state the loop over `urlsToTry` leaves behind, for a given list of candidates. */
  function Settle(cs: seq<Candidate>, fetch: string -> Attempt): View {
    if cs == [] then View([], Some(NoUrlConfigured), None, [])
    else match Resolve(cs, fetch)
      case Success(k, d) => View(d, None, Some(Label(cs[k])), Urls(cs[..k + 1]))
      case Exhausted(es) => View([], Some(CombinedError(es)), None, Urls(cs))
  }

  /** What one call of `fetchDistricts` leaves behind, for the configured URLs and the given answers.
      It depends on nothing the previous call left. */
  function Refresh(secondary: string, primary: string, fetch: string -> Attempt): View {
    Settle(Candidates(secondary, primary), fetch)
  }

  /** Both URLs blank: the "not configured" message, an empty list and no request. */
  lemma RefreshNotConfigured(secondary: string, primary: string, fetch: string -> Attempt)
    requires JsText.Trim(secondary) == "" && JsText.Trim(primary) == ""
    ensures Refresh(secondary, primary, fetch) == View([], Some(NoUrlConfigured), None, [])
  {
  }

  /** The list clears the error exactly when some candidate loads; the first one that loads then
      supplies the list and the label, and the candidates after it are not requested. */
  lemma SettleLoaded(cs: seq<Candidate>, fetch: string -> Attempt, k: nat)
    requires k < |cs| && TryCandidate(cs[k], fetch(DistrictsUrl(cs[k]))).Loaded?
    requires forall j :: 0 <= j < k ==> TryCandidate(cs[j], fetch(DistrictsUrl(cs[j]))).Failed?
    ensures var v := Settle(cs, fetch);
            v.error == None
            && v.districts == TryCandidate(cs[k], fetch(DistrictsUrl(cs[k]))).districts
            && v.lastUsed == Some(Label(cs[k]))
            && v.attempted == Urls(cs[..k + 1])
  {
    ResolveSuccess(cs, fetch, k, TryCandidate(cs[k], fetch(DistrictsUrl(cs[k]))).districts);
  }

  /** When no candidate loads, every candidate is requested, the list stays empty, no label is
      kept, and the error joins the candidates' messages, in order. */
  lemma SettleFailed(cs: seq<Candidate>, fetch: string -> Attempt, es: seq<string>)
    requires cs != [] && |es| == |cs|
    requires forall j :: 0 <= j < |cs| ==> TryCandidate(cs[j], fetch(DistrictsUrl(cs[j]))) == Failed(es[j])
    ensures Settle(cs, fetch) == View([], Some(CombinedError(es)), None, Urls(cs))
  {
    ResolveExhausted(cs, fetch);
    var o := Resolve(cs, fetch);
    assert o.errors == es by {
      forall j | 0 <= j < |cs| ensures o.errors[j] == es[j] {
        assert TryCandidate(cs[j], fetch(DistrictsUrl(cs[j]))) == Failed(es[j]);
      }
    }
  }

  /** The secondary URL is tried first; when it answers with a failing status and the primary
      answers with a list of names, the primary's list is shown under its label and both URLs
      were requested, in that order. */
  lemma RefreshFallsBackToPrimary(secondary: string, primary: string, fetch: string -> Attempt,
                                  names: seq<string>)
    requires JsText.Trim(secondary) != "" && JsText.Trim(primary) != ""
    requires fetch(Normalize(secondary) + "/districts").Response?
    requires !fetch(Normalize(secondary) + "/districts").ok
    requires fetch(Normalize(primary) + "/districts") == Response(true, 200, Parsed(Json.StringArray(names)))
    ensures Refresh(secondary, primary, fetch)
            == View(names, None, Some(PrimaryName + " (" + Normalize(primary) + ")"),
                    [Normalize(secondary) + "/districts", Normalize(primary) + "/districts"])
  {
    var cs := Candidates(secondary, primary);
    assert TryCandidate(cs[0], fetch(DistrictsUrl(cs[0]))).Failed?;
    var r := TryCandidate(cs[1], fetch(DistrictsUrl(cs[1])));
    assert Json.StringArray(r.districts) == Json.StringArray(names);
    SettleLoaded(cs, fetch, 1);
    assert cs[..2] == cs;
  }

  /** With only the primary URL configured, a successful response that is not an array of strings
      leaves an empty list and the malformed-data message as the whole error. */
  lemma RefreshMalformedPrimary(secondary: string, primary: string, fetch: string -> Attempt,
                                status: nat, data: Json.Json)
    requires JsText.Trim(secondary) == "" && JsText.Trim(primary) != ""
    requires fetch(Normalize(primary) + "/districts") == Response(true, status, Parsed(data))
    requires Json.StringItems(data).None?
    ensures Refresh(secondary, primary, fetch)
            == View([], Some("从 " + PrimaryName + " (" + Normalize(primary) + ") 获取的行政区数据格式不正确。"), None,
                    [Normalize(primary) + "/districts"])
  {
    var cs := Candidates(secondary, primary);
    var m := MalformedData(cs[0]);
    SettleFailed(cs, fetch, [m]);
    assert JsText.NonEmpty([m]) == [m];
  }

  /** After any refresh, the error is set exactly when no label is kept, and a set error is
      never empty and comes with an empty list. */
  lemma SettleErrorExclusive(cs: seq<Candidate>, fetch: string -> Attempt)
    ensures var v := Settle(cs, fetch);
            (v.error == None <==> v.lastUsed.Some?)
            && (v.error.Some? ==> v.error.value != "" && v.districts == [])
            && |v.attempted| <= |cs|
  {
  }

  const LoadingLine := "正在加载行政区列表..."
  const NotLoadedLine := "未能加载行政区列表。请检查API基础URL或网络连接。"

  function ErrorLine(error: string): string {
    "行政区加载错误: " + error
  }

  /** The success paragraph; it names the source only when one is recorded. */
  function LoadedLine(lastUsed: Option<string>): string {
    "已成功加载行政区列表 " + (if lastUsed.Some? && lastUsed.value != "" then "(使用 " + lastUsed.value + ")" else "") + "。"
  }

  /** The paragraphs the configuration panel shows under its refresh button (one per JSX condition that holds). */
  function StatusLines(loading: bool, error: Option<string>, districts: seq<string>, lastUsed: Option<string>): seq<string> {
    var errorShown := error.Some? && error.value != "";
    (if loading then [LoadingLine] else [])
    + (if errorShown && !loading then [ErrorLine(error.value)] else [])
    + (if !loading && !errorShown && |districts| > 0 then [LoadedLine(lastUsed)] else [])
    + (if !loading && !errorShown && |districts| == 0 then [NotLoadedLine] else [])
  }

  /** The conditions are exclusive and exhaustive: exactly one paragraph is shown. */
  lemma StatusLinesExactlyOne(loading: bool, error: Option<string>, districts: seq<string>, lastUsed: Option<string>)
    ensures |StatusLines(loading, error, districts, lastUsed)| == 1
  {
  }

  /** After a refresh, a failure shows the error, a loaded non-empty list shows the success
      paragraph naming the candidate the chain stopped at, and a loaded empty list shows the "could not load" paragraph. */
  lemma SettleStatus(cs: seq<Candidate>, fetch: string -> Attempt)
    ensures var v := Settle(cs, fetch);
            var lines := StatusLines(false, v.error, v.districts, v.lastUsed);
            (v.error.Some? ==> lines == [ErrorLine(v.error.value)])
            && (v.error == None && v.districts != [] ==>
                  Resolve(cs, fetch).Success? && lines == [LoadedLine(Some(Label(cs[Resolve(cs, fetch).index])))])
            && (v.error == None && v.districts == [] ==> lines == [NotLoadedLine])
  {
    SettleErrorExclusive(cs, fetch);
  }

  /** The App component's district state and configured base URLs. */
  class App {
    var primaryApiBaseUrl: string
    var secondaryApiBaseUrl: string
    var districts: seq<string>
    var districtsError: Option<string>
    var isLoadingDistricts: bool
    var lastUsedUrlForDistricts: Option<string>

    /** The initial state: default URLs, nothing loaded, loading until the first refresh finishes. */
    constructor ()
      ensures primaryApiBaseUrl == PrimaryDefaultBaseUrl && secondaryApiBaseUrl == SecondaryDefaultBaseUrl
      ensures districts == [] && districtsError == None && isLoadingDistricts && lastUsedUrlForDistricts == None
    {
      primaryApiBaseUrl := PrimaryDefaultBaseUrl;
      secondaryApiBaseUrl := SecondaryDefaultBaseUrl;
      districts := [];
      districtsError := None;
      isLoadingDistricts := true;
      lastUsedUrlForDistricts := None;
    }

    /** `handlePrimaryBaseUrlChange` */
    method SetPrimaryApiBaseUrl(value: string)
      modifies this`primaryApiBaseUrl
      ensures primaryApiBaseUrl == value
    {
      primaryApiBaseUrl := value;
    }

    /** `handleSecondaryBaseUrlChange` */
    method SetSecondaryApiBaseUrl(value: string)
      modifies this`secondaryApiBaseUrl
      ensures secondaryApiBaseUrl == value
    {
      secondaryApiBaseUrl := value;
    }

    /** `fetchDistricts`, with the answers to its requests supplied by `fetch`; `attempted`
        lists the URLs it requested, in order. The new state replaces the old one entirely. */
    method FetchDistricts(fetch: string -> Attempt) returns (attempted: seq<string>)
      modifies this`districts, this`districtsError, this`isLoadingDistricts, this`lastUsedUrlForDistricts
      ensures View(districts, districtsError, lastUsedUrlForDistricts, attempted)
              == Settle(Candidates(secondaryApiBaseUrl, primaryApiBaseUrl), fetch)
      ensures !isLoadingDistricts
    {
      isLoadingDistricts := true;
      districtsError := None;
      districts := [];
      lastUsedUrlForDistricts := None;

      var urlsToTry: seq<Candidate> := [];
      var secondaryTrimmed := JsText.Trim(secondaryApiBaseUrl);
      var primaryTrimmed := JsText.Trim(primaryApiBaseUrl);
      if secondaryTrimmed != "" {
        urlsToTry := urlsToTry + [Candidate(JsText.StripTrailingSlash(secondaryTrimmed), SecondaryName)];
      }
      if primaryTrimmed != "" {
        urlsToTry := urlsToTry + [Candidate(JsText.StripTrailingSlash(primaryTrimmed), PrimaryName)];
      }
      assert urlsToTry == Candidates(secondaryApiBaseUrl, primaryApiBaseUrl);

      if |urlsToTry| == 0 {
        districtsError := Some(NoUrlConfigured);
        isLoadingDistricts := false;
        attempted := [];
        return;
      }

      attempted := TryInOrder(urlsToTry, fetch);
      isLoadingDistricts := false;
    }

    /** The `for...of` loop of `fetchDistricts` over a non-empty `urlsToTry`, and the error it
        records when no candidate loaded. It starts from the cleared district state. */
    method TryInOrder(urlsToTry: seq<Candidate>, fetch: string -> Attempt) returns (attempted: seq<string>)
      requires urlsToTry != []
      requires districts == [] && districtsError == None && lastUsedUrlForDistricts == None
      modifies this`districts, this`districtsError, this`lastUsedUrlForDistricts
      ensures View(districts, districtsError, lastUsedUrlForDistricts, attempted) == Settle(urlsToTry, fetch)
    {
      var loadedSuccessfully := false;
      attempted := [];
      var combinedErrors: seq<string> := [];
      var i := 0;
      while i < |urlsToTry|
        invariant 0 <= i <= |urlsToTry| && |combinedErrors| == i
        invariant !loadedSuccessfully && districts == [] && districtsError == None && lastUsedUrlForDistricts == None
        invariant attempted == Urls(urlsToTry[..i])
        invariant Resolve(urlsToTry, fetch) == Prefix(combinedErrors, Resolve(urlsToTry[i..], fetch))
      {
        var c := urlsToTry[i];
        var response := fetch(DistrictsUrl(c));
        UrlsSnoc(urlsToTry, i);
        attempted := attempted + [DistrictsUrl(c)];
        match TryCandidate(c, response) {
          case Loaded(items) =>
            ResolveAt(urlsToTry, fetch, combinedErrors, i, items);
            SettleAt(urlsToTry, fetch, i, items);
            districts := items;
            districtsError := None;
            lastUsedUrlForDistricts := Some(Label(c));
            loadedSuccessfully := true;
            break;
          case Failed(failure) =>
            ResolveStep(urlsToTry, fetch, i, failure);
            PrefixPrefix(combinedErrors, [failure], Resolve(urlsToTry[i + 1..], fetch));
            combinedErrors := combinedErrors + [failure];
        }
        i := i + 1;
      }
      if !loadedSuccessfully {
        SettleAfterAll(urlsToTry, fetch, combinedErrors);
        var joined := JsText.Join("; ", JsText.NonEmpty(combinedErrors));
        districtsError := Some(if joined != "" then joined else NothingLoaded);
      }
    }
  }
}
