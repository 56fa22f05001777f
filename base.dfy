/**
 * The common part of the client stores: a request state coupled to the shared loading
 * indicator, and the helpers that build request URLs and headers.
 */
module Base {
  import opened Wrappers
  import Loading

  /** The life cycle of a store's request. */
  datatype State = Idle | Running | Done | Error

  class BaseStore {
    var state: State
    /** The application-wide loading indicator every store reports to. */
    const loadingStore: Loading.LoadingStore

    constructor(loadingStore: Loading.LoadingStore)
      ensures state == Idle && this.loadingStore == loadingStore
    {
      state := Idle;
      this.loadingStore := loadingStore;
    }

    /** Records the new state and shows the loading indicator exactly while running. */
    method SetState(s: State)
      modifies this, loadingStore
      ensures state == s
      ensures loadingStore.loadingFlag == (s == Running)
      ensures loadingStore.lockFlag == old(loadingStore.lockFlag)
    {
      state := s;
      loadingStore.SetLoading(s == Running);
    }

    method ResetState()
      modifies this, loadingStore
      ensures state == Idle && !loadingStore.loadingFlag
      ensures loadingStore.lockFlag == old(loadingStore.lockFlag)
      ensures Loading() == loadingStore.lockFlag
    {
      SetState(Idle);
    }

    predicate Loading()
      reads this, loadingStore
    {
      loadingStore.Loading()
    }
  }

  // ---------------------------------------------------------------- URLs

  predicate EndsWithSlash(s: string) {
    |s| > 0 && s[|s| - 1] == '/'
  }

  /**
   * The API root: the configured base URL (missing or empty means "/api/"), with a slash
   * appended unless it already ends in one.
   */
  function ApiBaseUrl(env: Option<string>): (url: string)
    ensures EndsWithSlash(url)
    ensures env.None? || env.value == [] ==> url == "/api/"
    ensures env.Some? && env.value != [] ==> url == env.value || url == env.value + "/"
  {
    var base := if env.Some? && env.value != [] then env.value else "/api/";
    if EndsWithSlash(base) then base else base + "/"
  }

  /** A root that already ends in a slash is used as it is, so normalising twice changes nothing. */
  lemma ApiBaseUrlIdempotent(env: Option<string>)
    ensures ApiBaseUrl(Some(ApiBaseUrl(env))) == ApiBaseUrl(env)
    ensures env.Some? && EndsWithSlash(env.value) ==> ApiBaseUrl(env) == env.value
  {
  }

  /** A path segment with one trailing slash, if any, removed. */
  function StripTrailingSlash(p: string): (r: string)
    ensures |r| >= |p| - 1
    ensures r + (if EndsWithSlash(p) then "/" else "") == p
  {
    if EndsWithSlash(p) then p[..|p| - 1] else p
  }

  /** Only one slash goes: `StripTrailingSlash(p + "/")` is `p` even when `p` ends in a slash itself. */
  lemma StripOneSlash(p: string)
    ensures StripTrailingSlash(p + "/") == p
  {
    assert (p + "/")[..|p|] == p;
  }

  /** The segments separated by `sep`; no segments give the empty string. */
  function Join(segments: seq<string>, sep: string): string
    decreases |segments|
  {
    if |segments| == 0 then ""
    else if |segments| == 1 then segments[0]
    else segments[0] + sep + Join(segments[1..], sep)
  }

  /** Every segment without its trailing slash: putting the removed slash back gives the segment. */
  function StripAll(path: seq<string>): (r: seq<string>)
    ensures |r| == |path|
    ensures forall i :: 0 <= i < |r| ==> r[i] + (if EndsWithSlash(path[i]) then "/" else "") == path[i]
  {
    seq(|path|, i requires 0 <= i < |path| => StripTrailingSlash(path[i]))
  }

  lemma StripAllAt(path: seq<string>, i: nat)
    requires i < |path|
    ensures StripAll(path)[i] == StripTrailingSlash(path[i])
  {
  }

  /** The API root followed by the path segments, each without its trailing slash, joined by slashes. */
  function ApiUrl(env: Option<string>, path: seq<string>): (url: string)
    ensures |url| >= |ApiBaseUrl(env)| && url[..|ApiBaseUrl(env)|] == ApiBaseUrl(env)
  {
    var base := ApiBaseUrl(env);
    var rest := Join(StripAll(path), "/");
    assert (base + rest)[..|base|] == base;
    base + rest
  }

  /** Two segments: the root, the first without its slash, one separator, the second without its slash. */
  lemma ApiUrlTwoSegments(env: Option<string>, a: string, b: string)
    ensures ApiUrl(env, [a, b]) == ApiBaseUrl(env) + StripTrailingSlash(a) + "/" + StripTrailingSlash(b)
  {
    var parts := StripAll([a, b]);
    StripAllAt([a, b], 0);
    StripAllAt([a, b], 1);
    assert parts == [StripTrailingSlash(a), StripTrailingSlash(b)];
    assert parts[1..] == [StripTrailingSlash(b)];
    assert Join(parts, "/") == StripTrailingSlash(a) + "/" + StripTrailingSlash(b);
  }

  /** The results endpoint under the default root. */
  lemma ApiUrlResults()
    ensures ApiUrl(None, ["v1/results"]) == "/api/v1/results"
    ensures ApiUrl(None, ["v1/", "results/"]) == "/api/v1/results"
  {
    assert ApiBaseUrl(None) == "/api/";
    assert StripTrailingSlash("v1/results") == "v1/results";
    assert StripAll(["v1/results"]) == ["v1/results"];
    assert Join(["v1/results"], "/") == "v1/results";
    ApiUrlTwoSegments(None, "v1/", "results/");
    assert StripTrailingSlash("v1/") == "v1";
    assert StripTrailingSlash("results/") == "results";
  }

  // ---------------------------------------------------------------- headers

  type Headers = map<string, string>

  /**
   * The token after "Bearer ": the local one when set and non-empty, else the session one;
   * when neither is stored the template prints "undefined".
   */
  function BearerToken(local: Option<string>, session: Option<string>): (t: string)
    ensures local.Some? && local.value != [] ==> t == local.value
    ensures (local.None? || local.value == []) && session.Some? ==> t == session.value
    ensures (local.None? || local.value == []) && session.None? ==> t == "undefined"
  {
    if local.Some? && local.value != [] then local.value
    else if session.Some? then session.value
    else "undefined"
  }

  /**
   * `Accept: application/json`, then `Authorization` when `withAuth`, then every entry of
   * `override`, later entries replacing earlier ones.
   */
  function GenerateFetchHeader(withAuth: bool, override: Option<Headers>,
                               local: Option<string>, session: Option<string>): (h: Headers)
    ensures forall k :: k in h <==> k == "Accept" || (withAuth && k == "Authorization") || (override.Some? && k in override.value)
    ensures override.Some? ==> forall k :: k in override.value ==> h[k] == override.value[k]
    ensures override.None? || "Accept" !in override.value ==> h["Accept"] == "application/json"
    ensures withAuth && (override.None? || "Authorization" !in override.value) ==>
      h["Authorization"] == "Bearer " + BearerToken(local, session)
  {
    var result := map["Accept" := "application/json"];
    var result := if withAuth then result["Authorization" := "Bearer " + BearerToken(local, session)] else result;
    if override.Some? then result + override.value else result
  }

  /**
   * `localStorage` wins: with a non-empty local token the session token makes no difference
   * and is the one sent; an empty local token counts as none.
   */
  lemma BearerTokenPrecedence(withAuth: bool, override: Option<Headers>,
                              local: Option<string>, session: Option<string>, session': Option<string>)
    ensures local.Some? && local.value != [] ==>
      && GenerateFetchHeader(withAuth, override, local, session) == GenerateFetchHeader(withAuth, override, local, session')
      && GenerateFetchHeader(true, None, local, session)["Authorization"] == "Bearer " + local.value
    ensures local.Some? && local.value == [] ==>
      GenerateFetchHeader(withAuth, override, local, session) == GenerateFetchHeader(withAuth, override, None, session)
  {
  }

  /** The defaults, with nothing overridden: exactly the two headers. */
  lemma DefaultHeaders(local: Option<string>, session: Option<string>)
    ensures GenerateFetchHeader(true, None, local, session)
         == map["Accept" := "application/json", "Authorization" := "Bearer " + BearerToken(local, session)]
  {
  }
}
