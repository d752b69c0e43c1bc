/**
 * The API address helper of the web frontend, `react/src/config/constants.ts`: the base URL
 * comes from the build environment with a fixed fallback, and every endpoint is placed under
 * `api/` below it with at most one leading slash removed.
 */
module ApiConfig {
  import opened Wrappers

  /** The base used when the build sets none. */
  const DEFAULT_BASE_URL: string := "/wattmeter-sharp/metrics/"
  const API_DIR: string := "api/"

  /**
   * `API_BASE_URL`: JavaScript's `||` falls back on the default both when the variable is
   * unset and when it is the empty string.
   */
  function ApiBaseUrl(env: Option<string>): (base: string)
    ensures base != []
    ensures env.Some? && env.value != [] ==> base == env.value
    ensures env.None? || env.value == [] ==> base == DEFAULT_BASE_URL
  {
    if env.Some? && env.value != [] then env.value else DEFAULT_BASE_URL
  }

  predicate StartsWithSlash(s: string) {
    |s| > 0 && s[0] == '/'
  }

  /** The endpoint without one leading slash, if it has one. */
  function CleanEndpoint(endpoint: string): (clean: string)
    ensures StartsWithSlash(endpoint) ==> [endpoint[0]] + clean == endpoint
    ensures !StartsWithSlash(endpoint) ==> clean == endpoint
  {
    if StartsWithSlash(endpoint) then endpoint[1..] else endpoint
  }

  /**
   * `buildApiUrl`: the base, then `api/`, then the endpoint with one leading slash removed.
   * The URL always lies below `base + "api/"`, and what follows that prefix is the endpoint,
   * less its leading slash.
   */
  function BuildApiUrl(base: string, endpoint: string): (url: string)
    ensures |url| == |base| + |API_DIR| + |endpoint| - (if StartsWithSlash(endpoint) then 1 else 0)
    ensures url[..|base| + |API_DIR|] == base + API_DIR
    ensures StartsWithSlash(endpoint) ==> url[|base| + |API_DIR|..] == endpoint[1..]
    ensures !StartsWithSlash(endpoint) ==> url[|base| + |API_DIR|..] == endpoint
  {
    var url := base + API_DIR + CleanEndpoint(endpoint);
    assert url[..|base| + |API_DIR|] == base + API_DIR;
    assert url[|base| + |API_DIR|..] == CleanEndpoint(endpoint);
    url
  }

  /** Writing an endpoint with or without its leading slash gives the same URL. */
  lemma LeadingSlashOptional(base: string, endpoint: string)
    requires !StartsWithSlash(endpoint)
    ensures BuildApiUrl(base, "/" + endpoint) == BuildApiUrl(base, endpoint)
  {
    assert ("/" + endpoint)[1..] == endpoint;
  }

  /** Only one slash is removed: a second leading slash stays in the URL. */
  lemma SecondSlashKept(base: string, rest: string)
    ensures BuildApiUrl(base, "//" + rest) == base + API_DIR + "/" + rest
  {
    assert ("//" + rest)[1..] == "/" + rest;
  }

  /**
   * Apart from that one slash, distinct endpoints give distinct URLs under the same base:
   * the endpoint can be read back from the URL.
   */
  lemma {:induction false} BuildApiUrlInjective(base: string, e1: string, e2: string)
    requires BuildApiUrl(base, e1) == BuildApiUrl(base, e2)
    ensures CleanEndpoint(e1) == CleanEndpoint(e2)
  {
    var n := |base| + |API_DIR|;
    assert BuildApiUrl(base, e1)[n..] == CleanEndpoint(e1);
    assert BuildApiUrl(base, e2)[n..] == CleanEndpoint(e2);
  }

  /** Without a configured base, every endpoint lives under `/wattmeter-sharp/metrics/api/`. */
  lemma DefaultApiRoot(endpoint: string)
    ensures BuildApiUrl(ApiBaseUrl(None), endpoint)[..29] == "/wattmeter-sharp/metrics/api/"
  {
    assert DEFAULT_BASE_URL + API_DIR == "/wattmeter-sharp/metrics/api/";
  }
}
