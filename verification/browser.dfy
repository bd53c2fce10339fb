/**
 * The router's view of a URL, which the docs page reads through
 * `useParams`, `useLocation` and `useSearchParams`. These belong to the
 * router and the browser, not to the page; they are modelled only as far
 * as the page depends on them, so that a URL written by `updateURL` can be
 * read back.
 */
module Browser {
  import opened Wrappers
  import opened JsString

  /** A router location: `pathname`, `search` (with its `?`) and `hash` (with its `#`). */
  datatype RouterLocation = RouterLocation(pathname: string, search: string, hash: string)

  /** The route parameters of the docs route `:project/:version/:page`; absent ones are `None`. */
  datatype RouteParams = RouteParams(project: Option<string>, version: Option<string>, page: Option<string>)

  /**
   * The router's path parser: the hash starts at the first `#`, the search
   * at the first `?` before it, and the rest is the pathname.
   */
  function ParsePath(url: string): (r: RouterLocation)
    ensures r.pathname + r.search + r.hash == url
    ensures '#' !in r.pathname + r.search && (r.hash == "" || r.hash[0] == '#')
    ensures '?' !in r.pathname && (r.search == "" || r.search[0] == '?')
  {
    var (beforeHash, hash) := CutAt(url, '#');
    var (pathname, search) := CutAt(beforeHash, '?');
    RouterLocation(pathname, search, hash)
  }

  /** The decomposition `ParsePath` promises is the only one: any pathname, search and hash of that shape are what it finds. */
  lemma ParsePathUnique(pathname: string, search: string, hash: string)
    requires '#' !in pathname + search && (hash == "" || hash[0] == '#')
    requires '?' !in pathname && (search == "" || search[0] == '?')
    ensures ParsePath(pathname + search + hash) == RouterLocation(pathname, search, hash)
  {
    CutAtUnique(pathname + search, hash, '#');
    CutAtUnique(pathname, search, '?');
  }

  /**
   * Matches a pathname against `/:project/:version?/:page?`. An empty or
   * missing segment leaves its parameter absent; a pathname with more
   * segments does not reach the docs page.
   */
  function MatchRoute(pathname: string): (r: Option<RouteParams>)
  {
    if |pathname| == 0 || pathname[0] != '/' then None
    else
      var segments := Split(pathname[1..], "/");
      if |segments| > 3 then None
      else Some(RouteParams(Param(segments, 0), Param(segments, 1), Param(segments, 2)))
  }

  /** Route parameter `i`: present when its segment exists and is not empty. */
  function Param(segments: seq<string>, i: nat): (r: Option<string>)
    ensures r.Some? <==> i < |segments| && segments[i] != ""
    ensures r.Some? ==> r.value == segments[i]
  {
    if i < |segments| && segments[i] != "" then Some(segments[i]) else None
  }

  /** The name and value of one `name=value` pair; a pair without `=` has an empty value. */
  function NameValue(pair: string): (string, string)
  {
    match IndexOf(pair, "=")
    case None => (pair, "")
    case Some(i) => (pair[..i], pair[i + 1..])
  }

  /** The value of the first pair named `key`, skipping empty pairs. */
  function FirstValue(pairs: seq<string>, key: string): (r: Option<string>)
    ensures r.Some? ==>
              exists k :: && 0 <= k < |pairs| && pairs[k] != "" && NameValue(pairs[k]) == (key, r.value)
                          && forall j :: 0 <= j < k && pairs[j] != "" ==> NameValue(pairs[j]).0 != key
    ensures r.None? ==> forall k :: 0 <= k < |pairs| && pairs[k] != "" ==> NameValue(pairs[k]).0 != key
  {
    if |pairs| == 0 then None
    else if pairs[0] != "" && NameValue(pairs[0]).0 == key then Some(NameValue(pairs[0]).1)
    else
      var r := FirstValue(pairs[1..], key);
      assert forall k :: 1 <= k < |pairs| ==> pairs[k] == pairs[1..][k - 1];
      r
  }

  /** `new URLSearchParams(search).get(key)`, with `null` as `None`. */
  function QueryGet(search: string, key: string): Option<string>
  {
    var body := if |search| > 0 && search[0] == '?' then search[1..] else search;
    FirstValue(Split(body, "&"), key)
  }

  /** An empty search string carries no parameters. */
  lemma QueryGetEmpty(key: string)
    ensures QueryGet("", key).None?
  {
    SplitCharAbsent("", '&');
  }

  /** The hide-ui query written by `updateURL` reads back as `hide-ui` = `true`. */
  lemma QueryGetHideUi()
    ensures QueryGet("?hide-ui=true", "hide-ui") == Some("true")
  {
    var body := "hide-ui=true";
    assert "?hide-ui=true"[1..] == body;
    SplitCharAbsent(body, '&');
    assert body == "hide-ui" + ['='] + "true";
    assert body[..7] == "hide-ui" && body[8..] == "true";
    IndexOfCharAt(body, '=', 7);
    assert NameValue(body) == ("hide-ui", "true");
    assert FirstValue([body], "hide-ui") == Some("true");
  }
}
