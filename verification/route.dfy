/**
 * How the docs page reads its location from the outer route
 * (web/src/pages/Docs.tsx, lines 23-27), and the proof that a URL written
 * by `updateURL` reads back as the location it was written from.
 */
module Route {
  import opened Wrappers
  import opened JsString
  import opened Locations
  import opened Browser

  /** The first piece of a `split` on a character is the text before its first occurrence. */
  lemma FirstPiece(b: string, c: char, x: string)
    requires c !in x
    ensures Split(b, [c])[0] == x <==> (b == x || (|b| > |x| && b[..|x| + 1] == x + [c]))
  {
    IndexOfChar(b, c);
    var head := Split(b, [c])[0];
    match IndexOf(b, [c])
    case None =>
      assert head == b;
    case Some(i) =>
      assert head == b[..i];
      assert b != x;
      if |b| > |x| && b[..|x| + 1] == x + [c] {
        assert b[..|x|] == b[..|x| + 1][..|x|];
        IndexOfCharAt(b, c, |x|);
      }
      if head == x {
        assert b[..|x| + 1] == b[..i] + [b[i]];
      }
  }

  /**
   * The fragment carries the hide-ui option after `hashPart`: it reads
   * `hashPart?hide-ui=true`, either ending there or followed by another `?`.
   */
  predicate FragmentCarriesHideUi(fragment: string, hashPart: string) {
    var n := |hashPart| + |HideUiSuffix|;
    hashPart + HideUiSuffix <= fragment && (|fragment| == n || fragment[n] == '?')
  }

  /** The text after the first `?` starts with `hide-ui=true` and ends there or at another `?`. */
  lemma CarriesHideUiAfter(a: string, b: string)
    ensures FragmentCarriesHideUi(a + ['?'] + b, a)
            <==> (b == "hide-ui=true" || (|b| > 12 && b[..13] == "hide-ui=true" + ['?']))
  {
    var key := "hide-ui=true";
    var f := a + ['?'] + b;
    var n := |a| + 13;
    assert HideUiSuffix == ['?'] + key;
    if |b| >= 12 {
      assert f[..n] == a + ['?'] + b[..12];
      if f[..n] == a + HideUiSuffix {
        assert b[..12] == f[..n][|a| + 1..] == key;
      }
      if |b| > 12 {
        assert f[n] == b[12];
        assert b[..13] == b[..12] + [b[12]];
      }
    }
  }

  /** Reading the hide-ui option from the second `?`-piece of the fragment, characterised by position. */
  lemma FragmentHideUi(fragment: string)
    ensures var pieces := Split(fragment, "?");
            Nth(pieces, 1) == Some("hide-ui=true") <==> FragmentCarriesHideUi(fragment, pieces[0])
  {
    IndexOfChar(fragment, '?');
    match IndexOf(fragment, "?")
    case None =>
      SplitCharAbsent(fragment, '?');
      assert !FragmentCarriesHideUi(fragment, fragment);
    case Some(i) =>
      var a, b := fragment[..i], fragment[i + 1..];
      assert fragment == a + ['?'] + b;
      SplitCharFirst(a, '?', b);
      FirstPiece(b, '?', "hide-ui=true");
      CarriesHideUiAfter(a, b);
  }

  /**
   * The location the page derives from the route: missing version and page
   * default to `latest` and `index.html`, the hash is the fragment cut at
   * its first `?`, and the UI is hidden when the query says `hide-ui=true`
   * or the text after the fragment's first `?` is exactly `hide-ui=true`.
   */
  function FromRoute(params: RouteParams, where: RouterLocation): (loc: Location)
    ensures loc.project == (if params.project.Some? then params.project.value else "")
    ensures loc.version == (if params.version.Some? then params.version.value else "latest")
    ensures loc.page == (if params.page.Some? then params.page.value else "index.html")
    ensures '?' !in loc.hash && |loc.hash| <= |where.hash| && where.hash[..|loc.hash|] == loc.hash
    ensures loc.hash == where.hash <==> '?' !in where.hash
    ensures loc.hash != where.hash ==> where.hash[|loc.hash|] == '?'
    ensures loc.hideUi <==>
              QueryGet(where.search, "hide-ui") == Some("true")
              || FragmentCarriesHideUi(where.hash, loc.hash)
  {
    var pieces := Split(where.hash, "?");
    var hashPart := pieces[0];
    var fromFragment := Nth(pieces, 1) == Some("hide-ui=true");
    FragmentHideUi(where.hash);
    IndexOfChar(where.hash, '?');
    Location(
      if params.project.Some? then params.project.value else "",
      if params.version.Some? then params.version.value else "latest",
      if params.page.Some? then params.page.value else "index.html",
      hashPart,
      QueryGet(where.search, "hide-ui") == Some("true") || fromFragment)
  }

  /** The location the docs page derives from a URL, when the URL reaches the docs route. */
  function ReadRoute(url: string): Option<Location>
  {
    var where := ParsePath(url);
    match MatchRoute(where.pathname)
    case None => None
    case Some(params) => Some(FromRoute(params, where))
  }

  /**
   * A route segment: non-empty, free of the characters that delimit
   * segments, query and fragment, and free of `%`, which the router would
   * percent-decode.
   */
  predicate Segment(s: string) {
    |s| > 0 && '/' !in s && '?' !in s && '#' !in s && '%' !in s
  }

  /**
   * A location whose URL the route can read back: plain segments, and a
   * hash that is empty or a `?`-free fragment other than a bare `#`, which
   * the router reads as an empty hash.
   */
  predicate Routable(loc: Location) {
    && Segment(loc.project) && Segment(loc.version) && Segment(loc.page)
    && (loc.hash == "" || loc.hash[0] == '#') && '?' !in loc.hash && loc.hash != "#"
  }

  /** The path part `/{p}/{v}/{page}` of a URL. */
  function PathOf(loc: Location): string {
    "/" + loc.project + "/" + loc.version + "/" + loc.page
  }

  /** A routable location's pathname matches the docs route with all three parameters present. */
  lemma MatchPathOf(loc: Location)
    requires Routable(loc)
    ensures MatchRoute(PathOf(loc)) == Some(RouteParams(Some(loc.project), Some(loc.version), Some(loc.page)))
  {
    var tail := loc.version + "/" + loc.page;
    assert PathOf(loc)[1..] == loc.project + ['/'] + tail;
    SplitCharFirst(loc.project, '/', tail);
    assert tail == loc.version + ['/'] + loc.page;
    SplitCharFirst(loc.version, '/', loc.page);
    SplitCharAbsent(loc.page, '/');
  }

  /** Where the router puts the pieces of a URL written by `updateURL`. */
  lemma ParseUrl(loc: Location)
    requires Routable(loc)
    ensures ParsePath(Url(loc)) ==
              if loc.hash == "" then
                RouterLocation(PathOf(loc), if loc.hideUi then HideUiSuffix else "", "")
              else
                RouterLocation(PathOf(loc), "", loc.hash + if loc.hideUi then HideUiSuffix else "")
  {
    var a := PathOf(loc);
    var suffix := if loc.hideUi then HideUiSuffix else "";
    assert Url(loc) == a + loc.hash + suffix;
    assert '#' !in a && '?' !in a;
    if loc.hash == "" {
      assert Url(loc) == a + suffix + "";
      ParsePathUnique(a, suffix, "");
    } else {
      assert Url(loc) == a + "" + (loc.hash + suffix);
      ParsePathUnique(a, "", loc.hash + suffix);
    }
  }

  /** The route parameters a routable location's URL yields. */
  function ParamsOf(loc: Location): RouteParams {
    RouteParams(Some(loc.project), Some(loc.version), Some(loc.page))
  }

  /** Reading back a URL without fragment: the hide-ui option travels in the query. */
  lemma ReadBackWithoutFragment(loc: Location)
    requires Routable(loc) && loc.hash == ""
    ensures FromRoute(ParamsOf(loc), ParsePath(Url(loc))) == loc
  {
    ParseUrl(loc);
    var where := ParsePath(Url(loc));
    assert where.hash == "";
    assert !FragmentCarriesHideUi("", "");
    QueryGetEmpty("hide-ui");
    QueryGetHideUi();
  }

  /** A `?`-free prefix that ends the text or stops at a `?` is the text before the first `?`. */
  lemma QuestionFreePrefix(h: string, x: string, y: string)
    requires '?' !in x && |x| <= |h| && h[..|x|] == x && (x == h || h[|x|] == '?')
    requires '?' !in y && |y| <= |h| && h[..|y|] == y && (y == h || h[|y|] == '?')
    ensures x == y
  {
    if |x| != |y| {
      assert false;
    }
  }

  /** Reading back a URL whose fragment carries the hide-ui option. */
  lemma ReadBackHiddenFragment(loc: Location)
    requires Routable(loc) && loc.hash != "" && loc.hideUi
    ensures FromRoute(ParamsOf(loc), ParsePath(Url(loc))) == loc
  {
    ParseUrl(loc);
    var h := loc.hash + HideUiSuffix;
    var where := RouterLocation(PathOf(loc), "", h);
    assert ParsePath(Url(loc)) == where;
    var r := FromRoute(ParamsOf(loc), where);
    QueryGetEmpty("hide-ui");
    assert h[..|loc.hash|] == loc.hash;
    assert h[|loc.hash|] == '?';
    QuestionFreePrefix(h, r.hash, loc.hash);
    assert FragmentCarriesHideUi(h, loc.hash);
  }

  /** Reading back a URL whose fragment is the plain hash. */
  lemma ReadBackShownFragment(loc: Location)
    requires Routable(loc) && loc.hash != "" && !loc.hideUi
    ensures FromRoute(ParamsOf(loc), ParsePath(Url(loc))) == loc
  {
    ParseUrl(loc);
    var where := RouterLocation(PathOf(loc), "", loc.hash);
    assert ParsePath(Url(loc)) == where;
    QueryGetEmpty("hide-ui");
    assert !FragmentCarriesHideUi(loc.hash, loc.hash);
  }

  /**
   * Round trip: a routable location serialised by `updateURL` and read back
   * through the route is the same location, so hydrating from the route in
   * `Replace` mode is a fixed point. The hide-ui option survives in both of
   * its encodings: as a query when the hash is empty, after the fragment
   * otherwise.
   */
  lemma RouteRoundTrip(loc: Location)
    requires Routable(loc)
    ensures ReadRoute(Url(loc)) == Some(loc)
  {
    ParseUrl(loc);
    MatchPathOf(loc);
    if loc.hash == "" {
      ReadBackWithoutFragment(loc);
    } else if loc.hideUi {
      ReadBackHiddenFragment(loc);
    } else {
      ReadBackShownFragment(loc);
    }
  }
}
