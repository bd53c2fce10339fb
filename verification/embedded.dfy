/**
 * Folding the embedded documentation frame's own navigation back into the
 * canonical location: `onIFrameLocationChanged`
 * (web/src/pages/Docs.tsx, lines 111-148).
 */
module Embedded {
  import opened Wrappers
  import opened JsString
  import opened Locations

  /** The path segment that precedes `{project}/{version}/{page}{hash}` in a frame URL. */
  const DocMarker := "/doc/"

  /** What a frame URL names after the marker. */
  datatype EmbeddedPath = EmbeddedPath(project: string, version: string, page: string, hash: string)

  /**
   * `url.split('/doc/')[1]` (see `AfterDocIsSplit`): absent exactly when
   * the marker does not occur; otherwise the text that follows the first
   * marker, up to the next one.
   */
  function AfterDoc(href: string): (r: Option<string>)
    ensures r.None? <==> IndexOf(href, DocMarker).None?
    ensures r.Some? ==>
              var start := IndexOf(href, DocMarker).value + |DocMarker|;
              && start + |r.value| <= |href|
              && href[start..start + |r.value|] == r.value
              && IndexOf(r.value, DocMarker).None?
              && (start + |r.value| == |href| || OccursAt(href, DocMarker, start + |r.value|))
              && forall j: nat :: start <= j < start + |r.value| ==> !OccursAt(href, DocMarker, j)
  {
    match IndexOf(href, DocMarker)
    case None => None
    case Some(i) =>
      SuffixHead(href, i + |DocMarker|, DocMarker);
      SuffixHeadFirst(href, i + |DocMarker|, DocMarker);
      Some(Split(href[i + |DocMarker|..], DocMarker)[0])
  }

  /** `AfterDoc` is the second piece of the split on the marker, `undefined` when there is none. */
  lemma AfterDocIsSplit(href: string)
    ensures AfterDoc(href) == Nth(Split(href, DocMarker), 1)
  {
    match IndexOf(href, DocMarker)
    case None =>
    case Some(i) => SplitSecond(href, DocMarker, i);
  }

  /**
   * The page/hash split of lines 136-138: the cut is at the first `#`, or
   * at the end when there is none. The two halves rebuild the text, the page
   * holds no `#`, and the hash is empty or starts with `#`.
   */
  function SplitAtHash(s: string): (r: (string, string))
    ensures r.0 + r.1 == s
    ensures '#' !in r.0 && (r.1 == "" || r.1[0] == '#')
  {
    CutAt(s, '#')
  }

  /** The page/hash split is the only one with those properties. */
  lemma SplitAtHashUnique(page: string, hash: string)
    requires '#' !in page && (hash == "" || hash[0] == '#')
    ensures SplitAtHash(page + hash) == (page, hash)
  {
    CutAtUnique(page, hash, '#');
  }

  /**
   * Lines 132-138 on the text after the marker: project and version are
   * the first two `/`-separated segments, and page followed by hash is the
   * remaining segments rejoined with `/`. Text with fewer than two segments
   * names no version and is rejected (see `ParseDocPathAsWritten`).
   */
  function ParseDocPath(rest: string): (r: Option<EmbeddedPath>)
    ensures r.None? <==> |Split(rest, "/")| < 2
    ensures r.Some? ==>
              var parts := Split(rest, "/");
              && r.value.project == parts[0] && r.value.version == parts[1]
              && r.value.page + r.value.hash == Join(parts[2..], "/")
              && '#' !in r.value.page
              && (r.value.hash == "" || r.value.hash[0] == '#')
  {
    var parts := Split(rest, "/");
    if |parts| < 2 then None
    else
      var (page, hash) := SplitAtHash(Join(parts[2..], "/"));
      Some(EmbeddedPath(parts[0], parts[1], page, hash))
  }

  /** The text a frame URL carries after the marker for a given path. */
  function DocPath(e: EmbeddedPath): string {
    e.project + "/" + e.version + "/" + e.page + e.hash
  }

  /** A path the frame can report: plain project and version segments, a `#`-free page, a hash that is empty or a fragment. */
  predicate Reportable(e: EmbeddedPath) {
    && '/' !in e.project && '/' !in e.version && '#' !in e.page
    && (e.hash == "" || e.hash[0] == '#')
  }

  /** Round trip: parsing the text written for a reportable path gives that path back. The page may hold `/`. */
  lemma DocPathRoundTrip(e: EmbeddedPath)
    requires Reportable(e)
    ensures ParseDocPath(DocPath(e)) == Some(e)
  {
    var tail := e.page + e.hash;
    assert DocPath(e) == e.project + ['/'] + (e.version + ['/'] + tail);
    SplitCharFirst(e.project, '/', e.version + ['/'] + tail);
    SplitCharFirst(e.version, '/', tail);
    var parts := Split(DocPath(e), "/");
    assert parts == [e.project, e.version] + Split(tail, "/");
    assert parts[2..] == Split(tail, "/");
    SplitAtHashUnique(e.page, e.hash);
  }

  /**
   * `onIFrameLocationChanged` on the canonical location: no URL, or a URL
   * without the marker, changes nothing and navigates nowhere; otherwise
   * the reported project, version, page and hash are pushed through
   * `updateURL`, which keeps the current hide-ui option.
   */
  function OnEmbeddedLocation(current: Location, href: Option<string>): (r: Step)
    ensures href.None? ==> r == Step(current, Stay)
    ensures href.Some? && IndexOf(href.value, DocMarker).None? ==> r == Step(current, Stay)
    ensures r.loc.hideUi == current.hideUi
    ensures r.nav.Navigate? ==> !r.nav.replace && r.nav.url == Url(r.loc) && r.loc != current
    ensures r.nav.Stay? ==> r.loc == current
  {
    if href.None? then Step(current, Stay)
    else match AfterDoc(href.value)
      case None => Step(current, Stay)
      case Some(rest) =>
        match ParseDocPath(rest)
        case None => Step(current, Stay)
        case Some(e) =>
          if e.project != current.project || e.version != current.version
             || e.page != current.page || e.hash != current.hash
          then UpdateLocation(current, Location(e.project, e.version, e.page, e.hash, current.hideUi), Push)
          else Step(current, Stay)
  }

  /**
   * A frame URL `prefix/doc/{project}/{version}/{page}{hash}` moves the
   * canonical location to exactly that path with the hide-ui option kept,
   * pushing a history entry exactly when the path differs from the current
   * one.
   */
  lemma FrameReportIsFollowed(current: Location, prefix: string, e: EmbeddedPath)
    requires Reportable(e)
    requires IndexOf(prefix + DocMarker, DocMarker) == Some(|prefix|)
    requires IndexOf(DocPath(e), DocMarker).None?
    ensures var target := Location(e.project, e.version, e.page, e.hash, current.hideUi);
            OnEmbeddedLocation(current, Some(prefix + DocMarker + DocPath(e)))
            == UpdateLocation(current, target, Push)
  {
    var href := prefix + DocMarker + DocPath(e);
    SplitAtAppended(prefix, DocMarker, DocPath(e));
    SplitAbsent(DocPath(e), DocMarker);
    assert IndexOf(href, DocMarker).Some? by {
      assert href[..|prefix| + |DocMarker|] == prefix + DocMarker;
      OccursInPrefix(href, |prefix| + |DocMarker|, DocMarker, |prefix|);
    }
    assert AfterDoc(href) == Some(DocPath(e));
    DocPathRoundTrip(e);
  }

  /**
   * Only the text up to a second marker is followed: for
   * `…/doc/p/v/guide/doc/intro.html` the page goes to `/p/v/guide`, and a
   * hash route `#/doc/x` becomes the hash `#`.
   */
  lemma FrameReportIsTruncated(current: Location, prefix: string, e: EmbeddedPath, tail: string)
    requires Reportable(e)
    requires IndexOf(prefix + DocMarker, DocMarker) == Some(|prefix|)
    requires IndexOf(DocPath(e) + DocMarker, DocMarker) == Some(|DocPath(e)|)
    ensures var target := Location(e.project, e.version, e.page, e.hash, current.hideUi);
            OnEmbeddedLocation(current, Some(prefix + DocMarker + (DocPath(e) + DocMarker + tail)))
            == UpdateLocation(current, target, Push)
  {
    var href := prefix + DocMarker + (DocPath(e) + DocMarker + tail);
    SplitAtAppended(prefix, DocMarker, DocPath(e) + DocMarker + tail);
    SplitAtAppended(DocPath(e), DocMarker, tail);
    AfterDocIsSplit(href);
    assert AfterDoc(href) == Some(DocPath(e));
    DocPathRoundTrip(e);
  }

  /** The rendering of a possibly `undefined` value inside a JavaScript template literal. */
  function TemplateText(v: Option<string>): string {
    match v
    case None => "undefined"
    case Some(s) => s
  }

  /** Lines 132-138 exactly as written: the version is `parts[1]`, `undefined` when there is no second segment. */
  datatype RawPath = RawPath(project: string, version: Option<string>, page: string, hash: string)

  /** The parse of lines 132-138 with no check on the number of segments. */
  function ParseDocPathAsWritten(rest: string): (r: RawPath)
    ensures r.version.None? <==> |Split(rest, "/")| < 2
  {
    var parts := Split(rest, "/");
    var (page, hash) := SplitAtHash(Join(if |parts| >= 2 then parts[2..] else [], "/"));
    RawPath(parts[0], Nth(parts, 1), page, hash)
  }

  /**
   * The navigation lines 140-141 cause for the text after the marker, as
   * written: an `undefined` version never equals the current one, so
   * `updateURL` is called and writes the word `undefined` into the URL.
   */
  function NavigationAsWritten(current: Location, rest: string): (nav: NavEffect)
    ensures ParseDocPathAsWritten(rest).version.None? ==> nav.Navigate?
  {
    var raw := ParseDocPathAsWritten(rest);
    var differs := raw.project != current.project || raw.version != Some(current.version)
                   || raw.page != current.page || raw.hash != current.hash;
    if !differs then Stay
    else
      var url := "/" + raw.project + "/" + TemplateText(raw.version) + "/" + raw.page + raw.hash
                 + (if current.hideUi then HideUiSuffix else "");
      Navigate(url, false)
  }

  /**
   * A frame whose path after `/doc/` is a single segment `seg` sends the
   * page to `/{seg}/undefined/`, a version that does not exist; for
   * example `/doc/proj` leads to `/proj/undefined/`.
   */
  lemma AsWrittenNavigatesToUndefined(current: Location, seg: string)
    requires '/' !in seg
    ensures NavigationAsWritten(current, seg)
            == Navigate("/" + seg + "/undefined/" + (if current.hideUi then HideUiSuffix else ""), false)
  {
    var raw := ParseDocPathAsWritten(seg);
    assert raw.version.None? && raw.project == seg by {
      SplitCharAbsent(seg, '/');
    }
    assert raw.page == "" && raw.hash == "";
  }

  /** Text without `/` cannot contain the marker, which starts with `/`. */
  lemma NoSlashNoMarker(seg: string)
    requires '/' !in seg
    ensures IndexOf(seg, DocMarker).None?
  {
    forall j: nat | j + |DocMarker| <= |seg|
      ensures !OccursAt(seg, DocMarker, j)
    {
      assert seg[j..j + |DocMarker|][0] == seg[j];
    }
  }

  /**
   * The corrected parse ignores every report whose path after the marker
   * is a single segment, leaving the location and the history alone, as
   * for a URL without the marker.
   */
  lemma CorrectedIgnoresMissingVersion(current: Location, prefix: string, seg: string)
    requires IndexOf(prefix + DocMarker, DocMarker) == Some(|prefix|)
    requires '/' !in seg
    ensures OnEmbeddedLocation(current, Some(prefix + DocMarker + seg)) == Step(current, Stay)
  {
    var href := prefix + DocMarker + seg;
    NoSlashNoMarker(seg);
    SplitAtAppended(prefix, DocMarker, seg);
    SplitAbsent(seg, DocMarker);
    assert IndexOf(href, DocMarker).Some? by {
      assert href[..|prefix| + |DocMarker|] == prefix + DocMarker;
      OccursInPrefix(href, |prefix| + |DocMarker|, DocMarker, |prefix|);
    }
    assert AfterDoc(href) == Some(seg);
    SplitCharAbsent(seg, '/');
  }

  /** Where the report names a version, the corrected parse agrees with the code as written. */
  lemma CorrectedAgreesWhenVersionPresent(rest: string)
    requires |Split(rest, "/")| >= 2
    ensures var raw := ParseDocPathAsWritten(rest);
            ParseDocPath(rest) == Some(EmbeddedPath(raw.project, raw.version.value, raw.page, raw.hash))
  {
  }
}
