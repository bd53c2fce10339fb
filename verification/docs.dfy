/**
 * The docs page as a state machine (web/src/pages/Docs.tsx): its state is
 * the canonical location, the resolved catalog and the load-failure flag,
 * and each event the page reacts to is one pure transition.
 */
module Docs {
  import opened Wrappers
  import opened Locations
  import opened Browser
  import opened Route
  import opened Embedded
  import opened Versions

  /** The page's React state. */
  datatype DocsState = DocsState(loc: Location, versions: seq<VersionDescriptor>, loadingFailed: bool)

  /** The state at mount. */
  const Initial := DocsState(Blank, [], false)

  /** The state after an event, and the navigation it asks of the router. */
  datatype Outcome = Outcome(state: DocsState, nav: NavEffect)

  /** Why fetching the catalog failed: a network or parse error. */
  datatype FetchError = FetchFailed

  /** What the page renders. */
  datatype Screen = NotFound | Loading | Ready(showControls: bool)

  /** Lifts a location step to the whole state. */
  function Apply(st: DocsState, step: Step): Outcome {
    Outcome(st.(loc := step.loc), step.nav)
  }

  /**
   * A route change: an empty or missing project marks the load as failed
   * (lines 63-65), and the location is reconciled to the route in
   * `Replace` mode (lines 192-197).
   */
  function OnRoute(st: DocsState, params: RouteParams, where: RouterLocation): (r: Outcome)
    ensures r.state.loc == FromRoute(params, where)
    ensures r.state.versions == st.versions
    ensures r.state.loadingFailed <==> st.loadingFailed || r.state.loc.project == ""
    ensures r.nav.Stay? <==> st.loc == r.state.loc
    ensures r.nav.Navigate? ==> r.nav.replace && r.nav.url == Url(r.state.loc)
  {
    var projectParam := if params.project.Some? then params.project.value else "";
    var st' := if projectParam == "" then st.(loadingFailed := true) else st;
    Apply(st', UpdateLocation(st'.loc, FromRoute(params, where), Replace))
  }

  /** A route change given as the URL the router holds; a URL outside the docs route is not this page's concern. */
  function OnUrl(st: DocsState, url: string): Outcome
  {
    var where := ParsePath(url);
    match MatchRoute(where.pathname)
    case None => Outcome(st, Stay)
    case Some(params) => OnRoute(st, params, where)
  }

  /** A report from the embedded frame (lines 111-148). */
  function OnFrameReport(st: DocsState, href: Option<string>): (r: Outcome)
    ensures r.state.versions == st.versions && r.state.loadingFailed == st.loadingFailed
    ensures r.state.loc.hideUi == st.loc.hideUi
  {
    Apply(st, OnEmbeddedLocation(st.loc, href))
  }

  /**
   * The catalog for the current project has arrived (lines 150-190). No
   * project: nothing happens. A failed fetch or a failed resolution marks
   * the load as failed and touches nothing else. Success writes the
   * resolved version into the location in `Replace` mode, stores the
   * catalog and clears the failure flag.
   */
  function OnCatalog(st: DocsState, fetched: Result<seq<VersionDescriptor>, FetchError>,
                     latest: seq<VersionDescriptor> -> VersionDescriptor): (r: Outcome)
    ensures st.loc.project == "" ==> r == Outcome(st, Stay)
    ensures st.loc.project != "" && fetched.Failure? ==> r == Outcome(st.(loadingFailed := true), Stay)
    ensures st.loc.project != "" && fetched.Success? ==>
              match Resolve(fetched.value, st.loc.version, latest)
              case Failure(_) => r == Outcome(st.(loadingFailed := true), Stay)
              case Success(v) =>
                && r.state == DocsState(st.loc.(version := v), fetched.value, false)
                && (r.nav.Navigate? <==> v != st.loc.version)
                && (r.nav.Navigate? ==> r.nav.replace && r.nav.url == Url(r.state.loc))
  {
    if st.loc.project == "" then Outcome(st, Stay)
    else match fetched
      case Failure(_) => Outcome(st.(loadingFailed := true), Stay)
      case Success(catalog) =>
        match Resolve(catalog, st.loc.version, latest)
        case Failure(_) => Outcome(st.(loadingFailed := true), Stay)
        case Success(v) =>
          var step := UpdateLocation(st.loc, st.loc.(version := v), Replace);
          Outcome(DocsState(step.loc, catalog, false), step.nav)
  }

  /** The version picker (line 247): switch version, pushing a history entry. */
  function OnVersionChange(st: DocsState, v: string): (r: Outcome)
    ensures r.state == st.(loc := st.loc.(version := v))
    ensures r.nav.Navigate? <==> v != st.loc.version
    ensures r.nav.Navigate? ==> !r.nav.replace && r.nav.url == Url(r.state.loc)
  {
    Apply(st, UpdateLocation(st.loc, st.loc.(version := v), Push))
  }

  /** The hide-UI button (line 248): hide the controls, pushing a history entry. */
  function OnHideUi(st: DocsState): (r: Outcome)
    ensures r.state == st.(loc := st.loc.(hideUi := true))
    ensures r.nav.Navigate? <==> !st.loc.hideUi
    ensures r.nav.Navigate? ==> !r.nav.replace && r.nav.url == Url(r.state.loc)
  {
    Apply(st, UpdateLocation(st.loc, st.loc.(hideUi := true), Push))
  }

  /** The outdated-version banner for the current state (lines 199-216). */
  function Banner(st: DocsState, latest: seq<VersionDescriptor> -> VersionDescriptor): (m: Option<Message>)
    ensures m.Some? <==> |st.versions| > 0 && st.loc.version != latest(st.versions).name
  {
    OutdatedBanner(st.versions, st.loc.version, latest)
  }

  /**
   * What the page renders (lines 232-252): a failed load is the not-found
   * page, an empty catalog the loading page, and otherwise the document,
   * with the controls shown exactly when the UI is not hidden.
   */
  function View(st: DocsState): (s: Screen)
    ensures s == NotFound <==> st.loadingFailed
    ensures s == Loading <==> !st.loadingFailed && |st.versions| == 0
    ensures s.Ready? ==> (s.showControls <==> !st.loc.hideUi)
  {
    if st.loadingFailed then NotFound
    else if |st.versions| == 0 then Loading
    else Ready(!st.loc.hideUi)
  }

  /**
   * Hydration is a fixed point: when the router holds the URL of a
   * routable location, reconciling from the route changes nothing and
   * navigates nowhere.
   */
  lemma HydrationIsFixedPoint(st: DocsState)
    requires Routable(st.loc)
    ensures OnUrl(st, Url(st.loc)) == Outcome(st, Stay)
  {
    ParseUrl(st.loc);
    MatchPathOf(st.loc);
    RouteRoundTrip(st.loc);
  }

  /**
   * The feedback loop closes after one round: once an update has navigated
   * to a routable candidate, the route change it causes is a no-op.
   */
  lemma NavigationSettles(st: DocsState, candidate: Location, mode: HistoryMode)
    requires Routable(candidate)
    ensures var r := Apply(st, UpdateLocation(st.loc, candidate, mode));
            r.nav.Navigate? ==> OnUrl(r.state, r.nav.url) == Outcome(r.state, Stay)
  {
    var r := Apply(st, UpdateLocation(st.loc, candidate, mode));
    HydrationIsFixedPoint(r.state);
  }

  /**
   * At mount the page shows the loading screen, and the first route it
   * reads with a project replaces the history entry instead of pushing one.
   */
  lemma MountHydratesByReplace(params: RouteParams, where: RouterLocation)
    requires params.project.Some? && params.project.value != ""
    ensures View(Initial) == Loading
    ensures var r := OnRoute(Initial, params, where);
            r.nav == Navigate(Url(r.state.loc), true) && View(r.state) == Loading
  {
  }

  /** A route without a project always ends on the not-found page. */
  lemma MissingProjectIsNotFound(st: DocsState, params: RouteParams, where: RouterLocation)
    requires params.project.None?
    ensures View(OnRoute(st, params, where).state) == NotFound
  {
  }

  /** An empty catalog, or a failed fetch, ends on the not-found page and never on the loading page. */
  lemma NoCatalogIsNotFound(st: DocsState, fetched: Result<seq<VersionDescriptor>, FetchError>,
                            latest: seq<VersionDescriptor> -> VersionDescriptor)
    requires st.loc.project != ""
    requires fetched.Failure? || fetched.value == []
    ensures View(OnCatalog(st, fetched, latest).state) == NotFound
  {
  }

  /** Viewing `latest` never raises the outdated banner once the catalog is in. */
  lemma LatestIsNeverOutdated(st: DocsState, catalog: seq<VersionDescriptor>,
                              latest: seq<VersionDescriptor> -> VersionDescriptor)
    requires st.loc.project != "" && st.loc.version == LatestToken && |catalog| > 0
    ensures Banner(OnCatalog(st, Success(catalog), latest).state, latest).None?
  {
  }

  /** Hiding the UI on a ready page hides the controls and writes the hide-ui suffix into the URL. */
  lemma HideUiHidesControls(st: DocsState)
    requires View(st) == Ready(true)
    ensures View(OnHideUi(st).state) == Ready(false)
    ensures var nav := OnHideUi(st).nav;
            nav.Navigate? && !nav.replace
            && nav.url[|nav.url| - |HideUiSuffix|..] == HideUiSuffix
  {
  }

  /** The newest entry of a sorted catalog, standing in for `getLatestVersion`. */
  function LastOf(vs: seq<VersionDescriptor>): VersionDescriptor {
    if |vs| == 0 then VersionDescriptor("", []) else vs[|vs| - 1]
  }

  /** A three-version catalog in ascending order with the tag `stable` on 1.2.0. */
  const SampleCatalog := [
    VersionDescriptor("1.0.0", []),
    VersionDescriptor("1.2.0", ["stable"]),
    VersionDescriptor("2.0.0", [])
  ]

  /**
   * On the sample catalog: `latest` resolves to 2.0.0 without a banner;
   * `stable` is accepted and kept as the version string `stable` (not
   * 1.2.0), with the banner; `9.9.9` fails.
   */
  lemma SampleCatalogResolution()
    ensures Resolve(SampleCatalog, LatestToken, LastOf) == Success("2.0.0")
    ensures OutdatedBanner(SampleCatalog, "2.0.0", LastOf).None?
    ensures Resolve(SampleCatalog, "stable", LastOf) == Success("stable")
    ensures OutdatedBanner(SampleCatalog, "stable", LastOf).Some?
    ensures Resolve(SampleCatalog, "9.9.9", LastOf) == Failure(UnknownVersion)
  {
    assert SampleCatalog[1].name == "1.2.0" && "stable" in SampleCatalog[1].tags;
    assert Known(SampleCatalog, "stable");
  }
}
