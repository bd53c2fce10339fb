# Docs page navigation model

A Dafny model of the navigation-state reconciler of docat's documentation
page, `web/src/pages/Docs.tsx`. The page keeps one canonical location
`(project, version, page, hash, hideUi)` and reconciles it with three
sources that change on their own: the outer route, the embedded
documentation frame, and the version catalog fetched for the project.

The model turns each part into pure functions over immutable values:

- `Locations`: the `Location` tuple, its URL `/{p}/{v}/{page}{hash}[?hide-ui=true]`,
  and `UpdateLocation`, the equality-guarded `updateURL` with its history
  mode (`Push`, `Replace`, `Skip`).
- `Route`: deriving a location from route parameters, fragment and query
  (defaults `latest` and `index.html`, the fragment cut at its first `?`,
  the hide-ui option in either of its two encodings), and the round trip
  from `updateURL`'s URL back to the same location.
- `Embedded`: `onIFrameLocationChanged` — the text after `/doc/`, the
  project/version/page split, the page/hash cut at the first `#`, and the
  push update that keeps `hideUi`.
- `Versions`: resolving the requested version against the catalog, and
  the outdated-version banner.
- `Docs`: the page as a state machine (route change, frame report,
  catalog arrival, version switch, hide-UI button) and the screen it
  renders (not found, loading, ready with or without controls).
- `JsString` and `Browser`: the JavaScript string primitives (`indexOf`,
  `split`, `join`, out-of-range indexing) and the router's reading of a URL
  (path parser, `URLSearchParams.get`, the route `:project/:version/:page`),
  as far as the page depends on them.

`ProjectRepository.getLatestVersion` is not part of this model: it is a
function parameter `latest`, and the only assumption made about it
(`Versions.LatestIsMember`) is that it returns an element of any non-empty
list. The route table is not part of this model either; the docs route is
taken to be `/:project/:version?/:page?`, with an empty segment reading as
an absent parameter.

A tag is described as an alias for exactly one version name, but the code
accepts a tag and keeps it verbatim as the version string (line 179)
instead of replacing it by the name of the version carrying it; the model
follows the code. One consequence, proved in `Versions.BannerAfterResolve`, is that a
tag of the newest version still raises the outdated-version banner.

## Model

| member | source | states |
|---|---|---|
| Locations.Url | web/src/pages/Docs.tsx:68 | the URL starts with `/` and ends with `?hide-ui=true` when the UI is hidden; `Route.RouteRoundTrip` is its inverse |
| Locations.UpdateLocation | web/src/pages/Docs.tsx:67-91 | a candidate equal in all five fields changes nothing and navigates nowhere; otherwise the location becomes the candidate, `Skip` navigates nowhere, `Replace` and `Push` navigate once to the candidate's URL, replacing exactly in `Replace` |
| Locations.UpdateIdempotent | web/src/pages/Docs.tsx:70-79 | repeating an update in any mode is a no-op, which breaks the feedback loop |
| Route.FragmentHideUi | web/src/pages/Docs.tsx:27 | the second `?`-piece of the fragment is `hide-ui=true` exactly when the fragment reads `{hash}?hide-ui=true` followed by nothing or another `?` |
| Browser.FirstValue | web/src/pages/Docs.tsx:27 | `get('hide-ui')` finds the value of the first non-empty pair named `hide-ui`, and nothing exactly when no non-empty pair has that name |
| Route.FromRoute | web/src/pages/Docs.tsx:23-27 | missing project, version and page become `""`, `latest` and `index.html`; the hash is the longest `?`-free prefix of the fragment; the UI is hidden exactly when the query has `hide-ui=true` or the fragment carries `?hide-ui=true` after the hash |
| Route.RouteRoundTrip | web/src/pages/Docs.tsx:23-27 | reading back the URL `updateURL` writes for a routable location gives that location, including the hide-ui option in both encodings |
| Embedded.AfterDoc | web/src/pages/Docs.tsx:116-120 | absent exactly when `/doc/` does not occur; otherwise the text right after the first `/doc/`, in which no `/doc/` starts, running to the next `/doc/` or to the end |
| Embedded.AfterDocIsSplit | web/src/pages/Docs.tsx:116 | that text is the second piece of the URL split on `/doc/`, and `undefined` when the split yields one piece |
| Embedded.SplitAtHash | web/src/pages/Docs.tsx:136-138 | page and hash rebuild the text, the page holds no `#`, the hash is empty or starts with `#` |
| Embedded.SplitAtHashUnique | web/src/pages/Docs.tsx:136-138 | any page/hash pair with those properties is the one the split finds |
| Embedded.ParseDocPath | web/src/pages/Docs.tsx:132-138 | project and version are segments 0 and 1, page followed by hash is the remaining segments joined by `/`, the page holds no `#`, the hash is empty or starts with `#`; fewer than two segments are rejected |
| Embedded.DocPathRoundTrip | web/src/pages/Docs.tsx:132-138 | parsing `{p}/{v}/{page}{hash}` gives back `p`, `v`, `page` and `hash`, also for pages containing `/` |
| Embedded.OnEmbeddedLocation | web/src/pages/Docs.tsx:111-148 | no URL, or one without `/doc/`, leaves the location unchanged with no navigation; the hide-ui option is never changed; any navigation is a push to the new location's URL, and no navigation means no change; a report that names no version is ignored (see Findings) |
| Embedded.FrameReportIsFollowed | web/src/pages/Docs.tsx:116-142 | a frame URL `…/doc/{p}/{v}/{page}{hash}` whose path holds no further `/doc/` is exactly a push update to that path with the current hide-ui option |
| Embedded.FrameReportIsTruncated | web/src/pages/Docs.tsx:116-142 | when a second `/doc/` follows the path, only the path up to it is followed: `…/doc/p/v/guide/doc/intro.html` pushes `/p/v/guide`, and a hash route `#/doc/x` becomes the hash `#` |
| Embedded.ParseDocPathAsWritten | web/src/pages/Docs.tsx:132-135 | the version is `undefined` exactly when the text after `/doc/` has fewer than two segments |
| Embedded.NavigationAsWritten | web/src/pages/Docs.tsx:132-141 | with an `undefined` version the code always navigates |
| Embedded.AsWrittenNavigatesToUndefined | web/src/pages/Docs.tsx:132-141 | a frame whose path after `/doc/` is one segment `seg` (any `#` in it included) sends the page to `/{seg}/undefined/`, e.g. `/doc/proj` to `/proj/undefined/` |
| Embedded.CorrectedIgnoresMissingVersion | web/src/pages/Docs.tsx:116-120 | with the corrected parse, every frame URL whose path after its first `/doc/` is a single segment (such as `/doc/proj`) leaves location and history alone, as a URL without `/doc/` does |
| Embedded.CorrectedAgreesWhenVersionPresent | web/src/pages/Docs.tsx:132-138 | whenever a second segment exists, the corrected parse equals the code as written |
| Versions.NamesAndTags | web/src/pages/Docs.tsx:171 | the flattened list holds exactly the names and tags of the catalog |
| Versions.Resolve | web/src/pages/Docs.tsx:159-180 | an empty catalog fails; `latest` becomes the latest entry's name; any other token succeeds exactly when it is a known name or tag and is then kept verbatim; other failures are unknown-version errors |
| Versions.ResolvedIsKnown | web/src/pages/Docs.tsx:167-179 | if `getLatestVersion` picks a list element, every resolved version is a name or tag of the catalog |
| Versions.OutdatedBanner | web/src/pages/Docs.tsx:202-215 | a banner is requested exactly when the catalog is non-empty and the version is not the latest entry's name; it is a persistent warning with the outdated-version text |
| Versions.BannerAfterResolve | web/src/pages/Docs.tsx:179-215 | after a successful resolution the banner fires exactly when the token was neither `latest` nor the latest name, so a tag of the newest version still fires it |
| Docs.OnRoute | web/src/pages/Docs.tsx:192-197 | the location becomes the one derived from the route, with a replace navigation exactly when it changed; an empty project also sets the failure flag (lines 63-65) |
| Docs.OnFrameReport | web/src/pages/Docs.tsx:111-148 | a frame report changes neither catalog, failure flag nor hide-ui option |
| Docs.OnCatalog | web/src/pages/Docs.tsx:150-190 | no project: nothing; fetch or resolution failure: only the failure flag is set; success: the resolved version is written with a replace navigation exactly when it changed, the catalog is stored and the flag cleared |
| Docs.OnVersionChange | web/src/pages/Docs.tsx:247 | only the version changes, with a push navigation exactly when it differs |
| Docs.OnHideUi | web/src/pages/Docs.tsx:248 | only the hide-ui option is set, with a push navigation to the new location's URL exactly when it was off |
| Docs.Banner | web/src/pages/Docs.tsx:199-216 | the banner is due exactly when the stored catalog is non-empty and the version is not its latest name |
| Docs.View | web/src/pages/Docs.tsx:232-252 | failed load is not-found, otherwise an empty catalog is loading, otherwise ready with controls exactly when the UI is not hidden |
| Docs.HydrationIsFixedPoint | web/src/pages/Docs.tsx:192-197 | when the router holds the URL of a routable location, reconciling from the route changes nothing and navigates nowhere |
| Docs.NavigationSettles | web/src/pages/Docs.tsx:67-91 | after an update navigates to a routable candidate, the route change it causes is a no-op |
| Docs.MountHydratesByReplace | web/src/pages/Docs.tsx:29-36 | the freshly mounted page shows the loading screen, and reading the first route with a project navigates with `replace`, not `push`, and still shows the loading screen |
| Docs.MissingProjectIsNotFound | web/src/pages/Docs.tsx:63-65 | a route without a project renders the not-found page |
| Docs.NoCatalogIsNotFound | web/src/pages/Docs.tsx:155-188 | an empty catalog or a failed fetch renders the not-found page, never the loading page |
| Docs.LatestIsNeverOutdated | web/src/pages/Docs.tsx:167-168 | resolving `latest` against a non-empty catalog never raises the banner |
| Docs.HideUiHidesControls | web/src/pages/Docs.tsx:243-248 | hiding the UI on a ready page hides the controls and pushes a URL ending in `?hide-ui=true` |
| Docs.SampleCatalogResolution | web/src/pages/Docs.tsx:167-180 | on 1.0.0, 1.2.0 (tag `stable`), 2.0.0: `latest` is 2.0.0 with no banner, `stable` stays `stable` with the banner, `9.9.9` fails |

## Left out

- React hooks, effect scheduling, re-renders and the `useMemo` keying of the frame: each event is one transition of `Docs`; the closures' view of slightly older state is not modelled.
- The frame's DOM: reading `contentWindow`/`contentDocument`, attaching and removing the `hashchange` listener (lines 97-109, 144-147), and marking external links `target="_blank"` (lines 122-130). These are browser side effects with no bearing on the location.
- The popstate handler (lines 218-230): its extra `history.back()` depends on browser history behaviour; its `Skip`-mode update is covered by `Locations.UpdateLocation`.
- `document.title` (line 61): a DOM side effect.
- The asynchronous `getVersions` fetch, its exceptions and the race with a newer project: `Docs.OnCatalog` takes the fetched catalog, or a fetch failure, as a parameter.
- Sorting the catalog with `compareVersions` (line 164): the comparator is not part of this model, so `Docs.OnCatalog` takes the catalog already sorted; membership does not depend on order.
- `getLatestVersion` and `getProjectDocsURL`: not part of this model; the first is the parameter `latest`.
- `URLSearchParams` percent-decoding and `+` as space: `Browser.QueryGet` compares raw text.
- The router reads a bare `#` fragment as an empty hash and percent-decodes path parameters; `Browser.ParsePath` and `Browser.MatchRoute` do neither. `Route.Routable` therefore excludes the hash `#` and `%` in segments, and `Route.RouteRoundTrip`, `Docs.HydrationIsFixedPoint` and `Docs.NavigationSettles` say nothing about such locations. In particular a frame report with hash `#` (a link to `#`) is followed by one more replace round that clears the hash, and the model does not state that round.
- The browser also normalises a URL before the router reads it: it removes `.` and `..` path segments, and it percent-encodes space, `"`, `<`, `>` and `` ` `` in the fragment, which the router does not decode. `Route.RouteRoundTrip` does not model this step, so for a routable location with such a segment or fragment (version `..`, hash `#a b`) the program would not read the same location back. A location read from an already-normalised URL contains neither.
- The route table is not part of this model; it is assumed to be `/:project/:version?/:page?`; pages containing `/` do not reach the docs route this way, so `Route.RouteRoundTrip` is stated for `/`-free pages.

## Findings

| source | as written | input that shows it | evidently intended | confidence | as-written member | corrected member |
|---|---|---|---|---|---|---|
| web/src/pages/Docs.tsx:132-141 | `parts[1]` is used as the version without checking that a second segment exists; `undefined` never equals the current version, so `updateURL` runs and the template literal writes `undefined` into the URL | a frame URL ending in `/doc/proj` | a frame URL that names no version is ignored, like one without `/doc/` (lines 117-120) | not executed; medium | Embedded.AsWrittenNavigatesToUndefined | Embedded.CorrectedIgnoresMissingVersion |
