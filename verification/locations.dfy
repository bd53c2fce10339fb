/**
 * The canonical location of the docs page and its one mutator, `updateURL`
 * (web/src/pages/Docs.tsx, lines 67-91).
 */
module Locations {

  /** The five pieces of React state the page renders from. */
  datatype Location = Location(project: string, version: string, page: string, hash: string, hideUi: bool)

  /** The state before the route has been read: everything empty, controls shown. */
  const Blank := Location("", "", "", "", false)

  /** How a change of location is recorded in the browser history. */
  datatype HistoryMode = Push | Replace | Skip

  /** What `updateURL` asks the router to do. */
  datatype NavEffect = Stay | Navigate(url: string, replace: bool)

  /** The new location together with the navigation it causes. */
  datatype Step = Step(loc: Location, nav: NavEffect)

  /** The query suffix that carries the hide-ui option. */
  const HideUiSuffix := "?hide-ui=true"

  /** The outer route a location is serialised to: `/{p}/{v}/{page}{hash}[?hide-ui=true]`. */
  function Url(loc: Location): (u: string)
    ensures |u| > 0 && u[0] == '/'
    ensures loc.hideUi ==> |u| >= |HideUiSuffix| && u[|u| - |HideUiSuffix|..] == HideUiSuffix
  {
    "/" + loc.project + "/" + loc.version + "/" + loc.page + loc.hash
      + (if loc.hideUi then HideUiSuffix else "")
  }

  /**
   * `updateURL`: a candidate equal to the current location in all five
   * fields changes nothing and navigates nowhere; otherwise the location
   * becomes the candidate, and unless the mode is `Skip` the router is sent
   * to the candidate's URL, replacing the history entry exactly in mode
   * `Replace`.
   */
  function UpdateLocation(current: Location, candidate: Location, mode: HistoryMode): (r: Step)
    ensures current == candidate ==> r == Step(current, Stay)
    ensures r.loc == candidate
    ensures r.nav.Navigate? <==> current != candidate && mode != Skip
    ensures r.nav.Navigate? ==> r.nav.url == Url(candidate) && (r.nav.replace <==> mode == Replace)
  {
    if current.project == candidate.project && current.version == candidate.version
       && current.page == candidate.page && current.hash == candidate.hash
       && current.hideUi == candidate.hideUi
    then Step(current, Stay)
    else if mode == Skip then Step(candidate, Stay)
    else if mode == Replace then Step(candidate, Navigate(Url(candidate), true))
    else Step(candidate, Navigate(Url(candidate), false))
  }

  /** Repeating an update, in any mode, is a no-op: this is what breaks the feedback loop. */
  lemma UpdateIdempotent(current: Location, candidate: Location, mode: HistoryMode, again: HistoryMode)
    ensures UpdateLocation(UpdateLocation(current, candidate, mode).loc, candidate, again)
            == Step(candidate, Stay)
  {
  }
}
