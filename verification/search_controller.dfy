/**
 * The search-state controller of `useAddressSearch` (src/hooks/useAddressSearch.ts) as an
 * event-driven state machine.
 *
 * The hook's callbacks (`setQuery`, `searchAddresses`, `selectAddress`, `clearSearch`,
 * `setLimit`, `setAutocomplete`), the firing of the debounce timer and the settling of a
 * fetch are events. After each event React re-renders, and the auto-search effect runs
 * again (its cleanup first) whenever one of its dependencies changed; its own dispatches
 * can trigger one more run. The debounce timer is a pending callback with the query and
 * limit it captured; the `AbortController` of the last issued fetch is a token naming an
 * entry of the in-flight request table.
 */
module SearchController {
  import opened Types
  import opened JsStrings
  import R = SearchReducer

  /** `defaultConfig`: 300 ms debounce, 3 code units minimum, 10 results. */
  const DefaultConfig := SearchConfig(300, 3, 10)

  /** The error shown when a search fails for any reason other than its own abort. */
  const SearchErrorMessage := "Erreur lors de la recherche. Veuillez réessayer."

  /** A fetch issued by `searchAddresses` that has not settled yet; `aborted` once its signal fired. */
  datatype Request = Request(query: string, limit: int, aborted: bool)

  /** The pending debounce callback: it will search `query` with the limit captured when armed. */
  datatype Timer = Timer(query: string, limit: int)

  /**
   * The hook's state: the reducer state, the pending debounce timer (`debounceRef`), the token
   * of the last issued fetch (`abortControllerRef`, which keeps naming a fetch after it settles),
   * the fetches still in flight, and the next fresh token.
   */
  datatype Controller = Controller(
    config: SearchConfig,
    st: SearchState,
    timer: Option<Timer>,
    live: Option<nat>,
    requests: map<nat, Request>,
    nextToken: nat)

  /**
   * How the network answers a fetch that was not aborted: a response body whose `features`
   * may be missing, or a failure (non-2xx status, network error, unparsable body).
   */
  datatype Outcome = Response(features: Option<seq<Address>>) | Failure

  datatype Event =
    | QueryChanged(text: string)                     // setQuery
    | SearchCalled(query: string, limit: Option<int>) // searchAddresses called directly
    | TimerFired                                     // the debounce callback runs
    | RequestSettled(token: nat, outcome: Outcome)    // a fetch resolves or rejects
    | AddressSelected(address: Address)             // selectAddress
    | SearchCleared                                  // clearSearch
    | LimitChanged(newLimit: int)                    // setLimit
    | AutocompleteChanged(on: bool)                  // setAutocomplete

  /** The values the auto-search effect depends on; `limit` reaches it through `debouncedSearch`. */
  datatype Deps = Deps(query: string, autocomplete: bool, selected: Option<Address>, limit: int)

  function DepsOf(c: Controller): Deps {
    Deps(c.st.query, c.st.autocomplete, c.st.selectedAddress, c.st.limit)
  }

  function Dispatch(c: Controller, a: R.Action): Controller {
    c.(st := R.Reduce(c.st, a))
  }

  /** A selection is settled when the query still reads as the selected address's label. */
  predicate Settled(s: SearchState) {
    s.selectedAddress.Some? && s.query == s.selectedAddress.value.displayLabel
  }

  /** The short-query guard of `searchAddresses`: blank after trimming, or too short BEFORE trimming. */
  predicate TooShortToSearch(cfg: SearchConfig, q: string) {
    Trim(q) == "" || JsLength(q) < cfg.minQueryLength
  }

  /** `abortControllerRef.current.abort()`: marks the last issued fetch aborted if it is still in flight. */
  function AbortLive(c: Controller): (r: Controller)
    ensures r.requests.Keys == c.requests.Keys
    ensures forall t :: t in c.requests ==>
      r.requests[t] == if c.live == Some(t) then c.requests[t].(aborted := true) else c.requests[t]
    ensures r == c.(requests := r.requests)
  {
    match c.live
    case Some(t) =>
      if t in c.requests then c.(requests := c.requests[t := c.requests[t].(aborted := true)]) else c
    case None => c
  }

  function CancelTimer(c: Controller): Controller {
    c.(timer := None)
  }

  /** The three clauses of the in-flight table: tokens are fresh, and only the live fetch may be unaborted. */
  predicate Inv(c: Controller) {
    && (forall t :: t in c.requests ==> t < c.nextToken)
    && (c.live.Some? ==> c.live.value < c.nextToken)
    && (forall t :: t in c.requests && !c.requests[t].aborted ==> c.live == Some(t))
  }

  /** `searchAddresses(q, limit)` up to the point where it awaits the fetch. */
  function SearchAddresses(c: Controller, q: string, limit: int): (r: Controller)
    // the guard clears the list and hides it, and touches nothing else: no fetch, no abort
    ensures TooShortToSearch(c.config, q) ==>
      r == c.(st := c.st.(results := [], showResults := false))
    // otherwise a fresh fetch becomes the live one, after the previous live fetch was aborted
    ensures !TooShortToSearch(c.config, q) ==>
      && r.live == Some(c.nextToken) && r.nextToken == c.nextToken + 1
      && r.requests == AbortLive(c).requests[c.nextToken := Request(q, limit, false)]
      && r.st == c.st.(loading := true, error := "")
      && r.timer == c.timer && r.config == c.config
    // so, in a well-formed controller, every other fetch still in flight is aborted
    ensures !TooShortToSearch(c.config, q) && Inv(c) ==>
      forall t :: t in r.requests && t != c.nextToken ==> r.requests[t].aborted
  {
    if TooShortToSearch(c.config, q) then
      Dispatch(Dispatch(c, R.SetResults([])), R.SetShowResults(false))
    else
      var c1 := AbortLive(c);
      var t := c1.nextToken;
      var c2 := c1.(live := Some(t), requests := c1.requests[t := Request(q, limit, false)], nextToken := t + 1);
      Dispatch(Dispatch(c2, R.SetLoading(true)), R.ResetError)
  }

  /** The continuation of `searchAddresses` once fetch `t` settles with `o`. */
  function CompleteRequest(c: Controller, t: nat, o: Outcome): (r: Controller)
    ensures t !in c.requests ==> r == c
    // every settling takes the fetch out of flight and ends with loading false
    ensures t in c.requests ==>
      && r.requests == c.requests - {t} && !r.st.loading
      && r.live == c.live && r.timer == c.timer && r.nextToken == c.nextToken && r.config == c.config
      && r.st.query == c.st.query && r.st.selectedAddress == c.st.selectedAddress
      && r.st.limit == c.st.limit && r.st.autocomplete == c.st.autocomplete
    // an aborted fetch rejects with AbortError, which is swallowed
    ensures t in c.requests && c.requests[t].aborted ==> r.st == c.st.(loading := false)
    // a response replaces the results (an absent list reads as empty) and shows them
    ensures t in c.requests && !c.requests[t].aborted && o.Response? ==>
      r.st.results == o.features.GetOr([]) && r.st.showResults && r.st.error == c.st.error
    // any other failure sets the fixed message and keeps the previous results
    ensures t in c.requests && !c.requests[t].aborted && o.Failure? ==>
      && r.st.error == SearchErrorMessage
      && r.st.results == c.st.results && r.st.showResults == c.st.showResults
  {
    if t !in c.requests then c
    else
      var req := c.requests[t];
      var c1 := c.(requests := c.requests - {t});
      var c2 :=
        if req.aborted then c1
        else match o
          case Response(fs) =>
            Dispatch(Dispatch(c1, R.SetResults(if fs.Some? then fs.value else [])), R.SetShowResults(true))
          case Failure => Dispatch(c1, R.SetError(SearchErrorMessage));
      Dispatch(c2, R.SetLoading(false))
  }

  /** `debouncedSearch(q)`: the pending callback, if any, is replaced by one for `q`. */
  function DebouncedSearch(c: Controller, q: string): (r: Controller)
    ensures r.timer == Some(Timer(q, c.st.limit))
    ensures r == c.(timer := r.timer)
  {
    c.(timer := Some(Timer(q, c.st.limit)))
  }

  /** One run of the auto-search effect, preceded by the previous run's cleanup. */
  function AutoSearchEffect(c: Controller): (r: Controller)
    // effects never issue, abort or forget a fetch, and never touch query, loading, error or options
    ensures r.requests == c.requests && r.live == c.live && r.nextToken == c.nextToken
    ensures r.config == c.config
    ensures r.st.query == c.st.query && r.st.loading == c.st.loading && r.st.error == c.st.error
    ensures r.st.limit == c.st.limit && r.st.autocomplete == c.st.autocomplete
    // a settled selection suppresses the search; only the cleanup happened
    ensures Settled(c.st) ==> r == CancelTimer(c)
    // autocomplete with a long enough query re-arms the debounce timer
    ensures !Settled(c.st) && c.st.autocomplete && JsLength(c.st.query) >= c.config.minQueryLength ==>
      r == c.(timer := Some(Timer(c.st.query, c.st.limit)))
    // a short query hides and clears the results and drops the selection
    ensures !Settled(c.st) && JsLength(c.st.query) < c.config.minQueryLength ==>
      && r.timer == None && r.st.results == [] && !r.st.showResults && r.st.selectedAddress == None
    // manual mode with a long enough query does nothing
    ensures !Settled(c.st) && !c.st.autocomplete && JsLength(c.st.query) >= c.config.minQueryLength ==>
      r == CancelTimer(c)
  {
    var c0 := CancelTimer(c);
    var s := c0.st;
    if Settled(s) then c0
    else if s.autocomplete && JsLength(s.query) >= c.config.minQueryLength then DebouncedSearch(c0, s.query)
    else if JsLength(s.query) < c.config.minQueryLength then
      Dispatch(Dispatch(Dispatch(c0, R.SetResults([])), R.SetShowResults(false)), R.SetSelectedAddress(None))
    else c0
  }

  /**
   * The re-render after an event: the effect runs again as long as the render it produced
   * changed a dependency since the render before.
   */
  function Rerender(prev: Deps, c: Controller): (r: Controller)
    ensures r.requests == c.requests && r.live == c.live && r.nextToken == c.nextToken
    ensures r.config == c.config
    ensures r.st.query == c.st.query && r.st.loading == c.st.loading && r.st.error == c.st.error
    ensures r.st.limit == c.st.limit && r.st.autocomplete == c.st.autocomplete
    // a re-render can only empty or hide the results, drop the selection, and re-arm or cancel the timer
    ensures r.st.results == c.st.results || r.st.results == []
    ensures r.st.showResults ==> c.st.showResults
    ensures r.st.selectedAddress == c.st.selectedAddress || r.st.selectedAddress == None
    ensures r.timer == c.timer || r.timer == None || r.timer == Some(Timer(c.st.query, c.st.limit))
    decreases if DepsOf(c) == prev then 0 else if c.st.selectedAddress.Some? then 2 else 1
  {
    if DepsOf(c) == prev then c else Rerender(DepsOf(c), AutoSearchEffect(c))
  }

  /** `setQuery(text)`: the query always changes; a selection survives only while it still matches. */
  function SetQuery(c: Controller, text: string): (r: Controller)
    ensures r.st.query == text
    ensures r.st.selectedAddress ==
      if c.st.selectedAddress.Some? && text != c.st.selectedAddress.value.displayLabel then None
      else c.st.selectedAddress
    ensures r == c.(st := r.st)
    ensures r.st == c.st.(query := text, selectedAddress := r.st.selectedAddress)
  {
    var c1 := Dispatch(c, R.SetQuery(text));
    if c.st.selectedAddress.Some? && text != c.st.selectedAddress.value.displayLabel then
      Dispatch(c1, R.SetSelectedAddress(None))
    else c1
  }

  /** `selectAddress(a)`: the selection supersedes any search, pending or in flight. */
  function SelectAddress(c: Controller, a: Address): (r: Controller)
    ensures r.st == c.st.(selectedAddress := Some(a), query := a.displayLabel, showResults := false, results := [])
    ensures r.timer == None && r.requests == AbortLive(c).requests
    ensures r.live == c.live && r.nextToken == c.nextToken && r.config == c.config
  {
    var c1 := Dispatch(c, R.SetSelectedAddress(Some(a)));
    var c2 := Dispatch(c1, R.SetQuery(a.displayLabel));
    var c3 := Dispatch(c2, R.SetShowResults(false));
    var c4 := Dispatch(c3, R.SetResults([]));
    CancelTimer(AbortLive(c4))
  }

  /** `clearSearch()`: `CLEAR_SEARCH`, then the pending timer and the live fetch are cancelled. */
  function ClearSearch(c: Controller): (r: Controller)
    ensures r.st == R.Reduce(c.st, R.ClearSearch)
    ensures r.timer == None && r.requests == AbortLive(c).requests
    ensures r.live == c.live && r.nextToken == c.nextToken && r.config == c.config
  {
    AbortLive(CancelTimer(Dispatch(c, R.ClearSearch)))
  }

  /** The debounce callback fires: it is no longer pending and searches what it captured. */
  function FireTimer(c: Controller): (r: Controller)
    ensures r.timer == None && r.config == c.config
    // nothing pending: nothing happens
    ensures c.timer.None? ==> r == c
    // a captured query the guard rejects empties and hides the list, and issues and aborts nothing
    ensures c.timer.Some? && TooShortToSearch(c.config, c.timer.value.query) ==>
      r == c.(timer := None, st := c.st.(results := [], showResults := false))
    // any other captured query becomes the live fetch under the next token, with the captured limit
    ensures c.timer.Some? && !TooShortToSearch(c.config, c.timer.value.query) ==>
      && r.live == Some(c.nextToken) && r.nextToken == c.nextToken + 1
      && r.requests == AbortLive(c).requests[c.nextToken := Request(c.timer.value.query, c.timer.value.limit, false)]
      && r.st == c.st.(loading := true, error := "")
  {
    match c.timer
    case None => c
    case Some(t) => SearchAddresses(c.(timer := None), t.query, t.limit)
  }

  /** Only a search, called directly or by the timer, issues a fetch; it takes the next token and goes live. */
  predicate IssuesAtMostNext(c: Controller, e: Event, r: Controller) {
    && (forall t :: t in r.requests && t !in c.requests ==> t == c.nextToken)
    && (r.nextToken == c.nextToken
        || (r.nextToken == c.nextToken + 1 && r.live == Some(c.nextToken) && (e.SearchCalled? || e.TimerFired?)))
    && (!e.SearchCalled? && !e.TimerFired? ==> r.live == c.live && r.requests.Keys <= c.requests.Keys)
  }

  /** What the hook does on one event, before React re-renders. */
  function Handle(c: Controller, e: Event): (r: Controller)
    ensures r.config == c.config
    ensures IssuesAtMostNext(c, e, r)
  {
    match e
    case QueryChanged(text) => SetQuery(c, text)
    case SearchCalled(q, limit) => SearchAddresses(c, q, limit.GetOr(c.config.defaultLimit))
    case TimerFired => FireTimer(c)
    case RequestSettled(t, o) => CompleteRequest(c, t, o)
    case AddressSelected(a) => SelectAddress(c, a)
    case SearchCleared => ClearSearch(c)
    case LimitChanged(n) => Dispatch(c, R.SetLimit(n))
    case AutocompleteChanged(b) => Dispatch(c, R.SetAutocomplete(b))
  }

  /** One event followed by the re-render it causes. */
  function Step(c: Controller, e: Event): (r: Controller)
    ensures r.config == c.config
    ensures IssuesAtMostNext(c, e, r)
  {
    Rerender(DepsOf(c), Handle(c, e))
  }

  /** The controller as mounted: the initial state, after the effect's first run. */
  function Init(cfg: SearchConfig): (r: Controller)
    ensures Inv(r) && r.config == cfg && r.st == R.InitialState
    ensures r.requests == map[] && r.live == None && r.nextToken == 0
    // the effect's first run sees an empty query: a positive minimum leaves nothing pending
    ensures cfg.minQueryLength > 0 ==> r.timer == None
    ensures cfg.minQueryLength <= 0 ==> r.timer == Some(Timer("", R.InitialState.limit))
  {
    AutoSearchEffect(Controller(cfg, R.InitialState, None, None, map[], 0))
  }
}
