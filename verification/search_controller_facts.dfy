/**
 * What the search controller guarantees across events: the single-flight invariant, the
 * silence of superseded fetches, and the behaviour of each hook callback once React has
 * re-rendered and the auto-search effect has reacted.
 */
module SearchControllerFacts {
  import opened Types
  import opened JsStrings
  import opened SearchController
  import R = SearchReducer

  /** A selection only exists while the query reads as its label. */
  predicate SelectionConsistent(s: SearchState) {
    s.selectedAddress.Some? ==> s.query == s.selectedAddress.value.displayLabel
  }

  /** The invariants every reachable controller satisfies. */
  predicate WellFormed(c: Controller) {
    Inv(c) && SelectionConsistent(c.st)
  }

  /** The effect re-runs at most twice per render: a second run happens only after the first dropped a selection. */
  lemma {:induction false} RerenderRunsAtMostTwice(prev: Deps, c: Controller)
    ensures Rerender(prev, c) ==
      if DepsOf(c) == prev then c
      else
        var c1 := AutoSearchEffect(c);
        if DepsOf(c1) == DepsOf(c) then c1 else AutoSearchEffect(c1)
  {
    if DepsOf(c) != prev {
      var c1 := AutoSearchEffect(c);
      assert Rerender(prev, c) == Rerender(DepsOf(c), c1);
      if DepsOf(c1) != DepsOf(c) {
        var c2 := AutoSearchEffect(c1);
        assert c1.st.selectedAddress == None;
        assert DepsOf(c2) == DepsOf(c1);
        assert Rerender(DepsOf(c), c1) == Rerender(DepsOf(c1), c2);
      }
    }
  }

  lemma InitWellFormed(cfg: SearchConfig)
    ensures WellFormed(Init(cfg))
    ensures Init(cfg).st == R.InitialState && Init(cfg).requests == map[] && Init(cfg).live == None
    ensures cfg.minQueryLength > 0 ==> Init(cfg).timer == None
  {
  }

  /** A re-render keeps the in-flight table and never creates a selection. */
  lemma {:induction false} RerenderKeepsWellFormed(prev: Deps, c: Controller)
    requires WellFormed(c)
    ensures WellFormed(Rerender(prev, c))
  {
    RerenderRunsAtMostTwice(prev, c);
  }

  /** Every event keeps the in-flight table well formed and the selection consistent. */
  lemma {:induction false} StepKeepsWellFormed(c: Controller, e: Event)
    requires WellFormed(c)
    ensures WellFormed(Step(c, e))
  {
    var h := Handle(c, e);
    match e {
      case SearchCalled(q, limit) =>
        SearchIssueKeepsInv(c, q, limit.GetOr(c.config.defaultLimit));
      case TimerFired =>
        if c.timer.Some? {
          SearchIssueKeepsInv(c.(timer := None), c.timer.value.query, c.timer.value.limit);
        }
      case RequestSettled(t, o) =>
        assert Inv(h);
      case AddressSelected(a) =>
        assert Inv(h);
      case SearchCleared =>
        assert Inv(h);
      case _ =>
    }
    assert WellFormed(h);
    RerenderKeepsWellFormed(DepsOf(c), h);
  }

  lemma SearchIssueKeepsInv(c: Controller, q: string, limit: int)
    requires Inv(c)
    ensures Inv(SearchAddresses(c, q, limit))
  {
  }

  /** With the invariant, at most one fetch in flight has not been aborted, and it is the live one. */
  lemma SingleFlight(c: Controller, t1: nat, t2: nat)
    requires Inv(c)
    requires t1 in c.requests && !c.requests[t1].aborted
    requires t2 in c.requests && !c.requests[t2].aborted
    ensures t1 == t2 && c.live == Some(t1)
  {
  }

  /** A superseded fetch that settles, however it settles, writes nothing but `loading := false`. */
  lemma SupersededFetchWritesNothing(c: Controller, t: nat, o: Outcome)
    requires Inv(c)
    requires t in c.requests && c.live != Some(t)
    ensures Step(c, RequestSettled(t, o)).st == c.st.(loading := false)
    ensures Step(c, RequestSettled(t, o)).requests == c.requests - {t}
  {
    assert c.requests[t].aborted;
  }

  /**
   * As written, the `finally` of a superseded fetch still turns `loading` off, while the
   * fetch that superseded it is in flight.
   */
  lemma StaleFetchClearsLoading(c: Controller, stale: nat, current: nat, o: Outcome)
    requires Inv(c)
    requires stale in c.requests && c.requests[stale].aborted
    requires current in c.requests && !c.requests[current].aborted
    ensures var r := Step(c, RequestSettled(stale, o));
      !r.st.loading && current in r.requests && !r.requests[current].aborted && r.live == Some(current)
  {
  }

  /**
   * Results, errors and the visible result panel come from the live, unaborted fetch only:
   * every other event keeps them, empties them or hides them.
   */
  lemma {:induction false} OnlyLiveFetchWritesResults(c: Controller, e: Event)
    requires Inv(c)
    ensures var r := Step(c, e);
      var fromLive := e.RequestSettled? && e.token in c.requests && !c.requests[e.token].aborted
        && c.live == Some(e.token);
      && (r.st.results == c.st.results || r.st.results == []
          || (fromLive && e.outcome.Response? && r.st.results == e.outcome.features.GetOr([])))
      && (r.st.error == c.st.error || r.st.error == ""
          || (fromLive && e.outcome.Failure? && r.st.error == SearchErrorMessage))
      && (r.st.showResults ==> c.st.showResults || (fromLive && e.outcome.Response?))
  {
    var h := Handle(c, e);
    match e {
      case RequestSettled(t, o) =>
        if t in c.requests && !c.requests[t].aborted {
          assert c.live == Some(t);
        }
      case _ =>
    }
  }

  /** `setQuery` followed by the effect, in a controller whose selection is consistent. */
  lemma {:induction false} QueryChangedBehaviour(c: Controller, q: string)
    requires SelectionConsistent(c.st)
    ensures var r := Step(c, QueryChanged(q));
      && (q == c.st.query ==> r == c)
      && (q != c.st.query ==>
        // typing never issues, aborts or forgets a fetch
        && r.requests == c.requests && r.live == c.live && r.nextToken == c.nextToken
        && r.st.query == q && r.st.selectedAddress == None
        && r.st.loading == c.st.loading && r.st.error == c.st.error
        && r.st.limit == c.st.limit && r.st.autocomplete == c.st.autocomplete
        // long enough with autocomplete: the debounce timer is re-armed for q, replacing any other
        && (c.st.autocomplete && JsLength(q) >= c.config.minQueryLength ==>
              r.timer == Some(Timer(q, c.st.limit))
              && r.st.results == c.st.results && r.st.showResults == c.st.showResults)
        // too short: no search is pending and the results are emptied and hidden
        && (JsLength(q) < c.config.minQueryLength ==>
              r.timer == None && r.st.results == [] && !r.st.showResults)
        // manual mode: only the pending timer is cancelled
        && (!c.st.autocomplete && JsLength(q) >= c.config.minQueryLength ==>
              r.timer == None && r.st.results == c.st.results && r.st.showResults == c.st.showResults))
  {
    var h := SetQuery(c, q);
    if q != c.st.query {
      assert h.st.selectedAddress == None;
      var e1 := AutoSearchEffect(h);
      assert DepsOf(e1) == DepsOf(h);
      RerenderRunsAtMostTwice(DepsOf(c), h);
    } else {
      assert h == c;
    }
  }

  /** A short query does not abort the live fetch, so its late response can still fill the list. */
  lemma ShortQueryKeepsLiveFetch(c: Controller, q: string, t: nat, fs: seq<Address>)
    requires WellFormed(c)
    requires t in c.requests && !c.requests[t].aborted
    requires q != c.st.query && JsLength(q) < c.config.minQueryLength
    ensures var r := Step(c, QueryChanged(q));
      && t in r.requests && !r.requests[t].aborted
      && Step(r, RequestSettled(t, Response(Some(fs)))).st.results == fs
      && Step(r, RequestSettled(t, Response(Some(fs)))).st.showResults
      && Step(r, RequestSettled(t, Response(Some(fs)))).st.query == q
  {
    QueryChangedBehaviour(c, q);
  }

  /** `selectAddress` followed by the effect: the selection is settled and no search survives. */
  lemma {:induction false} AddressSelectedBehaviour(c: Controller, a: Address)
    ensures var r := Step(c, AddressSelected(a));
      && r.st == c.st.(selectedAddress := Some(a), query := a.displayLabel, showResults := false, results := [])
      && r.timer == None
      && r.live == c.live && r.nextToken == c.nextToken
      && r.requests.Keys == c.requests.Keys
      && (forall t :: t in r.requests ==> r.requests[t].aborted == (c.requests[t].aborted || c.live == Some(t)))
  {
    var h := SelectAddress(c, a);
    RerenderRunsAtMostTwice(DepsOf(c), h);
    assert Settled(h.st);
    assert AutoSearchEffect(h) == h;
  }

  /** `clearSearch` followed by the effect. */
  lemma {:induction false} SearchClearedBehaviour(c: Controller)
    ensures var r := Step(c, SearchCleared);
      && r.st == R.Reduce(c.st, R.ClearSearch)
      && r.live == c.live && r.nextToken == c.nextToken
      && r.requests.Keys == c.requests.Keys
      && (forall t :: t in r.requests ==> r.requests[t].aborted == (c.requests[t].aborted || c.live == Some(t)))
      && (c.config.minQueryLength > 0 ==> r.timer == None)
      // the emptied query re-arms the timer only when a minimum of zero or less lets "" through,
      // autocomplete is on, and clearing changed a dependency of the effect
      && r.timer == (if c.config.minQueryLength <= 0 && c.st.autocomplete
                       && (c.st.query != "" || c.st.selectedAddress != None)
                     then Some(Timer("", c.st.limit)) else None)
  {
    var h := ClearSearch(c);
    RerenderRunsAtMostTwice(DepsOf(c), h);
    if c.config.minQueryLength > 0 {
      assert JsLength(h.st.query) == 0;
    }
  }

  /** The debounce callback runs `searchAddresses` on what it captured; no effect follows. */
  lemma TimerFiredBehaviour(c: Controller)
    ensures c.timer.None? ==> Step(c, TimerFired) == c
    ensures c.timer.Some? ==>
      Step(c, TimerFired) == SearchAddresses(c.(timer := None), c.timer.value.query, c.timer.value.limit)
  {
  }

  /** A fetch settling changes no dependency of the effect, so nothing else follows. */
  lemma RequestSettledBehaviour(c: Controller, t: nat, o: Outcome)
    ensures Step(c, RequestSettled(t, o)) == CompleteRequest(c, t, o)
  {
  }

  /**
   * Changing the limit or the autocomplete flag re-runs the effect: with autocomplete on,
   * an unsettled long-enough query is re-armed with the current limit; otherwise the timer
   * is cancelled.
   */
  lemma {:induction false} OptionChangeBehaviour(c: Controller, e: Event)
    requires e.LimitChanged? || e.AutocompleteChanged?
    requires SelectionConsistent(c.st)
    ensures var r := Step(c, e);
      && r.requests == c.requests && r.live == c.live
      && r.st.query == c.st.query && r.st.selectedAddress == c.st.selectedAddress
      && (DepsOf(Handle(c, e)) == DepsOf(c) ==> r == Handle(c, e))
      && (DepsOf(Handle(c, e)) != DepsOf(c) && !Settled(c.st) && r.st.autocomplete
          && JsLength(c.st.query) >= c.config.minQueryLength ==>
            r.timer == Some(Timer(c.st.query, r.st.limit)))
      && (DepsOf(Handle(c, e)) != DepsOf(c) && (Settled(c.st) || !r.st.autocomplete) ==> r.timer == None)
      // an unsettled short query cancels the timer and empties and hides the list, whatever the flag
      && (DepsOf(Handle(c, e)) != DepsOf(c) && !Settled(c.st) && JsLength(c.st.query) < c.config.minQueryLength ==>
            r.timer == None && r.st.results == [] && !r.st.showResults)
  {
    var h := Handle(c, e);
    RerenderRunsAtMostTwice(DepsOf(c), h);
  }
}
